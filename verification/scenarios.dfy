/** Concrete directory listings and what archive discovery makes of them. */
module Scenarios {
  import opened Wrappers
  import opened Versions
  import opened ArchiveName
  import opened Locator

  lemma MatchesTenName()
    ensures Match("FoundryVTT-10.290.zip") == Some(Version(10, 290))
  {
    DecimalExamples();
    assert '-' !in "FoundryVTT" && AllDigits("10") && AllDigits("290");
    assert QualifiedTail(false, "10", "290", "") == "-10.290.zip";
    assert "FoundryVTT-10.290.zip" == "FoundryVTT" + "-10.290.zip";
    MatchComplete("FoundryVTT-10.290.zip", "FoundryVTT", false, "10", "290", "");
  }

  lemma KeyedCons(names: seq<string>, key: string -> Option<Version>, v: Version)
    requires |names| > 0 && key(names[0]) == Some(v) && Keyed(names[1..], key).Success?
    ensures Keyed(names, key) == Success([Archive(names[0], v)] + Keyed(names[1..], key).value)
  {
  }

  lemma KeyedOne(z: string, key: string -> Option<Version>, vz: Version)
    requires key(z) == Some(vz)
    ensures Keyed([z], key) == Success([Archive(z, vz)])
  {
    assert Keyed([], key) == Success([]);
    assert [z][1..] == [];
    KeyedCons([z], key, vz);
    assert [Archive(z, vz)] + [] == [Archive(z, vz)];
  }

  lemma KeyedTwo(y: string, z: string, key: string -> Option<Version>, vy: Version, vz: Version)
    requires key(y) == Some(vy) && key(z) == Some(vz)
    ensures Keyed([y, z], key) == Success([Archive(y, vy), Archive(z, vz)])
  {
    KeyedOne(z, key, vz);
    assert [y, z][1..] == [z];
    KeyedCons([y, z], key, vy);
    assert [Archive(y, vy)] + [Archive(z, vz)] == [Archive(y, vy), Archive(z, vz)];
  }

  /** Three selected names that all have a key are keyed in enumeration order. */
  lemma KeyedThree(x: string, y: string, z: string, key: string -> Option<Version>, vx: Version, vy: Version, vz: Version)
    requires key(x) == Some(vx) && key(y) == Some(vy) && key(z) == Some(vz)
    ensures Keyed([x, y, z], key) == Success([Archive(x, vx), Archive(y, vy), Archive(z, vz)])
  {
    KeyedTwo(y, z, key, vy, vz);
    assert [x, y, z][1..] == [y, z];
    KeyedCons([x, y, z], key, vx);
    assert [Archive(x, vx)] + [Archive(y, vy), Archive(z, vz)] == [Archive(x, vx), Archive(y, vy), Archive(z, vz)];
  }

  lemma KeptCons(x: string, rest: seq<string>, keep: string -> bool)
    requires keep(x)
    ensures Filter([x] + rest, keep) == [x] + Filter(rest, keep)
  {
    assert ([x] + rest)[1..] == rest;
  }

  lemma DroppedCons(x: string, rest: seq<string>, keep: string -> bool)
    requires !keep(x)
    ensures Filter([x] + rest, keep) == Filter(rest, keep)
  {
    assert ([x] + rest)[1..] == rest;
  }

  lemma KeptThree(x: string, y: string, z: string, keep: string -> bool)
    requires keep(x) && keep(y) && keep(z)
    ensures Filter([x, y, z], keep) == [x, y, z]
  {
    KeptCons(z, [], keep);
    assert [z] + [] == [z];
    KeptCons(y, [z], keep);
    assert [y] + [z] == [y, z];
    KeptCons(x, [y, z], keep);
    assert [x] + [y, z] == [x, y, z];
  }

  /** Three entries the glob all selects are kept, in enumeration order. */
  lemma SelectedThree(x: string, y: string, z: string)
    requires IsCandidate(x) && IsCandidate(y) && IsCandidate(z)
    ensures Candidates([x, y, z]) == [x, y, z]
  {
    KeptThree(x, y, z, IsCandidate);
  }

  lemma ThreeReleasesAreSelected()
    ensures Candidates(["FoundryVTT-10.290.zip", "FoundryVTT-Linux-11.300.zip", "FoundryVTT-9.280.zip"])
            == ["FoundryVTT-10.290.zip", "FoundryVTT-Linux-11.300.zip", "FoundryVTT-9.280.zip"]
  {
    assert IsCandidate("FoundryVTT-10.290.zip");
    assert IsCandidate("FoundryVTT-Linux-11.300.zip");
    assert IsCandidate("FoundryVTT-9.280.zip");
    SelectedThree("FoundryVTT-10.290.zip", "FoundryVTT-Linux-11.300.zip", "FoundryVTT-9.280.zip");
  }

  lemma ThreeReleasesAreKeyed()
    ensures Keyed(["FoundryVTT-10.290.zip", "FoundryVTT-Linux-11.300.zip", "FoundryVTT-9.280.zip"], Match)
            == Success([Archive("FoundryVTT-10.290.zip", Version(10, 290)),
                        Archive("FoundryVTT-Linux-11.300.zip", Version(11, 300)),
                        Archive("FoundryVTT-9.280.zip", Version(9, 280))])
  {
    MatchesTenName();
    MatchesLinuxName();
    MatchesPlainName();
    KeyedThree("FoundryVTT-10.290.zip", "FoundryVTT-Linux-11.300.zip", "FoundryVTT-9.280.zip", Match,
               Version(10, 290), Version(11, 300), Version(9, 280));
  }

  /**
   Three releases enumerated out of order come out in numeric order, although
   `10.290` sorts before `9.280` as text; the Linux qualifier does not affect
   the order.
   */
  lemma ThreeReleasesInNumericOrder()
    ensures Locate(["FoundryVTT-10.290.zip", "FoundryVTT-Linux-11.300.zip", "FoundryVTT-9.280.zip"])
            == Success([Archive("FoundryVTT-9.280.zip", Version(9, 280)),
                        Archive("FoundryVTT-10.290.zip", Version(10, 290)),
                        Archive("FoundryVTT-Linux-11.300.zip", Version(11, 300))])
  {
    ThreeReleasesAreSelected();
    ThreeReleasesAreKeyed();
    var a10 := Archive("FoundryVTT-10.290.zip", Version(10, 290));
    var a11 := Archive("FoundryVTT-Linux-11.300.zip", Version(11, 300));
    var a9 := Archive("FoundryVTT-9.280.zip", Version(9, 280));
    SortThree(a10, a11, a9);
  }

  lemma InsertAhead(a: Archive, s: seq<Archive>)
    requires |s| == 0 || Le(a.version, s[0].version)
    ensures Insert(a, s) == [a] + s
  {
  }

  lemma InsertBehind(a: Archive, s: seq<Archive>)
    requires |s| > 0 && Lt(s[0].version, a.version)
    ensures Insert(a, s) == [s[0]] + Insert(a, s[1..])
  {
  }

  lemma SortOne(z: Archive)
    ensures SortByVersion([z]) == [z]
  {
    assert [z][1..] == [];
    InsertAhead(z, []);
  }

  lemma SortTwo(y: Archive, z: Archive)
    requires Lt(z.version, y.version)
    ensures SortByVersion([y, z]) == [z, y]
  {
    SortOne(z);
    assert [y, z][1..] == [z];
    InsertAhead(y, []);
    InsertBehind(y, [z]);
  }

  lemma InsertBetween(x: Archive, y: Archive, z: Archive)
    requires Lt(z.version, x.version) && Lt(x.version, y.version)
    ensures Insert(x, [z, y]) == [z, x, y]
  {
    InsertBehind(x, [z, y]);
    assert [z, y][1..] == [y];
    InsertAhead(x, [y]);
    assert [z] + [x, y] == [z, x, y];
  }

  /** Sorting three archives whose versions arrive in the middle, top, bottom order. */
  lemma SortThree(x: Archive, y: Archive, z: Archive)
    requires Lt(z.version, x.version) && Lt(x.version, y.version)
    ensures SortByVersion([x, y, z]) == [z, x, y]
  {
    assert [x, y, z][1..] == [y, z];
    SortTwo(y, z);
    InsertBetween(x, y, z);
  }

  lemma DroppedBefore(c: string, z: string, keep: string -> bool)
    requires !keep(c) && keep(z)
    ensures Filter([c, z], keep) == [z]
  {
    KeptCons(z, [], keep);
    assert [z] + [] == [z];
    DroppedCons(c, [z], keep);
    assert [c] + [z] == [c, z];
  }

  lemma DroppedThree(a: string, b: string, c: string, z: string, keep: string -> bool)
    requires !keep(a) && !keep(b) && !keep(c) && keep(z)
    ensures Filter([a, b, c, z], keep) == [z]
  {
    DroppedBefore(c, z, keep);
    DroppedCons(b, [c, z], keep);
    assert [b] + [c, z] == [b, c, z];
    DroppedCons(a, [b, c, z], keep);
    assert [a] + [b, c, z] == [a, b, c, z];
  }

  /**
   Entries outside the glob are never looked at: another file, a name whose
   stem differs in case, and an archive of another format.
   */
  lemma OnlyGlobMatchesAreSelected()
    ensures Candidates(["README.md", "foundryvtt-9.280.zip", "FoundryVTT-9.280.tar.gz", "FoundryVTT-9.280.zip"])
            == ["FoundryVTT-9.280.zip"]
  {
    assert |"README.md"| < |Stem| + |Zip|;
    assert "foundryvtt-9.280.zip"[0] != Stem[0];
    assert "FoundryVTT-9.280.tar.gz"[19..] != Zip;
    assert IsCandidate("FoundryVTT-9.280.zip");
    DroppedThree("README.md", "foundryvtt-9.280.zip", "FoundryVTT-9.280.tar.gz", "FoundryVTT-9.280.zip", IsCandidate);
  }

  /** Keying stops at the first name without a key, whatever follows it. */
  lemma KeyedStopsAtUnmatched(x: string, y: string, key: string -> Option<Version>)
    requires key(x).Some? && key(y).None?
    ensures Keyed([x, y], key) == Failure(Unmatched(y))
  {
    assert [x, y][1..] == [y];
  }

  /**
   One archive with a patch component fails the whole run, even though an
   archive before it has a version.
   */
  lemma PatchReleaseFailsTheRun()
    ensures Locate(["FoundryVTT-9.280.zip", "FoundryVTT-1.2.3.zip"]) == Failure(Unmatched("FoundryVTT-1.2.3.zip"))
  {
    var x, y := "FoundryVTT-9.280.zip", "FoundryVTT-1.2.3.zip";
    assert IsCandidate(x) && IsCandidate(y);
    KeptCons(y, [], IsCandidate);
    assert [y] + [] == [y];
    KeptCons(x, [y], IsCandidate);
    assert [x] + [y] == [x, y];
    MatchesPlainName();
    RejectsPatchComponent();
    KeyedStopsAtUnmatched(x, y, Match);
  }
}
