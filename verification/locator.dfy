/**
 Archive discovery in `get_foundry_versions`: the directory entries the
 glob `FoundryVTT*.zip` selects, each keyed by the version its name carries,
 in ascending version order.
 */
module Locator {
  import opened Wrappers
  import opened Versions
  import opened ArchiveName

  /** The literal start of the glob. */
  const Stem: string := "FoundryVTT"

  /** The glob `FoundryVTT*.zip` on an entry name: `*` matches any text, even none. */
  predicate IsCandidate(name: string) {
    |name| >= |Stem| + |Zip| && Stem <= name && name[|name| - |Zip|..] == Zip
  }

  /** An archive selected by the glob, with the version its name carries. */
  datatype Archive = Archive(name: string, version: Version)

  /** The whole run stops on the first selected name the version pattern rejects. */
  datatype LocateError = Unmatched(name: string)

  function Names(s: seq<Archive>): (names: seq<string>)
    ensures |names| == |s|
    ensures forall i :: 0 <= i < |s| ==> names[i] == s[i].name
  {
    if |s| == 0 then [] else [s[0].name] + Names(s[1..])
  }

  /** The entries `keep` accepts, in their order. */
  function Filter(entries: seq<string>, keep: string -> bool): seq<string>
  {
    if |entries| == 0 then []
    else (if keep(entries[0]) then [entries[0]] else []) + Filter(entries[1..], keep)
  }

  /** Filtering keeps exactly the entries that are present and accepted. */
  lemma {:induction false} FilterMembers(entries: seq<string>, keep: string -> bool)
    ensures forall i :: 0 <= i < |Filter(entries, keep)| ==> keep(Filter(entries, keep)[i])
    ensures forall x :: x in Filter(entries, keep) <==> x in entries && keep(x)
  {
    if |entries| > 0 {
      FilterMembers(entries[1..], keep);
      assert entries == [entries[0]] + entries[1..];
    }
  }

  /**
   Filtering keeps the enumeration order: the entries kept from a listing's
   first part all come before those kept from its second part.
   */
  lemma {:induction false} FilterAppend(a: seq<string>, b: seq<string>, keep: string -> bool)
    ensures Filter(a + b, keep) == Filter(a, keep) + Filter(b, keep)
  {
    if |a| > 0 {
      var head := if keep(a[0]) then [a[0]] else [];
      assert (a + b)[0] == a[0] && (a + b)[1..] == a[1..] + b;
      FilterAppend(a[1..], b, keep);
      calc {
        Filter(a + b, keep);
        head + Filter(a[1..] + b, keep);
        head + (Filter(a[1..], keep) + Filter(b, keep));
        (head + Filter(a[1..], keep)) + Filter(b, keep);
        Filter(a, keep) + Filter(b, keep);
      }
    } else {
      assert a + b == b;
    }
  }

  /** Filtering keeps every occurrence of an accepted entry and none of the others. */
  lemma {:induction false} FilterKeepsOccurrences(entries: seq<string>, keep: string -> bool, x: string)
    ensures multiset(Filter(entries, keep))[x] == if keep(x) then multiset(entries)[x] else 0
  {
    if |entries| > 0 {
      var head := if keep(entries[0]) then [entries[0]] else [];
      FilterKeepsOccurrences(entries[1..], keep, x);
      assert multiset(Filter(entries, keep)) == multiset(head) + multiset(Filter(entries[1..], keep));
      assert multiset(entries) == multiset{entries[0]} + multiset(entries[1..]) by {
        assert entries == [entries[0]] + entries[1..];
      }
    }
  }

  /** `path.glob("FoundryVTT*.zip")` over the entries of the directory, in enumeration order. */
  function Candidates(entries: seq<string>): (selected: seq<string>)
    ensures forall i :: 0 <= i < |selected| ==> IsCandidate(selected[i])
    ensures forall x :: x in selected <==> x in entries && IsCandidate(x)
  {
    FilterMembers(entries, IsCandidate);
    Filter(entries, IsCandidate)
  }

  /** The glob keeps the directory's enumeration order. */
  lemma CandidatesAppend(a: seq<string>, b: seq<string>)
    ensures Candidates(a + b) == Candidates(a) + Candidates(b)
  {
    FilterAppend(a, b, IsCandidate);
  }

  /**
   The sort key of every selected name, computed in order as `sorted` does;
   the first name without a key stops the computation. The key function is
   a parameter; discovery uses the version pattern, `Match`.
   */
  function Keyed(names: seq<string>, key: string -> Option<Version>): (r: Result<seq<Archive>, LocateError>)
    ensures r.Success? <==> forall i :: 0 <= i < |names| ==> key(names[i]).Some?
    ensures r.Success? ==> Names(r.value) == names
    ensures r.Success? ==> forall a :: a in r.value ==> key(a.name) == Some(a.version)
    ensures r.Failure? ==>
              exists k :: 0 <= k < |names| && r.error == Unmatched(names[k]) && key(names[k]).None?
                          && forall j :: 0 <= j < k ==> key(names[j]).Some?
  {
    if |names| == 0 then Success([])
    else
      match key(names[0])
      case None => Failure(Unmatched(names[0]))
      case Some(v) =>
        var rest :- Keyed(names[1..], key);
        Success([Archive(names[0], v)] + rest)
  }

  predicate Sorted(s: seq<Archive>) {
    forall i, j :: 0 <= i < j < |s| ==> Le(s[i].version, s[j].version)
  }

  /** The archives of one version, in the order in which they appear. */
  function WithVersion(s: seq<Archive>, v: Version): seq<Archive> {
    if |s| == 0 then []
    else if s[0].version == v then [s[0]] + WithVersion(s[1..], v)
    else WithVersion(s[1..], v)
  }

  /** Inserts `a` ahead of the first archive whose version is not below its own. */
  function Insert(a: Archive, s: seq<Archive>): (r: seq<Archive>)
    ensures |r| == |s| + 1
    ensures multiset(r) == multiset(s) + multiset{a}
  {
    if |s| == 0 || Le(a.version, s[0].version) then
      [a] + s
    else
      assert s == [s[0]] + s[1..];
      [s[0]] + Insert(a, s[1..])
  }

  /** Inserting into a sorted sequence keeps it sorted; the head is the new archive or the old head. */
  lemma {:induction false} InsertKeepsSorted(a: Archive, s: seq<Archive>)
    requires Sorted(s)
    ensures Sorted(Insert(a, s))
    ensures Insert(a, s)[0] == a || Insert(a, s)[0] == s[0]
  {
    if |s| == 0 || Le(a.version, s[0].version) {
      SortedCons(a, s);
    } else {
      InsertKeepsSorted(a, s[1..]);
      LeIsTotalOrder(a.version, s[0].version, s[0].version);
      SortedCons(s[0], Insert(a, s[1..]));
    }
  }

  /** An archive no later than the head of a sorted sequence can go in front of it. */
  lemma SortedCons(b: Archive, s: seq<Archive>)
    requires Sorted(s)
    requires |s| == 0 || Le(b.version, s[0].version)
    ensures Sorted([b] + s)
  {
    forall i, j | 0 <= i < j < |[b] + s| ensures Le(([b] + s)[i].version, ([b] + s)[j].version) {
      if i == 0 {
        LeIsTotalOrder(b.version, s[0].version, s[j - 1].version);
      }
    }
  }

  /** `sorted` by version: the result is ascending and a permutation of the input. */
  function SortByVersion(s: seq<Archive>): (r: seq<Archive>)
    ensures Sorted(r)
    ensures multiset(r) == multiset(s)
  {
    if |s| == 0 then []
    else
      assert s == [s[0]] + s[1..];
      var rest := SortByVersion(s[1..]);
      InsertKeepsSorted(s[0], rest);
      Insert(s[0], rest)
  }

  lemma {:induction false} InsertNames(a: Archive, s: seq<Archive>)
    ensures multiset(Names(Insert(a, s))) == multiset(Names(s)) + multiset{a.name}
  {
    if |s| == 0 || Le(a.version, s[0].version) {
      assert Names([a] + s) == [a.name] + Names(s);
    } else {
      var r := Insert(a, s[1..]);
      InsertNames(a, s[1..]);
      assert Names([s[0]] + r) == [s[0].name] + Names(r);
      assert Names(s) == [s[0].name] + Names(s[1..]);
    }
  }

  /** The inserted archive goes ahead of the archives of its own version and leaves the others in place. */
  lemma {:induction false} InsertStable(a: Archive, s: seq<Archive>, v: Version)
    ensures WithVersion(Insert(a, s), v) == if a.version == v then [a] + WithVersion(s, v) else WithVersion(s, v)
  {
    if |s| == 0 || Le(a.version, s[0].version) {
      assert ([a] + s)[1..] == s;
    } else {
      var r := Insert(a, s[1..]);
      InsertStable(a, s[1..], v);
      assert ([s[0]] + r)[1..] == r;
    }
  }

  /** Sorting neither loses nor duplicates a name. */
  lemma {:induction false} SortKeepsNames(s: seq<Archive>)
    ensures multiset(Names(SortByVersion(s))) == multiset(Names(s))
  {
    if |s| > 0 {
      SortKeepsNames(s[1..]);
      InsertNames(s[0], SortByVersion(s[1..]));
      assert Names(s) == [s[0].name] + Names(s[1..]);
    }
  }

  /** Sorting is stable: the archives of each version keep their input order. */
  lemma {:induction false} SortIsStable(s: seq<Archive>, v: Version)
    ensures WithVersion(SortByVersion(s), v) == WithVersion(s, v)
  {
    if |s| > 0 {
      SortIsStable(s[1..], v);
      InsertStable(s[0], SortByVersion(s[1..]), v);
    }
  }

  lemma {:induction false} WithVersionMembers(s: seq<Archive>, v: Version, x: Archive)
    requires x in WithVersion(s, v)
    ensures x in s && x.version == v
  {
    if !(s[0].version == v && x == s[0]) {
      WithVersionMembers(s[1..], v, x);
    }
  }

  lemma HeadVersionIsPresent(s: seq<Archive>)
    ensures |s| > 0 ==> WithVersion(s, s[0].version) != []
    ensures |s| == 0 ==> forall v :: WithVersion(s, v) == []
  {
  }

  /**
   Sorted sequences that agree on the order of each version's archives are
   equal: a stable sort by version has exactly one possible result.
   */
  lemma {:induction false} StableSortIsUnique(a: seq<Archive>, b: seq<Archive>)
    requires Sorted(a) && Sorted(b)
    requires forall v :: WithVersion(a, v) == WithVersion(b, v)
    ensures a == b
  {
    if |a| == 0 || |b| == 0 {
      HeadVersionIsPresent(a);
      HeadVersionIsPresent(b);
    } else {
      var va, vb := a[0].version, b[0].version;
      assert a[0] in WithVersion(a, va);
      WithVersionMembers(b, va, a[0]);
      assert b[0] in WithVersion(b, vb);
      WithVersionMembers(a, vb, b[0]);
      assert va == vb;
      assert WithVersion(a, va)[0] == a[0];
      assert WithVersion(b, va)[0] == b[0];
      assert a[0] == b[0];
      forall v
        ensures WithVersion(a[1..], v) == WithVersion(b[1..], v)
      {
        assert WithVersion(a, v) == WithVersion(b, v);
        if v == va {
          assert WithVersion(a, v)[1..] == WithVersion(a[1..], v);
          assert WithVersion(b, v)[1..] == WithVersion(b[1..], v);
        }
      }
      StableSortIsUnique(a[1..], b[1..]);
      assert a == [a[0]] + a[1..] && b == [b[0]] + b[1..];
    }
  }

  /**
   Any stable sort by version of `s`, Python's `sorted` among them, returns
   exactly `SortByVersion(s)`.
   */
  lemma StableSortIsSortByVersion(s: seq<Archive>, r: seq<Archive>)
    requires Sorted(r)
    requires forall v :: WithVersion(r, v) == WithVersion(s, v)
    ensures r == SortByVersion(s)
  {
    forall v
      ensures WithVersion(r, v) == WithVersion(SortByVersion(s), v)
    {
      SortIsStable(s, v);
    }
    StableSortIsUnique(r, SortByVersion(s));
  }
  /**
   `sorted` compares keys with packaging's `<`: a result in which no archive
   is packaging-less than one before it is ascending in the model's order.
   */
  lemma PackagingSortedIsSorted(r: seq<Archive>)
    requires forall i, j :: 0 <= i < j < |r| ==> !PackagingLt(r[j].version, r[i].version)
    ensures Sorted(r)
  {
    forall i, j | 0 <= i < j < |r|
      ensures Le(r[i].version, r[j].version)
    {
      PackagingOrderIsNumeric(r[j].version, r[i].version);
    }
  }


  lemma SameMembers<T>(a: seq<T>, b: seq<T>)
    requires multiset(a) == multiset(b)
    ensures forall x :: x in a <==> x in b
  {
    forall x
      ensures x in a <==> x in b
    {
      assert x in a <==> x in multiset(a);
      assert x in b <==> x in multiset(b);
    }
  }

  /** The names among `names` whose version is `v`, in order. */
  function OfVersion(names: seq<string>, key: string -> Option<Version>, v: Version): seq<string> {
    if |names| == 0 then []
    else (if key(names[0]) == Some(v) then [names[0]] else []) + OfVersion(names[1..], key, v)
  }

  lemma {:induction false} KeyedOfVersion(names: seq<string>, key: string -> Option<Version>, v: Version)
    requires Keyed(names, key).Success?
    ensures Names(WithVersion(Keyed(names, key).value, v)) == OfVersion(names, key, v)
  {
    if |names| > 0 {
      KeyedOfVersion(names[1..], key, v);
      var k := Keyed(names, key).value;
      assert k[1..] == Keyed(names[1..], key).value;
      if k[0].version == v {
        assert Names([k[0]] + WithVersion(k[1..], v)) == [k[0].name] + Names(WithVersion(k[1..], v));
      }
    }
  }

  /**
   `get_foundry_versions` before any copying: the glob-selected entries,
   keyed and sorted by version. Every selected name must match the version
   pattern, or the whole run fails.
   */
  function Locate(entries: seq<string>): (r: Result<seq<Archive>, LocateError>)
    ensures r.Failure? <==> exists i :: 0 <= i < |entries| && IsCandidate(entries[i]) && Match(entries[i]).None?
    ensures r.Failure? ==> r.error.name in entries && IsCandidate(r.error.name) && Match(r.error.name).None?
    ensures r.Success? ==> Sorted(r.value)
    ensures r.Success? ==> forall a :: a in r.value ==> Match(a.name) == Some(a.version)
  {
    var keyed :- Keyed(Candidates(entries), Match);
    var sorted := SortByVersion(keyed);
    SameMembers(sorted, keyed);
    Success(sorted)
  }

  /**
   Every glob-selected entry is processed once per occurrence, and nothing
   else is: the located names are a permutation of the selected entries.
   */
  lemma LocateIsPermutation(entries: seq<string>)
    ensures Locate(entries).Success? ==>
              forall x :: multiset(Names(Locate(entries).value))[x] == if IsCandidate(x) then multiset(entries)[x] else 0
  {
    if Locate(entries).Success? {
      var keyed := Keyed(Candidates(entries), Match).value;
      SortKeepsNames(keyed);
      forall x
        ensures multiset(Names(Locate(entries).value))[x] == if IsCandidate(x) then multiset(entries)[x] else 0
      {
        FilterKeepsOccurrences(entries, IsCandidate, x);
      }
    }
  }

  /**
   Archives of equal version come out in the order in which the directory
   enumerated them, since Python's `sorted` is stable.
   */
  lemma LocateIsStable(entries: seq<string>, v: Version)
    ensures Locate(entries).Success? ==>
              Names(WithVersion(Locate(entries).value, v)) == OfVersion(Candidates(entries), Match, v)
  {
    if Locate(entries).Success? {
      var keyed := Keyed(Candidates(entries), Match).value;
      SortIsStable(keyed, v);
      KeyedOfVersion(Candidates(entries), Match, v);
    }
  }
}
