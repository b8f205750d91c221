/**
 The version pattern `[^-]*(?:-Linux)?-(\d+\.\d+)\.zip` of mass_update.py,
 applied with `re.match`: anchored at the start of the name, not at its end.

 The pattern leaves the backtracking engine no real choice: `[^-]*` stops
 at the first '-', which everything after it must start with; each `\d+`
 must be followed by a '.', which is no digit. So the match is computed
 with maximal runs, and `Shaped` states declaratively which names match.
 */
module ArchiveName {
  import opened Wrappers
  import opened Versions

  /** The optional platform qualifier. */
  const Linux: string := "-Linux"

  /** The archive extension, which must follow the minor component. */
  const Zip: string := ".zip"

  /** ASCII digits only; Unicode decimal digits are not modelled. */
  predicate IsDigit(c: char) {
    '0' <= c <= '9'
  }

  predicate AllDigits(s: string) {
    forall i :: 0 <= i < |s| ==> IsDigit(s[i])
  }

  /** The value of a decimal numeral; leading zeros are allowed, as `int()` allows them. */
  function Decimal(s: string): nat
    requires AllDigits(s)
  {
    if |s| == 0 then 0
    else Decimal(s[..|s| - 1]) * 10 + (s[|s| - 1] as int - '0' as int)
  }

  /** How many characters `[^-]*` consumes at the start of `s`. */
  function NonDashRun(s: string): (k: nat)
    ensures k <= |s|
    ensures '-' !in s[..k]
    ensures k < |s| ==> s[k] == '-'
  {
    if |s| == 0 || s[0] == '-' then 0
    else
      assert s[..1 + NonDashRun(s[1..])] == [s[0]] + s[1..][..NonDashRun(s[1..])];
      1 + NonDashRun(s[1..])
  }

  /** How many characters `\d+` consumes at the start of `s` (zero: it fails). */
  function DigitRun(s: string): (k: nat)
    ensures k <= |s|
    ensures AllDigits(s[..k])
    ensures k < |s| ==> !IsDigit(s[k])
  {
    if |s| == 0 || !IsDigit(s[0]) then 0
    else
      assert s[..1 + DigitRun(s[1..])] == [s[0]] + s[1..][..DigitRun(s[1..])];
      1 + DigitRun(s[1..])
  }

  /** The tail `-(\d+\.\d+)\.zip` of the pattern, matched at the start of `t`. */
  function MatchRelease(t: string): Option<Version> {
    if |t| == 0 || t[0] != '-' then None
    else
      var s := t[1..];
      var m := DigitRun(s);
      if m == 0 || m == |s| || s[m] != '.' then None
      else
        var u := s[m + 1..];
        var k := DigitRun(u);
        if k == 0 || !(Zip <= u[k..]) then None
        else Some(Version(Decimal(s[..m]), Decimal(u[..k])))
  }

  /**
   The pattern after `[^-]*`: the optional group `(?:-Linux)?` is tried
   first, and the engine falls back to skipping it, as backtracking does.
   */
  function MatchQualified(t: string): Option<Version> {
    var qualified := if Linux <= t then MatchRelease(t[|Linux|..]) else None;
    if qualified.Some? then qualified else MatchRelease(t)
  }

  /** `VERSION_REGEX.match(name)`, reduced to the version its group captures. */
  function Match(name: string): Option<Version> {
    MatchQualified(name[NonDashRun(name)..])
  }

  /** The text `-major.minor.zip` followed by anything at all. */
  function ReleaseTail(major: string, minor: string, rest: string): string {
    "-" + (major + ("." + (minor + (Zip + rest))))
  }

  /** A release tail, optionally preceded by the platform qualifier. */
  function QualifiedTail(linux: bool, major: string, minor: string, rest: string): string {
    (if linux then Linux else "") + ReleaseTail(major, minor, rest)
  }

  /**
   `name` is a dash-free prefix, an optional `-Linux`, then `-major.minor.zip`
   with non-empty runs of digits, then anything at all.
   */
  predicate Shaped(name: string, prefix: string, linux: bool, major: string, minor: string, rest: string) {
    && '-' !in prefix
    && |major| > 0 && AllDigits(major)
    && |minor| > 0 && AllDigits(minor)
    && name == prefix + QualifiedTail(linux, major, minor, rest)
  }

  lemma NonDashRunAfter(prefix: string, s: string)
    requires '-' !in prefix
    requires |s| > 0 && s[0] == '-'
    ensures NonDashRun(prefix + s) == |prefix|
  {
    if |prefix| > 0 {
      assert (prefix + s)[1..] == prefix[1..] + s;
      NonDashRunAfter(prefix[1..], s);
    }
  }

  lemma DigitRunBefore(digits: string, s: string)
    requires AllDigits(digits)
    requires |s| > 0 && !IsDigit(s[0])
    ensures DigitRun(digits + s) == |digits|
  {
    if |digits| > 0 {
      assert (digits + s)[1..] == digits[1..] + s;
      DigitRunBefore(digits[1..], s);
    }
  }

  /** Every `-major.minor.zip…` tail matches, capturing exactly those numerals. */
  lemma MatchReleaseOf(major: string, minor: string, rest: string)
    requires |major| > 0 && AllDigits(major)
    requires |minor| > 0 && AllDigits(minor)
    ensures MatchRelease(ReleaseTail(major, minor, rest)) == Some(Version(Decimal(major), Decimal(minor)))
  {
    var u := minor + (Zip + rest);
    var s := major + ("." + u);
    assert ReleaseTail(major, minor, rest)[1..] == s;
    DigitRunBefore(major, "." + u);
    assert s[..|major|] == major;
    assert s[|major| + 1..] == u;
    DigitRunBefore(minor, Zip + rest);
    assert u[..|minor|] == minor;
    assert u[|minor|..] == Zip + rest;
  }

  /** A tail whose dash is followed by a digit cannot take the `-Linux` branch. */
  lemma UnqualifiedTail(t: string)
    requires |t| > 1 && IsDigit(t[1])
    ensures MatchQualified(t) == MatchRelease(t)
  {
    assert Linux[1] == 'L';
  }

  /** After the prefix, a `-Linux-major.minor.zip…` or `-major.minor.zip…` tail matches. */
  lemma MatchQualifiedOf(linux: bool, major: string, minor: string, rest: string)
    requires |major| > 0 && AllDigits(major)
    requires |minor| > 0 && AllDigits(minor)
    ensures MatchQualified(QualifiedTail(linux, major, minor, rest)) == Some(Version(Decimal(major), Decimal(minor)))
  {
    var tail := ReleaseTail(major, minor, rest);
    MatchReleaseOf(major, minor, rest);
    if linux {
      assert (Linux + tail)[|Linux|..] == tail;
    } else {
      assert QualifiedTail(linux, major, minor, rest) == tail;
      UnqualifiedTail(tail);
    }
  }

  /**
   Completeness: every name of the shape `Shaped` describes matches the
   pattern, whatever follows `.zip`, and the captured group is its
   `major.minor` pair.
   */
  lemma MatchComplete(name: string, prefix: string, linux: bool, major: string, minor: string, rest: string)
    requires Shaped(name, prefix, linux, major, minor, rest)
    ensures Match(name) == Some(Version(Decimal(major), Decimal(minor)))
  {
    var t := QualifiedTail(linux, major, minor, rest);
    assert t[0] == '-';
    NonDashRunAfter(prefix, t);
    assert name[|prefix|..] == t;
    MatchQualifiedOf(linux, major, minor, rest);
  }

  /** The decomposition of a tail that `MatchRelease` accepts. */
  lemma MatchReleaseSound(t: string) returns (major: string, minor: string, rest: string)
    requires MatchRelease(t).Some?
    ensures |major| > 0 && AllDigits(major)
    ensures |minor| > 0 && AllDigits(minor)
    ensures t == ReleaseTail(major, minor, rest)
    ensures MatchRelease(t) == Some(Version(Decimal(major), Decimal(minor)))
  {
    var s := t[1..];
    var m := DigitRun(s);
    var u := s[m + 1..];
    var k := DigitRun(u);
    major, minor, rest := s[..m], u[..k], u[k + |Zip|..];
    ReleaseTailOfSplit(t, m, k);
  }

  /** Reassembles a tail from the cut points `MatchRelease` finds in it. */
  lemma ReleaseTailOfSplit(t: string, m: nat, k: nat)
    requires |t| > 0 && t[0] == '-'
    requires m < |t[1..]| && t[1..][m] == '.'
    requires k <= |t[1..][m + 1..]| && Zip <= t[1..][m + 1..][k..]
    ensures t == ReleaseTail(t[1..][..m], t[1..][m + 1..][..k], t[1..][m + 1..][k + |Zip|..])
  {
    var s := t[1..];
    var u := s[m + 1..];
    var rest := u[k + |Zip|..];
    assert u[k..] == Zip + rest;
    assert u == u[..k] + (Zip + rest);
    assert s[m..] == "." + u;
    assert s == s[..m] + ("." + u);
    assert t == "-" + s;
  }

  /** The decomposition of a tail that `MatchQualified` accepts. */
  lemma MatchQualifiedSound(t: string) returns (linux: bool, major: string, minor: string, rest: string)
    requires MatchQualified(t).Some?
    ensures |major| > 0 && AllDigits(major)
    ensures |minor| > 0 && AllDigits(minor)
    ensures t == QualifiedTail(linux, major, minor, rest)
    ensures MatchQualified(t) == Some(Version(Decimal(major), Decimal(minor)))
  {
    if Linux <= t && MatchRelease(t[|Linux|..]).Some? {
      linux := true;
      major, minor, rest := MatchReleaseSound(t[|Linux|..]);
      assert t == Linux + t[|Linux|..];
    } else {
      linux := false;
      major, minor, rest := MatchReleaseSound(t);
    }
  }

  /** The decomposition of a name the pattern matches. */
  lemma MatchDecomposes(name: string) returns (prefix: string, linux: bool, major: string, minor: string, rest: string)
    requires Match(name).Some?
    ensures Shaped(name, prefix, linux, major, minor, rest)
    ensures Match(name) == Some(Version(Decimal(major), Decimal(minor)))
  {
    var p := NonDashRun(name);
    linux, major, minor, rest := MatchQualifiedSound(name[p..]);
    prefix := name[..p];
    ShapedOfSplit(name, p, linux, major, minor, rest);
  }

  lemma ShapedOfSplit(name: string, p: nat, linux: bool, major: string, minor: string, rest: string)
    requires p <= |name| && '-' !in name[..p]
    requires |major| > 0 && AllDigits(major)
    requires |minor| > 0 && AllDigits(minor)
    requires name[p..] == QualifiedTail(linux, major, minor, rest)
    ensures Shaped(name, name[..p], linux, major, minor, rest)
  {
    assert name == name[..p] + name[p..];
  }

  /**
   Soundness: a name the pattern matches has the shape `Shaped` describes,
   and the captured version is read from its digit runs.
   */
  lemma MatchSound(name: string)
    ensures Match(name).Some? ==>
              exists prefix, linux, major, minor, rest ::
                Shaped(name, prefix, linux, major, minor, rest)
                && Match(name).value == Version(Decimal(major), Decimal(minor))
  {
    if Match(name).Some? {
      var prefix, linux, major, minor, rest := MatchDecomposes(name);
    }
  }

  lemma DecimalExamples()
    ensures Decimal("9") == 9 && Decimal("11") == 11
    ensures Decimal("280") == 280 && Decimal("300") == 300
    ensures Decimal("10") == 10 && Decimal("290") == 290
  {
    assert "10"[..1] == "1" && "1"[..0] == "";
    assert "290"[..2] == "29" && "29"[..1] == "2" && "2"[..0] == "";
    assert "9"[..0] == "";
    assert "11"[..1] == "1" && "1"[..0] == "";
    assert "280"[..2] == "28" && "28"[..1] == "2" && "2"[..0] == "";
    assert "300"[..2] == "30" && "30"[..1] == "3" && "3"[..0] == "";
  }

  /** The archive name of a release without platform qualifier matches. */
  lemma MatchesPlainName()
    ensures Match("FoundryVTT-9.280.zip") == Some(Version(9, 280))
  {
    DecimalExamples();
    assert '-' !in "FoundryVTT" && AllDigits("280");
    assert QualifiedTail(false, "9", "280", "") == "-9.280.zip";
    assert "FoundryVTT-9.280.zip" == "FoundryVTT" + "-9.280.zip";
    MatchComplete("FoundryVTT-9.280.zip", "FoundryVTT", false, "9", "280", "");
  }

  /** The archive name of a Linux release matches, and the qualifier is not part of the version. */
  lemma MatchesLinuxName()
    ensures Match("FoundryVTT-Linux-11.300.zip") == Some(Version(11, 300))
  {
    DecimalExamples();
    assert '-' !in "FoundryVTT" && AllDigits("11") && AllDigits("300");
    assert QualifiedTail(true, "11", "300", "") == "-Linux-11.300.zip";
    assert "FoundryVTT-Linux-11.300.zip" == "FoundryVTT" + "-Linux-11.300.zip";
    MatchComplete("FoundryVTT-Linux-11.300.zip", "FoundryVTT", true, "11", "300", "");
  }

  /** The pattern goes on after the dash-free prefix of the name. */
  lemma MatchAfterPrefix(prefix: string, t: string)
    requires '-' !in prefix
    requires |t| > 0 && t[0] == '-'
    ensures Match(prefix + t) == MatchQualified(t)
  {
    NonDashRunAfter(prefix, t);
    assert (prefix + t)[|prefix|..] == t;
  }

  lemma PatchTailRejected()
    ensures MatchRelease("-1.2.3.zip") == None
  {
    var s := "-1.2.3.zip"[1..];
    assert s == "1" + ".2.3.zip";
    DigitRunBefore("1", ".2.3.zip");
    var u := s[2..];
    assert u == "2" + ".3.zip";
    DigitRunBefore("2", ".3.zip");
    assert u[1..][1] == '3' != Zip[1];
  }

  /** A third version component does not match: `.group(1)` would be called on `None`. */
  lemma RejectsPatchComponent()
    ensures Match("FoundryVTT-1.2.3.zip") == None
  {
    var t := "-1.2.3.zip";
    assert "FoundryVTT-1.2.3.zip" == "FoundryVTT" + t;
    MatchAfterPrefix("FoundryVTT", t);
    UnqualifiedTail(t);
    PatchTailRejected();
  }

  /**
   A tail whose dash is followed by something other than a digit, and which
   does not start with `-Linux-`, cannot match: the `-Linux` branch fails
   for want of the second dash, and the plain branch for want of a digit.
   */
  lemma UnknownQualifierRejected(t: string)
    requires |t| > 1 && t[0] == '-' && !IsDigit(t[1]) && !(Linux + "-" <= t)
    ensures MatchQualified(t) == None
  {
    assert t[1..][0] == t[1];
    if Linux <= t {
      assert |t| == |Linux| || t[|Linux|] != '-';
    }
  }

  /** After a dash-free prefix, any qualifier other than `Linux` makes the name unmatched. */
  lemma RejectsUnknownQualifier(prefix: string, t: string)
    requires '-' !in prefix
    requires |t| > 1 && t[0] == '-' && !IsDigit(t[1]) && !(Linux + "-" <= t)
    ensures Match(prefix + t) == None
  {
    MatchAfterPrefix(prefix, t);
    UnknownQualifierRejected(t);
  }

  /** A qualifier other than `Linux` does not match either. */
  lemma RejectsOtherQualifier()
    ensures Match("FoundryVTT-Beta-1.2.zip") == None
  {
    var t := "-Beta-1.2.zip";
    assert "FoundryVTT-Beta-1.2.zip" == "FoundryVTT" + t;
    assert t[1] != (Linux + "-")[1];
    RejectsUnknownQualifier("FoundryVTT", t);
  }

  /** A qualifier that shares only its first letter with `Linux` does not match. */
  lemma RejectsLiteQualifier()
    ensures Match("FoundryVTT-Lite-1.2.zip") == None
  {
    var t := "-Lite-1.2.zip";
    assert "FoundryVTT-Lite-1.2.zip" == "FoundryVTT" + t;
    assert t[3] != (Linux + "-")[3];
    RejectsUnknownQualifier("FoundryVTT", t);
  }

  /** A qualifier that extends `Linux` does not match: `-Linux` must be followed by a dash. */
  lemma RejectsLinuxyQualifier()
    ensures Match("FoundryVTT-Linuxy-1.2.zip") == None
  {
    var t := "-Linuxy-1.2.zip";
    assert "FoundryVTT-Linuxy-1.2.zip" == "FoundryVTT" + t;
    assert t[6] != (Linux + "-")[6];
    RejectsUnknownQualifier("FoundryVTT", t);
  }
}
