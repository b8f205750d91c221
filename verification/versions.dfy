/**
 Release versions of the archives, as the two numeric components the file
 name pattern admits, and the order in which they are processed.
 */
module Versions {

  /** A `major.minor` release, each component a non-negative integer. */
  datatype Version = Version(major: nat, minor: nat)

  /** Numeric comparison, major component first: `9.280` is below `10.290`. */
  predicate Le(a: Version, b: Version) {
    a.major < b.major || (a.major == b.major && a.minor <= b.minor)
  }

  predicate Lt(a: Version, b: Version) {
    a.major < b.major || (a.major == b.major && a.minor < b.minor)
  }

  /**
   The release part of the comparison key of a packaging `Version`: the
   release tuple with its trailing zeros removed, so that `1.0` and `1` are
   equal. The other parts of that key (epoch, pre-, post-, dev- and local
   segments) are the same for every version the archive name pattern admits.
   */
  function ReleaseKey(v: Version): (key: seq<nat>)
    ensures |key| <= 2
    ensures key + seq(2 - |key|, _ => 0) == [v.major, v.minor]
    ensures |key| > 0 ==> key[|key| - 1] != 0
  {
    if v.minor != 0 then [v.major, v.minor]
    else if v.major != 0 then [v.major]
    else []
  }

  /** Python's `<` on tuples: the first differing component decides, and a proper prefix is smaller. */
  predicate TupleLt(a: seq<nat>, b: seq<nat>)
    decreases |a|
  {
    if |a| == 0 then |b| > 0
    else if |b| == 0 then false
    else if a[0] != b[0] then a[0] < b[0]
    else TupleLt(a[1..], b[1..])
  }

  /** `Version.__lt__` restricted to two-component releases. */
  predicate PackagingLt(a: Version, b: Version) {
    TupleLt(ReleaseKey(a), ReleaseKey(b))
  }

  /**
   For the releases the archive names admit, the packaging library's order
   is exactly the numeric pair order: stripping trailing zeros never changes
   the outcome of a comparison.
   */
  lemma PackagingOrderIsNumeric(a: Version, b: Version)
    ensures PackagingLt(a, b) <==> Lt(a, b)
  {
    var ka, kb := ReleaseKey(a), ReleaseKey(b);
    if |ka| > 0 && |kb| > 0 && ka[0] == kb[0] {
      assert TupleLt(ka, kb) == TupleLt(ka[1..], kb[1..]);
    }
  }

  /** `Le` is a total order on versions. */
  lemma LeIsTotalOrder(a: Version, b: Version, c: Version)
    ensures Le(a, a)
    ensures Le(a, b) && Le(b, a) ==> a == b
    ensures Le(a, b) && Le(b, c) ==> Le(a, c)
    ensures Le(a, b) || Le(b, a)
    ensures Lt(a, b) <==> Le(a, b) && a != b
  {
  }
}
