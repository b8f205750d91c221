/**
 The stage-ahead-by-one schedule of `get_foundry_versions` and its consumer
 in `main`, as the sequence of actions they perform on the sorted archives
 0, 1, …, n-1. Copies, temporary directories and the worker thread are
 abstract: each action is one event of the trace.
 */
module Pipeline {
  import opened Wrappers

  datatype Event =
    | Submit(i: nat)      // create the temporary directory of archive i and submit its copy
    | Await(i: nat)       // wait for the copy of archive i; it completed
    | CopyFailed(i: nat)  // wait for the copy of archive i; it raised, ending the generator
    | Yield(i: nat)       // hand the directory of archive i to the consumer
    | Update(i: nat)      // the consumer runs the update script on that directory
    | Release(i: nat)     // the consumer's `with` block ends: the directory is deleted

  /** What happens to an archive once its copy is awaited, up to the consumer's release. */
  function Handout(j: nat, fault: Option<nat>): seq<Event> {
    if fault == Some(j) then [CopyFailed(j)]
    else [Await(j), Yield(j), Update(j), Release(j)]
  }

  /**
   The loop of `get_foundry_versions` from iteration `i` on, `prev` holding
   the archive submitted in the previous iteration; once the archives are
   exhausted, the tail flushes `prev`. `fault` names the archive whose copy
   fails, if any: awaiting it raises and nothing follows.
   */
  function Generate(i: nat, n: nat, prev: Option<nat>, fault: Option<nat>): seq<Event>
    decreases n - i
  {
    if i < n then
      match prev
      case None => [Submit(i)] + Generate(i + 1, n, Some(i), fault)
      case Some(j) =>
        if fault == Some(j) then [Submit(i)] + Handout(j, fault)
        else [Submit(i)] + Handout(j, fault) + Generate(i + 1, n, Some(i), fault)
    else
      match prev
      case None => []
      case Some(j) => Handout(j, fault)
  }

  /** The whole run over `n` sorted archives. */
  function Trace(n: nat, fault: Option<nat>): seq<Event> {
    Generate(0, n, None, fault)
  }

  /** A run in which every copy succeeds. */
  function Run(n: nat): seq<Event> {
    Trace(n, None)
  }

  /** The events a fault-free run over `n` archives performs: one of each kind per archive. */
  predicate Scheduled(n: nat, e: Event) {
    !e.CopyFailed? && e.i < n
  }

  /**
   Where each event of a fault-free run over `n` archives sits: archive 0 is
   submitted first; each later submission is followed by the hand-out of
   its predecessor, five events per archive; the last archive's hand-out
   follows the last submission directly.
   */
  function Pos(n: nat, e: Event): nat {
    var awaited := if e.i + 1 < n then 5 * e.i + 2 else 5 * e.i + 1;
    match e
    case Submit(i) => if i == 0 then 0 else 5 * i - 4
    case Await(_) => awaited
    case CopyFailed(_) => awaited
    case Yield(_) => awaited + 1
    case Update(_) => awaited + 2
    case Release(_) => awaited + 3
  }

  /** No two scheduled events share a position. */
  lemma PosIsInjective(n: nat, e: Event, f: Event)
    requires Scheduled(n, e) && Scheduled(n, f)
    requires Pos(n, e) == Pos(n, f)
    ensures e == f
  {
  }

  /** The part of a fault-free run that begins with iteration `i >= 1`. */
  lemma {:induction false} GenerateAt(i: nat, n: nat, k: nat)
    requires 1 <= i <= n
    ensures |Generate(i, n, Some(i - 1), None)| == 5 * (n - i) + 4
    ensures k < 5 * (n - i) + 4 ==>
              var e := Generate(i, n, Some(i - 1), None)[k];
              Scheduled(n, e) && Pos(n, e) == 5 * i - 4 + k
    decreases n - i
  {
    if i < n {
      var rest := Generate(i + 1, n, Some(i), None);
      GenerateAt(i + 1, n, if k >= 5 then k - 5 else 0);
      assert Generate(i, n, Some(i - 1), None) == [Submit(i)] + Handout(i - 1, None) + rest;
    }
  }

  /**
   The trace of a fault-free run, completely: it has five events per
   archive, and position `p` holds event `e` exactly when `e` is one of the
   scheduled events and `p` is its position.
   */
  lemma RunAt(n: nat, p: nat, e: Event)
    ensures |Run(n)| == 5 * n
    ensures p < |Run(n)| ==> (Run(n)[p] == e <==> Scheduled(n, e) && Pos(n, e) == p)
  {
    if n > 0 {
      assert Run(n) == [Submit(0)] + Generate(1, n, Some(0), None);
      GenerateAt(1, n, if p >= 1 then p - 1 else 0);
      if p < |Run(n)| && Scheduled(n, e) && Pos(n, e) == p {
        PosIsInjective(n, e, Run(n)[p]);
      }
    }
  }

  /** An event occurs in the first `m` events of a fault-free run exactly when it is scheduled before position `m`. */
  lemma InRunPrefix(n: nat, m: nat, e: Event)
    requires m <= |Run(n)|
    ensures e in Run(n)[..m] <==> Scheduled(n, e) && Pos(n, e) < m
  {
    RunAt(n, Pos(n, e), e);
    if e in Run(n)[..m] {
      var p :| 0 <= p < m && Run(n)[..m][p] == e;
      RunAt(n, p, e);
    }
  }

  /**
   A fault-free run performs every action on every archive exactly once,
   and nothing on archives that do not exist; with no archives it performs
   nothing at all.
   */
  lemma EachEventOnce(n: nat, e: Event)
    ensures Scheduled(n, e) ==> Pos(n, e) < |Run(n)| && Run(n)[Pos(n, e)] == e
    ensures forall p :: 0 <= p < |Run(n)| && Run(n)[p] == e ==> Scheduled(n, e) && p == Pos(n, e)
    ensures n == 0 ==> Run(n) == []
  {
    RunAt(n, Pos(n, e), e);
    forall p | 0 <= p < |Run(n)| && Run(n)[p] == e
      ensures Scheduled(n, e) && p == Pos(n, e)
    {
      RunAt(n, p, e);
    }
  }

  /**
   The look-ahead by one: the copy of archive i+1 is submitted before the
   directory of archive i is handed to the consumer.
   */
  lemma SubmitsNextBeforeYield(n: nat, i: nat)
    requires i + 1 < n
    ensures Submit(i + 1) in Run(n) && Yield(i) in Run(n)
    ensures forall p, q :: 0 <= p < |Run(n)| && 0 <= q < |Run(n)| && Run(n)[p] == Submit(i + 1) && Run(n)[q] == Yield(i) ==> p < q
  {
    EachEventOnce(n, Submit(i + 1));
    EachEventOnce(n, Yield(i));
  }

  /**
   No directory is handed out before its copy completed: every `Yield(i)`
   comes immediately after `Await(i)`.
   */
  lemma AwaitsBeforeYield(n: nat, q: nat)
    requires q < |Run(n)| && Run(n)[q].Yield?
    ensures q > 0 && Run(n)[q - 1] == Await(Run(n)[q].i)
  {
    var i := Run(n)[q].i;
    EachEventOnce(n, Yield(i));
    EachEventOnce(n, Await(i));
  }

  /**
   The life of one staged directory: created and submitted, copied, handed
   out, used by the update script, and deleted, in that order.
   */
  lemma LifecycleInOrder(n: nat, i: nat)
    requires i < n
    ensures Pos(n, Submit(i)) < Pos(n, Await(i)) < Pos(n, Yield(i)) < Pos(n, Update(i)) < Pos(n, Release(i)) < |Run(n)|
    ensures Run(n)[Pos(n, Submit(i))] == Submit(i) && Run(n)[Pos(n, Await(i))] == Await(i)
    ensures Run(n)[Pos(n, Yield(i))] == Yield(i) && Run(n)[Pos(n, Update(i))] == Update(i)
    ensures Run(n)[Pos(n, Release(i))] == Release(i)
  {
    EachEventOnce(n, Submit(i));
    EachEventOnce(n, Await(i));
    EachEventOnce(n, Yield(i));
    EachEventOnce(n, Update(i));
    EachEventOnce(n, Release(i));
  }

  /** The archives whose directories a trace hands to the consumer, in hand-out order. */
  function Handed(t: seq<Event>): seq<nat> {
    if |t| == 0 then []
    else (if t[0].Yield? then [t[0].i] else []) + Handed(t[1..])
  }

  lemma {:induction false} HandedAppend(a: seq<Event>, b: seq<Event>)
    ensures Handed(a + b) == Handed(a) + Handed(b)
  {
    if |a| == 0 {
      assert a + b == b;
    } else {
      assert (a + b)[1..] == a[1..] + b;
      HandedAppend(a[1..], b);
      var head := if a[0].Yield? then [a[0].i] else [];
      assert Handed(a + b) == head + (Handed(a[1..]) + Handed(b));
      assert head + (Handed(a[1..]) + Handed(b)) == (head + Handed(a[1..])) + Handed(b);
    }
  }

  /** The archives `lo`, `lo + 1`, …, `hi - 1`. */
  function Interval(lo: nat, hi: nat): (r: seq<nat>)
    ensures |r| == if lo <= hi then hi - lo else 0
    ensures forall k :: 0 <= k < |r| ==> r[k] == lo + k
    decreases hi - lo
  {
    if lo < hi then [lo] + Interval(lo + 1, hi) else []
  }

  lemma HandoutHandsOne(j: nat)
    ensures Handed(Handout(j, None)) == [j]
  {
    var h := Handout(j, None);
    assert h[1..][1..][1..][1..] == [];
    assert Handed(h[1..][1..][1..]) == [];
    assert Handed(h[1..][1..]) == [];
    assert Handed(h[1..]) == [j];
  }

  lemma {:induction false} GenerateHands(i: nat, n: nat)
    requires 1 <= i <= n
    ensures Handed(Generate(i, n, Some(i - 1), None)) == Interval(i - 1, n)
    decreases n - i
  {
    var handout := Handout(i - 1, None);
    HandoutHandsOne(i - 1);
    if i < n {
      GenerateHands(i + 1, n);
      HandedAppend([Submit(i)] + handout, Generate(i + 1, n, Some(i), None));
      HandedAppend([Submit(i)], handout);
    }
  }

  /**
   The generator yields exactly one staged directory per archive, in sorted
   order; with no archives it yields nothing.
   */
  lemma HandsOutEachArchiveInOrder(n: nat)
    ensures Handed(Run(n)) == Interval(0, n)
  {
    if n > 0 {
      GenerateHands(1, n);
      HandedAppend([Submit(0)], Generate(1, n, Some(0), None));
    }
  }

  /** The archives whose temporary directory a trace has created. */
  function Submitted(t: seq<Event>): set<nat> {
    set e | e in t && e.Submit? :: e.i
  }

  /** The archives whose temporary directory a trace has deleted. */
  function Released(t: seq<Event>): set<nat> {
    set e | e in t && e.Release? :: e.i
  }

  /** The staged directories that exist after a trace: created and not yet deleted. */
  function Staged(t: seq<Event>): set<nat> {
    Submitted(t) - Released(t)
  }

  lemma StagedMembers(t: seq<Event>, i: nat)
    ensures i in Submitted(t) <==> Submit(i) in t
    ensures i in Released(t) <==> Release(i) in t
  {
    if Submit(i) in t {
      assert Submit(i).i == i;
    }
    if Release(i) in t {
      assert Release(i).i == i;
    }
  }

  lemma SubsetOfPairIsSmall(s: set<nat>, lo: nat)
    requires s <= {lo, lo + 1}
    ensures |s| <= 2
  {
    var pair := {lo, lo + 1};
    assert |pair| == 2;
    assert pair == s + (pair - s);
  }

  /**
   At most two staged directories exist at any point of a fault-free run,
   counting every directory created and not yet deleted.
   */
  lemma AtMostTwoStaged(n: nat, m: nat)
    requires m <= |Run(n)|
    ensures |Staged(Run(n)[..m])| <= 2
  {
    var prefix := Run(n)[..m];
    var lo: nat := if m % 5 == 0 && m >= 5 then m / 5 - 1 else m / 5;
    forall i | i in Staged(prefix)
      ensures i == lo || i == lo + 1
    {
      StagedMembers(prefix, i);
      InRunPrefix(n, m, Submit(i));
      InRunPrefix(n, m, Release(i));
    }
    SubsetOfPairIsSmall(Staged(prefix), lo);
  }

  /** The bound is reached: with two archives or more, both first directories exist at once. */
  lemma TwoStagedAtOnce(n: nat)
    requires n >= 2
    ensures |Run(n)| >= 2 && |Staged(Run(n)[..2])| == 2
  {
    RunAt(n, 0, Submit(0));
    assert Staged(Run(n)[..2]) == {0, 1} by {
      forall i: nat
        ensures i in Staged(Run(n)[..2]) <==> i in {0, 1}
      {
        StagedMembers(Run(n)[..2], i);
        InRunPrefix(n, 2, Submit(i));
        InRunPrefix(n, 2, Release(i));
      }
    }
  }

  /** The archives below `n`. */
  function Archives(n: nat): (r: set<nat>)
    ensures forall i: nat :: i in r <==> i < n
  {
    var r := set i | i in Interval(0, n);
    assert forall i: nat :: i in r <==> i < n by {
      forall i: nat
        ensures i in r <==> i < n
      {
        if i < n {
          assert Interval(0, n)[i] == i;
        }
        if i in Interval(0, n) {
          var k :| 0 <= k < |Interval(0, n)| && Interval(0, n)[k] == i;
        }
      }
    }
    r
  }

  /**
   After a fault-free run every directory that was created has been
   deleted, and one was created for every archive.
   */
  lemma AllReleased(n: nat)
    ensures Submitted(Run(n)) == Released(Run(n)) == Archives(n)
    ensures Staged(Run(n)) == {}
  {
    RunAt(n, 0, Submit(0));
    assert Run(n)[..|Run(n)|] == Run(n);
    forall i: nat
      ensures i in Submitted(Run(n)) <==> i < n
      ensures i in Released(Run(n)) <==> i < n
    {
      StagedMembers(Run(n), i);
      InRunPrefix(n, |Run(n)|, Submit(i));
      InRunPrefix(n, |Run(n)|, Release(i));
    }
  }

  /**
   A consumer that stops after the directory of archive j is deleted has
   caused at most one directory more than it consumed: those of archives
   0 to j+1.
   */
  lemma EarlyStopStagesOneAhead(n: nat, j: nat)
    requires j < n
    ensures Pos(n, Release(j)) < |Run(n)|
    ensures Submitted(Run(n)[..Pos(n, Release(j)) + 1]) == Archives(if j + 2 <= n then j + 2 else n)
    ensures Staged(Run(n)[..Pos(n, Release(j)) + 1]) == if j + 1 < n then {j + 1} else {}
  {
    EachEventOnce(n, Release(j));
    var m := Pos(n, Release(j)) + 1;
    forall i: nat
      ensures i in Submitted(Run(n)[..m]) <==> i <= j + 1 && i < n
      ensures i in Released(Run(n)[..m]) <==> i <= j
    {
      StagedMembers(Run(n)[..m], i);
      InRunPrefix(n, m, Submit(i));
      InRunPrefix(n, m, Release(i));
    }
  }

  lemma {:induction false} GenerateWithFault(i: nat, n: nat, k: nat)
    requires 1 <= i <= k + 1 <= n
    ensures Pos(n, Await(k)) - (5 * i - 4) < |Generate(i, n, Some(i - 1), None)|
    ensures Generate(i, n, Some(i - 1), Some(k))
            == Generate(i, n, Some(i - 1), None)[..Pos(n, Await(k)) - (5 * i - 4)] + [CopyFailed(k)]
    decreases n - i
  {
    GenerateAt(i, n, 0);
    if i < n && k != i - 1 {
      GenerateWithFault(i + 1, n, k);
      var head := [Submit(i)] + Handout(i - 1, None);
      assert Handout(i - 1, Some(k)) == Handout(i - 1, None);
      var rest := Generate(i + 1, n, Some(i), None);
      var cut := Pos(n, Await(k)) - (5 * (i + 1) - 4);
      assert (head + rest)[..|head| + cut] == head + rest[..cut];
    }
  }

  lemma {:induction false} GenerateWithoutFault(i: nat, n: nat, prev: Option<nat>, k: nat)
    requires n <= k
    requires prev.Some? ==> prev.value < n
    ensures Generate(i, n, prev, Some(k)) == Generate(i, n, prev, None)
    decreases n - i
  {
    if i < n {
      GenerateWithoutFault(i + 1, n, Some(i), k);
    }
  }

  /**
   When the copy of archive k fails, the run is the fault-free run cut off
   where archive k would have been awaited, followed by the failed await; a
   fault named for an archive that does not exist changes nothing.
   */
  lemma FaultTruncatesRun(n: nat, k: nat)
    ensures k < n ==> Pos(n, Await(k)) < |Run(n)|
    ensures Trace(n, Some(k)) == if k < n then Run(n)[..Pos(n, Await(k))] + [CopyFailed(k)] else Run(n)
  {
    if k < n {
      GenerateWithFault(1, n, k);
      var rest := Generate(1, n, Some(0), None);
      assert Run(n) == [Submit(0)] + rest;
      assert ([Submit(0)] + rest)[..Pos(n, Await(k))] == [Submit(0)] + rest[..Pos(n, Await(k)) - 1];
    } else {
      GenerateWithoutFault(0, n, None, k);
    }
  }

  /**
   A failed copy of archive k ends the run: the directories of the archives
   before k were handed out and deleted, none after; the copy of archive
   k+1 had already been submitted, and the directories of k and k+1 are
   left to the generator's cleanup on disposal.
   */
  lemma FaultStopsHandouts(n: nat, k: nat, j: nat)
    requires k < n
    ensures Yield(j) in Trace(n, Some(k)) <==> j < k
    ensures Submit(j) in Trace(n, Some(k)) <==> j <= k + 1 && j < n
    ensures Release(j) in Trace(n, Some(k)) <==> j < k
    ensures Trace(n, Some(k))[|Trace(n, Some(k))| - 1] == CopyFailed(k)
  {
    FaultTruncatesRun(n, k);
    InRunPrefix(n, Pos(n, Await(k)), Yield(j));
    InRunPrefix(n, Pos(n, Await(k)), Submit(j));
    InRunPrefix(n, Pos(n, Await(k)), Release(j));
  }

  /** The directories still staged when a copy fails: those of archives k and k+1. */
  lemma FaultLeavesTwoStaged(n: nat, k: nat)
    requires k < n
    ensures Staged(Trace(n, Some(k))) == Archives(if k + 2 <= n then k + 2 else n) - Archives(k)
  {
    forall j: nat
      ensures j in Submitted(Trace(n, Some(k))) <==> j <= k + 1 && j < n
      ensures j in Released(Trace(n, Some(k))) <==> j < k
    {
      StagedMembers(Trace(n, Some(k)), j);
      FaultStopsHandouts(n, k, j);
    }
  }
  /** When the last archive's copy fails, in the tail flush, only its own directory remains. */
  lemma LastFaultLeavesOne(n: nat)
    requires n > 0
    ensures Staged(Trace(n, Some(n - 1))) == {n - 1}
  {
    FaultLeavesTwoStaged(n, n - 1);
    var left := Staged(Trace(n, Some(n - 1)));
    forall j: nat
      ensures j in left <==> j == n - 1
    {
    }
  }

}
