/// The derived-from queries on classes.

module Derivation {
  import opened Hierarchy
  import opened BasePathSearch
  import opened SubobjectCounting

  /** `p` leads from `c` down to `b` by at least one step. */
  ghost predicate LeadsTo(h: Lattice, c: nat, b: nat, p: seq<nat>)
    requires c < |h|
  {
    IsPath(h, c, p) && p != [] && End(h, c, p) == b
  }

  /** The same, and the last step is a virtual one. */
  ghost predicate LeadsVirtuallyTo(h: Lattice, c: nat, b: nat, p: seq<nat>)
    requires c < |h|
  {
    IsPath(h, c, p) && p != [] && End(h, c, p) == b && LastEdge(h, c, p).isVirtual
  }

  lemma {:induction false} DerivesIsReachability(h: Lattice, c: nat, b: nat)
    requires c < |h|
    ensures Derives(h, c, b) <==> exists p :: LeadsTo(h, c, b, p)
    ensures VirtuallyDerives(h, c, b) <==> exists p :: LeadsVirtuallyTo(h, c, b, p)
  {
    if Derives(h, c, b) {
      var p := MatchPath(h, ToClass(b), c);
      assert LeadsTo(h, c, b, p);
    }
    forall p | LeadsTo(h, c, b, p)
      ensures Derives(h, c, b)
    {
      PathMatches(h, ToClass(b), c, p);
    }
    if VirtuallyDerives(h, c, b) {
      var p := MatchPath(h, VirtuallyTo(b), c);
      assert LeadsVirtuallyTo(h, c, b, p);
    }
    forall p | LeadsVirtuallyTo(h, c, b, p)
      ensures VirtuallyDerives(h, c, b)
    {
      PathMatches(h, VirtuallyTo(b), c, p);
    }
  }

  method IsDerivedFrom(h: Lattice, c: nat, b: nat) returns (r: bool)
    requires c < |h| && b < |h|
    ensures r <==> Derives(h, c, b)
    ensures r <==> exists p :: LeadsTo(h, c, b, p)
  {
    DerivesIsReachability(h, c, b);
    if c == b {
      if Derives(h, c, b) {
        DerivesBelow(h, c, b);
      }
      return false;
    }
    var paths := new BasePaths(false, false);
    r := paths.LookupInBases(h, ToClass(b), c);
    SearchIsExact(h, ToClass(b), paths.mode, c);
  }

  /** The number of virtual bases of a class, direct or indirect. */
  function NumVBases(h: Lattice, c: nat): nat
    requires c < |h|
  {
    |VBases(h, c)|
  }

  method IsVirtuallyDerivedFrom(h: Lattice, c: nat, b: nat) returns (r: bool)
    requires c < |h| && b < |h|
    ensures r <==> VirtuallyDerives(h, c, b)
    ensures r <==> exists p :: LeadsVirtuallyTo(h, c, b, p)
  {
    DerivesIsReachability(h, c, b);
    VBaseIsVirtuallyDerived(h, c, b);
    if IsVBase(h, c, b) {
      VBaseBelow(h, c, b);
      assert b in VBases(h, c);
    }
    if NumVBases(h, c) == 0 {
      return false;
    }
    var paths := new BasePaths(false, false);
    if c == b {
      return false;
    }
    r := paths.LookupInBases(h, VirtuallyTo(b), c);
    SearchIsExact(h, VirtuallyTo(b), paths.mode, c);
  }

  // ---------- The worklist over all bases ----------

  /** Which base specifiers name a class that can be examined: specifier `i` of class `c` has a
      definition, and is not a dependent type other than the current instantiation. */
  type Known = (nat, nat) -> bool

  /** Every base specifier below `c` is examinable and its class satisfies `good`. */
  predicate AllBases(h: Lattice, known: Known, good: nat -> bool, c: nat)
    requires c < |h|
    decreases c
  {
    forall i :: 0 <= i < |h[c]| ==>
      known(c, i) && good(h[c][i].cls) && AllBases(h, known, good, h[c][i].cls)
  }

  /** How many classes the worklist visits below and including `c`: there is no record of visited
      classes, so a class is visited once for every path to it. */
  ghost function Visits(h: Lattice, c: nat): nat
    requires c < |h|
    decreases c, |h[c]| + 1
  {
    1 + VisitsUpTo(h, c, |h[c]|)
  }

  ghost function VisitsUpTo(h: Lattice, c: nat, n: nat): nat
    requires c < |h| && n <= |h[c]|
    decreases c, n
  {
    if n == 0 then 0 else VisitsUpTo(h, c, n - 1) + Visits(h, h[c][n - 1].cls)
  }

  ghost predicate InRange(h: Lattice, queue: seq<nat>) {
    forall k :: 0 <= k < |queue| ==> queue[k] < |h|
  }

  ghost function QueueVisits(h: Lattice, queue: seq<nat>): nat
    requires InRange(h, queue)
  {
    if queue == [] then 0
    else QueueVisits(h, queue[..|queue| - 1]) + Visits(h, queue[|queue| - 1])
  }

  ghost predicate AllQueued(h: Lattice, known: Known, good: nat -> bool, queue: seq<nat>)
    requires InRange(h, queue)
  {
    forall k :: 0 <= k < |queue| ==> AllBases(h, known, good, queue[k])
  }

  lemma AllQueuedPush(h: Lattice, known: Known, good: nat -> bool, queue: seq<nat>, d: nat)
    requires InRange(h, queue) && d < |h|
    ensures InRange(h, queue + [d])
    ensures AllQueued(h, known, good, queue + [d]) <==> AllQueued(h, known, good, queue) && AllBases(h, known, good, d)
    ensures QueueVisits(h, queue + [d]) == QueueVisits(h, queue) + Visits(h, d)
  {
    var longer := queue + [d];
    assert longer[..|longer| - 1] == queue && longer[|queue|] == d;
    assert forall k :: 0 <= k < |queue| ==> longer[k] == queue[k];
  }

  /** What `AllBases` asks of the first `n` bases. */
  ghost predicate AllBasesUpTo(h: Lattice, known: Known, good: nat -> bool, c: nat, n: nat)
    requires c < |h| && n <= |h[c]|
  {
    forall j :: 0 <= j < n ==> AllBases(h, known, good, h[c][j].cls)
  }

  ghost predicate KnownAndGood(h: Lattice, known: Known, good: nat -> bool, c: nat, n: nat)
    requires c < |h| && n <= |h[c]|
  {
    forall j :: 0 <= j < n ==> known(c, j) && good(h[c][j].cls)
  }

  /** The bases up to the `i`-th have been appended to `before`. */
  ghost predicate Pushed(h: Lattice, known: Known, good: nat -> bool, c: nat, i: nat, before: seq<nat>, queue: seq<nat>)
    requires c < |h| && i <= |h[c]| && InRange(h, before) && InRange(h, queue)
  {
    && QueueVisits(h, queue) == QueueVisits(h, before) + VisitsUpTo(h, c, i)
    && (AllQueued(h, known, good, queue) <==> AllQueued(h, known, good, before) && AllBasesUpTo(h, known, good, c, i))
  }

  lemma PushedNext(h: Lattice, known: Known, good: nat -> bool, c: nat, i: nat, before: seq<nat>, queue: seq<nat>)
    requires c < |h| && i < |h[c]| && InRange(h, before) && InRange(h, queue)
    requires Pushed(h, known, good, c, i, before, queue)
    ensures InRange(h, queue + [h[c][i].cls])
    ensures Pushed(h, known, good, c, i + 1, before, queue + [h[c][i].cls])
  {
    AllQueuedPush(h, known, good, queue, h[c][i].cls);
    assert AllBasesUpTo(h, known, good, c, i + 1) <==>
           AllBasesUpTo(h, known, good, c, i) && AllBases(h, known, good, h[c][i].cls);
  }

  /** Appends the bases of `record`, stopping at one that is not examinable or not good. */
  method PushBases(h: Lattice, known: Known, good: nat -> bool, record: nat, before: seq<nat>)
    returns (ok: bool, queue: seq<nat>)
    requires record < |h| && InRange(h, before)
    ensures InRange(h, queue)
    ensures ok <==> KnownAndGood(h, known, good, record, |h[record]|)
    ensures ok ==> QueueVisits(h, queue) + 1 == QueueVisits(h, before) + Visits(h, record)
    ensures ok ==>
      (AllQueued(h, known, good, queue) <==>
       AllQueued(h, known, good, before) && AllBases(h, known, good, record))
  {
    queue := before;
    for i := 0 to |h[record]|
      invariant InRange(h, queue) && KnownAndGood(h, known, good, record, i)
      invariant Pushed(h, known, good, record, i, before, queue)
    {
      if !known(record, i) {
        return false, queue;
      }
      PushedNext(h, known, good, record, i, before, queue);
      queue := queue + [h[record][i].cls];
      if !good(h[record][i].cls) {
        return false, queue;
      }
    }
    ok := true;
  }

  /** The worklist terminates and holds exactly when every base below `c` is examinable and good. */
  method ForallBases(h: Lattice, known: Known, good: nat -> bool, c: nat) returns (r: bool)
    requires c < |h|
    ensures r <==> AllBases(h, known, good, c)
  {
    var queue: seq<nat> := [];
    var record: nat := c;
    while true
      invariant record < |h| && InRange(h, queue)
      invariant AllBases(h, known, good, c) <==>
        AllBases(h, known, good, record) && AllQueued(h, known, good, queue)
      decreases QueueVisits(h, queue) + Visits(h, record)
    {
      var ok, longer := PushBases(h, known, good, record, queue);
      if !ok {
        return false;
      }
      queue := longer;
      if queue == [] {
        break;
      }
      var front, last := queue[..|queue| - 1], queue[|queue| - 1];
      AllQueuedPush(h, known, good, front, last);
      assert queue == front + [last];
      record, queue := last, front;
    }
    r := true;
  }

  /** `IsProvablyNotDerivedFrom` is exact on hierarchies whose bases are all examinable, and never
      wrong on any other. */
  method IsProvablyNotDerivedFrom(h: Lattice, known: Known, c: nat, b: nat) returns (r: bool)
    requires c < |h|
    ensures r ==> !Derives(h, c, b)
    ensures AllBases(h, known, (d: nat) => true, c) ==> (r <==> !Derives(h, c, b))
  {
    r := ForallBases(h, known, (d: nat) => d != b, c);
    AllBasesMeans(h, known, c, b);
  }

  lemma {:induction false} AllBasesMeans(h: Lattice, known: Known, c: nat, b: nat)
    requires c < |h|
    ensures AllBases(h, known, (d: nat) => d != b, c) <==>
            AllBases(h, known, (d: nat) => true, c) && !Derives(h, c, b)
    decreases c
  {
    forall i | 0 <= i < |h[c]|
      ensures AllBases(h, known, (d: nat) => d != b, h[c][i].cls) <==>
              AllBases(h, known, (d: nat) => true, h[c][i].cls) && !Derives(h, h[c][i].cls, b)
    {
      AllBasesMeans(h, known, h[c][i].cls, b);
    }
  }
}
