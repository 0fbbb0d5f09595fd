/// What the search finds and counts: which virtual bases it enters, when it succeeds, and why
/// its two counters give the number of distinct subobjects of the class searched for.

module SubobjectCounting {
  import opened Prelude
  import opened Hierarchy
  import opened BasePathSearch

  /** Some base specifier below `c` meets the criterion. */
  predicate MatchBelow(h: Lattice, m: Criterion, c: nat)
    requires c < |h|
    decreases c
  {
    exists i :: 0 <= i < |h[c]| && (Hits(m, h[c][i]) || MatchBelow(h, m, h[c][i].cls))
  }

  function ToClass(b: nat): Criterion {
    (cls: nat, isVirtual: bool) => cls == b
  }

  function VirtuallyTo(b: nat): Criterion {
    (cls: nat, isVirtual: bool) => isVirtual && cls == b
  }

  /** `b` is a direct or indirect base class of `c`. */
  predicate Derives(h: Lattice, c: nat, b: nat)
    requires c < |h|
  {
    MatchBelow(h, ToClass(b), c)
  }

  predicate VirtuallyDerives(h: Lattice, c: nat, b: nat)
    requires c < |h|
  {
    MatchBelow(h, VirtuallyTo(b), c)
  }

  lemma DerivesBelow(h: Lattice, c: nat, b: nat)
    requires c < |h| && Derives(h, c, b)
    ensures b < c
    decreases c
  {
    var i :| 0 <= i < |h[c]| && (Hits(ToClass(b), h[c][i]) || MatchBelow(h, ToClass(b), h[c][i].cls));
    if !Hits(ToClass(b), h[c][i]) {
      DerivesBelow(h, h[c][i].cls, b);
    }
  }

  // ---------- Closure of the set of virtual bases seen ----------

  /** Every virtual edge reached from `c` by non-virtual steps, none of which meets the criterion,
      leads into `vs`. */
  ghost predicate Closed(h: Lattice, m: Criterion, vs: set<nat>, c: nat)
    requires c < |h|
    decreases c
  {
    forall i :: 0 <= i < |h[c]| ==>
      (h[c][i].isVirtual ==> h[c][i].cls in vs) &&
      (!h[c][i].isVirtual && !Hits(m, h[c][i]) ==> Closed(h, m, vs, h[c][i].cls))
  }

  /** No base specifier reached from `c` by non-virtual steps meets the criterion. */
  ghost predicate NoMatch(h: Lattice, m: Criterion, c: nat)
    requires c < |h|
    decreases c
  {
    forall i :: 0 <= i < |h[c]| ==>
      !Hits(m, h[c][i]) && (!h[c][i].isVirtual ==> NoMatch(h, m, h[c][i].cls))
  }

  lemma {:induction false} ClosedGrows(h: Lattice, m: Criterion, us: set<nat>, vs: set<nat>, c: nat)
    requires c < |h| && us <= vs && Closed(h, m, us, c)
    ensures Closed(h, m, vs, c)
    decreases c
  {
    forall i | 0 <= i < |h[c]| && !h[c][i].isVirtual && !Hits(m, h[c][i])
      ensures Closed(h, m, vs, h[c][i].cls)
    {
      ClosedGrows(h, m, us, vs, h[c][i].cls);
    }
  }

  /** Bases `i` and later of `c` satisfy what `Closed` asks of each base. */
  ghost predicate ClosedFrom(h: Lattice, m: Criterion, vs: set<nat>, c: nat, i: nat)
    requires c < |h|
  {
    forall j :: i <= j < |h[c]| ==>
      (h[c][j].isVirtual ==> h[c][j].cls in vs) &&
      (!h[c][j].isVirtual && !Hits(m, h[c][j]) ==> Closed(h, m, vs, h[c][j].cls))
  }

  ghost predicate NoMatchFrom(h: Lattice, m: Criterion, c: nat, i: nat)
    requires c < |h|
  {
    forall j :: i <= j < |h[c]| ==>
      !Hits(m, h[c][j]) && (!h[c][j].isVirtual ==> NoMatch(h, m, h[c][j].cls))
  }

  /** The virtual bases seen between two states: all are virtual bases of `c`, and each is either
      a match itself or has all its own virtual bases among those seen. */
  ghost predicate SeenProperly(h: Lattice, m: Criterion, us: set<nat>, vs: set<nat>, c: nat)
    requires c < |h|
  {
    us <= vs &&
    forall v :: v in vs && v !in us ==> v < c && IsVBase(h, c, v) && (m(v, true) || Closed(h, m, vs, v))
  }

  ghost predicate NoneSeenMatches(h: Lattice, m: Criterion, us: set<nat>, vs: set<nat>)
  {
    forall v :: v in vs && v !in us && v < |h| ==> !m(v, true) && NoMatch(h, m, v)
  }

  lemma SeenBelowBase(h: Lattice, m: Criterion, us: set<nat>, vs: set<nat>, c: nat, i: nat)
    requires c < |h| && i < |h[c]| && SeenProperly(h, m, us, vs, h[c][i].cls)
    ensures SeenProperly(h, m, us, vs, c)
  {
  }

  lemma {:induction false} SeenThenSeen(h: Lattice, m: Criterion, us: set<nat>, vs: set<nat>, ws: set<nat>, c: nat)
    requires c < |h| && SeenProperly(h, m, us, vs, c) && SeenProperly(h, m, vs, ws, c)
    ensures SeenProperly(h, m, us, ws, c)
  {
    forall v | v in ws && v !in us
      ensures v < c && IsVBase(h, c, v) && (m(v, true) || Closed(h, m, ws, v))
    {
      if v in vs {
        assert v < c && IsVBase(h, c, v);
        if !m(v, true) {
          ClosedGrows(h, m, vs, ws, v);
        }
      }
    }
  }

  lemma EnterSees(h: Lattice, mode: Mode, st: State, c: nat, i: nat, access: Access, first: bool)
    requires c < |h| && i < |h[c]|
    ensures VirtSet(Enter(h, mode, st, c, i, access, first)) ==
            VirtSet(st) + if h[c][i].isVirtual then {h[c][i].cls} else {}
  {
  }

  /** What the visit of base `i` owes: the virtual bases it had to see went from `us` to `vs`, and if
      there was no `hit` there was nothing to find. */
  ghost predicate VisitCovers(h: Lattice, m: Criterion, us: set<nat>, vs: set<nat>, c: nat, i: nat, hit: bool)
    requires c < |h| && i < |h[c]|
  {
    var e := h[c][i];
    && SeenProperly(h, m, us, vs, c)
    && (e.isVirtual ==> e.cls in vs)
    && (!e.isVirtual && !Hits(m, e) ==> Closed(h, m, vs, e.cls))
    && (!hit ==> !Hits(m, e) && NoneSeenMatches(h, m, us, vs) && (!e.isVirtual ==> NoMatch(h, m, e.cls)))
  }

  /** The same for all bases from `i` on. */
  ghost predicate WalkCovers(h: Lattice, m: Criterion, us: set<nat>, vs: set<nat>, c: nat, i: nat, found: bool)
    requires c < |h|
  {
    && SeenProperly(h, m, us, vs, c)
    && ClosedFrom(h, m, vs, c, i)
    && (!found ==> NoMatchFrom(h, m, c, i) && NoneSeenMatches(h, m, us, vs))
  }

  lemma {:induction false} CoversNext(h: Lattice, m: Criterion, us: set<nat>, vs: set<nat>, ws: set<nat>, c: nat,
                                      i: nat,
                                      hit: bool, found: bool)
    requires c < |h| && i < |h[c]|
    requires VisitCovers(h, m, us, vs, c, i, hit) && WalkCovers(h, m, vs, ws, c, i + 1, found) && (hit ==> found)
    ensures WalkCovers(h, m, us, ws, c, i, found)
  {
    SeenThenSeen(h, m, us, vs, ws, c);
    if !h[c][i].isVirtual && !Hits(m, h[c][i]) {
      ClosedGrows(h, m, vs, ws, h[c][i].cls);
    }
  }

  lemma {:induction false} VisitSees(h: Lattice, m: Criterion, mode: Mode, st: State, c: nat, i: nat,
                                     access: Access, first: bool, v: Visited)
    requires c < |h| && i < |h[c]|
    requires v == Visit(h, m, mode, st, c, i, access, first) && !v.stop
    ensures VisitCovers(h, m, VirtSet(st), VirtSet(v.st), c, i, v.hit)
    decreases c, 0
  {
    var e := h[c][i];
    var entered := Enter(h, mode, st, c, i, access, first);
    EnterSees(h, mode, st, c, i, access, first);
    if Hits(m, e) {
      assert VirtSet(v.st) == VirtSet(entered);
    } else if !e.isVirtual || !CountOf(st.counts, e.cls).isVirt {
      var (below, hit) := Search(h, m, mode, entered, e.cls);
      assert VirtSet(v.st) == VirtSet(below);
      SearchSees(h, m, mode, entered, e.cls);
      SeenBelowBase(h, m, VirtSet(entered), VirtSet(below), c, i);
    } else {
      assert VirtSet(v.st) == VirtSet(entered) == VirtSet(st);
    }
  }

  /** Unless it stops at its first success, the search below `c` from base `i` on sees every virtual
      base it should, and when it reports nothing there was nothing to find. */
  lemma {:induction false} WalkSees(h: Lattice, m: Criterion, mode: Mode, st: State, c: nat, i: nat, found: bool,
                                    access: Access, first: bool, r: (State, bool))
    requires c < |h| && i <= |h[c]|
    requires r == Walk(h, m, mode, st, c, i, found, access, first)
    requires mode.findAmbiguities || !r.1
    ensures WalkCovers(h, m, VirtSet(st), VirtSet(r.0), c, i, r.1) && (found ==> r.1)
    decreases c, |h[c]| - i + 1
  {
    if i == |h[c]| {
      assert VirtSet(st.(access := access)) == VirtSet(st);
    } else {
      var v := Visit(h, m, mode, st, c, i, access, first);
      VisitSees(h, m, mode, st, c, i, access, first, v);
      WalkSees(h, m, mode, v.st, c, i + 1, found || v.hit, access, first, r);
      CoversNext(h, m, VirtSet(st), VirtSet(v.st), VirtSet(r.0), c, i, v.hit, r.1);
    }
  }

  lemma {:induction false} SearchSees(h: Lattice, m: Criterion, mode: Mode, st: State, c: nat)
    requires c < |h| && (mode.findAmbiguities || !Search(h, m, mode, st, c).1)
    ensures var r := Search(h, m, mode, st, c);
      && SeenProperly(h, m, VirtSet(st), VirtSet(r.0), c)
      && Closed(h, m, VirtSet(r.0), c)
      && (!r.1 ==> NoMatch(h, m, c) && NoneSeenMatches(h, m, VirtSet(st), VirtSet(r.0)))
    decreases c, |h[c]| + 2
  {
    WalkSees(h, m, mode, st, c, 0, false, st.access, st.scratch == [], Search(h, m, mode, st, c));
  }

  /** What the search reports is there. */
  lemma {:induction false} WalkFindsOnlyMatches(h: Lattice, m: Criterion, mode: Mode, st: State, c: nat, i: nat,
                                                found: bool, access: Access, first: bool)
    requires c < |h| && i <= |h[c]|
    requires Walk(h, m, mode, st, c, i, found, access, first).1
    ensures found || MatchBelow(h, m, c)
    decreases c, |h[c]| - i
  {
    if i < |h[c]| {
      var e := h[c][i];
      var v := Visit(h, m, mode, st, c, i, access, first);
      if v.hit && !Hits(m, e) {
        var entered := Enter(h, mode, st, c, i, access, first);
        assert Search(h, m, mode, entered, e.cls).1;
        WalkFindsOnlyMatches(h, m, mode, entered, e.cls, 0, false, entered.access, entered.scratch == []);
      } else if !v.hit {
        WalkFindsOnlyMatches(h, m, mode, v.st, c, i + 1, found, access, first);
      }
    }
  }

  /** No match lies below `c` when none is reached non-virtually from `c` or from a virtual base seen. */
  lemma {:induction false} NothingMissed(h: Lattice, m: Criterion, vs: set<nat>, c: nat)
    requires c < |h| && Closed(h, m, vs, c) && NoMatch(h, m, c)
    requires forall v :: v in vs && v < |h| ==> Closed(h, m, vs, v) && NoMatch(h, m, v)
    ensures !MatchBelow(h, m, c)
    decreases c
  {
    forall i | 0 <= i < |h[c]|
      ensures !MatchBelow(h, m, h[c][i].cls)
    {
      NothingMissed(h, m, vs, h[c][i].cls);
    }
  }

  /** The search succeeds exactly when some base specifier below `c` meets the criterion, although
      it enters each virtual base once and may stop at its first success. */
  lemma {:induction false} SearchIsExact(h: Lattice, m: Criterion, mode: Mode, c: nat)
    requires c < |h|
    ensures Search(h, m, mode, EMPTY, c).1 <==> MatchBelow(h, m, c)
  {
    var r := Search(h, m, mode, EMPTY, c);
    if r.1 {
      WalkFindsOnlyMatches(h, m, mode, EMPTY, c, 0, false, Public, true);
    } else {
      SearchSees(h, m, mode, EMPTY, c);
      NothingMissed(h, m, VirtSet(r.0), c);
    }
  }

  // ---------- The counters ----------

  /** No class that meets the criterion derives from `b`: the search never stops above a `b`. */
  ghost predicate Unhidden(h: Lattice, m: Criterion, b: nat) {
    forall d: nat, virt :: d < |h| && m(d, virt) ==> !Derives(h, d, b)
  }

  lemma {:induction false} NoPathNoCount(h: Lattice, c: nat, b: nat)
    requires c < |h| && !Derives(h, c, b)
    ensures NVCount(h, c, b) == 0
    decreases c, |h[c]| + 1
  {
    NoPathNoCountUpTo(h, c, |h[c]|, b);
  }

  lemma {:induction false} NoPathNoCountUpTo(h: Lattice, c: nat, n: nat, b: nat)
    requires c < |h| && n <= |h[c]| && !Derives(h, c, b)
    ensures NVCountUpTo(h, c, n, b) == 0
    decreases c, n
  {
    if n > 0 {
      NoPathNoCountUpTo(h, c, n - 1, b);
      assert !Hits(ToClass(b), h[c][n - 1]) && !Derives(h, h[c][n - 1].cls, b);
      NoPathNoCount(h, h[c][n - 1].cls, b);
    }
  }

  lemma GrowthSplit(h: Lattice, us: set<nat>, vs: set<nat>, ws: set<nat>, b: nat)
    requires us <= vs <= ws
    ensures SumBelow(h, ws - us, |h|, b) == SumBelow(h, vs - us, |h|, b) + SumBelow(h, ws - vs, |h|, b)
  {
    SumBelowDisjoint(h, vs - us, ws - vs, |h|, b);
    assert ws - us == (vs - us) + (ws - vs);
  }

  function NumOf(st: State, b: nat): Num31 {
    CountOf(st.counts, b).num
  }

  ghost predicate MovedBy(st: State, st': State, b: nat, k: int) {
    (NumOf(st', b) - NumOf(st, b) - k) % COUNT_LIMIT == 0
  }

  lemma MovedTwice(st: State, st': State, st'': State, b: nat, k: int, l: int)
    requires MovedBy(st, st', b, k) && MovedBy(st', st'', b, l)
    ensures MovedBy(st, st'', b, k + l)
  {
  }

  lemma EnterCounts(h: Lattice, mode: Mode, st: State, c: nat, i: nat, access: Access, first: bool, b: nat)
    requires c < |h| && i < |h[c]|
    ensures MovedBy(st, Enter(h, mode, st, c, i, access, first), b,
                    if h[c][i].isVirtual || h[c][i].cls != b then 0 else 1)
  {
  }

  lemma {:induction false} SumOfNone(h: Lattice, n: nat, b: nat)
    requires n <= |h|
    ensures SumBelow(h, {}, n, b) == 0
    decreases n
  {
    if n > 0 {
      SumOfNone(h, n - 1, b);
    }
  }

  /** The sum over the virtual bases that `Enter` sees for the first time. */
  lemma SumOfNew(h: Lattice, us: set<nat>, e: BaseSpec, b: nat)
    requires e.cls < |h|
    ensures SumBelow(h, us + (if e.isVirtual then {e.cls} else {}) - us, |h|, b) ==
            if e.isVirtual && e.cls !in us then NVCount(h, e.cls, b) else 0
  {
    SumOfNone(h, |h|, b);
    SumBelowOne(h, e.cls, |h|, b);
    if e.isVirtual && e.cls !in us {
      assert us + {e.cls} - us == {e.cls};
    } else {
      assert us + (if e.isVirtual then {e.cls} else {}) - us == {};
    }
  }

  /** How much base `e` adds itself: one if it is a non-virtual `b`, and the paths below it. */
  ghost function EdgeCount(h: Lattice, e: BaseSpec, b: nat): nat
    requires e.cls < |h|
  {
    if e.isVirtual then 0 else NVCount(h, e.cls, b) + if e.cls == b then 1 else 0
  }

  lemma {:induction false} VisitCounts(h: Lattice, m: Criterion, mode: Mode, st: State, c: nat, i: nat,
                                       access: Access, first: bool, v: Visited, b: nat)
    requires c < |h| && i < |h[c]| && Unhidden(h, m, b) && mode.findAmbiguities
    requires v == Visit(h, m, mode, st, c, i, access, first)
    ensures VirtSet(st) <= VirtSet(v.st)
    ensures MovedBy(st, v.st, b, EdgeCount(h, h[c][i], b) + SumBelow(h, VirtSet(v.st) - VirtSet(st), |h|, b))
    decreases c, 0
  {
    var e := h[c][i];
    var entered := Enter(h, mode, st, c, i, access, first);
    EnterSees(h, mode, st, c, i, access, first);
    EnterCounts(h, mode, st, c, i, access, first, b);
    if Hits(m, e) {
      SumOfNew(h, VirtSet(st), e, b);
      assert VirtSet(v.st) == VirtSet(entered) && NumOf(v.st, b) == NumOf(entered, b);
      NoPathNoCount(h, e.cls, b);
    } else if !e.isVirtual || !CountOf(st.counts, e.cls).isVirt {
      var below := Search(h, m, mode, entered, e.cls).0;
      assert VirtSet(v.st) == VirtSet(below) && NumOf(v.st, b) == NumOf(below, b);
      SearchSees(h, m, mode, entered, e.cls);
      SearchCounts(h, m, mode, entered, e.cls, b);
      BelowCounts(h, st, entered, below, e, b);
    } else {
      SumOfNew(h, VirtSet(st), e, b);
      assert VirtSet(v.st) == VirtSet(entered) && NumOf(v.st, b) == NumOf(entered, b);
    }
  }

  /** Entering base `e` and searching below it. */
  lemma BelowCounts(h: Lattice, st: State, entered: State, below: State, e: BaseSpec, b: nat)
    requires e.cls < |h| && (e.isVirtual ==> e.cls !in VirtSet(st))
    requires VirtSet(entered) == VirtSet(st) + (if e.isVirtual then {e.cls} else {}) &&
             VirtSet(entered) <= VirtSet(below)
    requires MovedBy(st, entered, b, if e.isVirtual || e.cls != b then 0 else 1)
    requires MovedBy(entered, below, b, NVCount(h, e.cls, b) + SumBelow(h, VirtSet(below) - VirtSet(entered), |h|, b))
    ensures MovedBy(st, below, b, EdgeCount(h, e, b) + SumBelow(h, VirtSet(below) - VirtSet(st), |h|, b))
  {
    SumOfNew(h, VirtSet(st), e, b);
    GrowthSplit(h, VirtSet(st), VirtSet(entered), VirtSet(below), b);
    MovedTwice(st, entered, below, b, if e.isVirtual || e.cls != b then 0 else 1,
               NVCount(h, e.cls, b) + SumBelow(h, VirtSet(below) - VirtSet(entered), |h|, b));
  }

  /** Between two states the bases of `c` from `i` on have been counted. */
  ghost predicate Counted(h: Lattice, st: State, end: State, c: nat, i: nat, b: nat)
    requires c < |h| && i <= |h[c]|
  {
    && VirtSet(st) <= VirtSet(end)
    && MovedBy(st, end, b, NVCount(h, c, b) - NVCountUpTo(h, c, i, b) +
                           SumBelow(h, VirtSet(end) - VirtSet(st), |h|, b))
  }

  lemma NothingCounted(h: Lattice, st: State, end: State, c: nat, b: nat)
    requires c < |h| && end == st.(access := end.access)
    ensures Counted(h, st, end, c, |h[c]|, b)
  {
    SumOfNone(h, |h|, b);
    assert VirtSet(end) == VirtSet(st);
    assert VirtSet(end) - VirtSet(st) == {};
  }

  lemma NextCounted(h: Lattice, st: State, next: State, end: State, c: nat, i: nat, b: nat)
    requires c < |h| && i < |h[c]| && VirtSet(st) <= VirtSet(next)
    requires MovedBy(st, next, b, EdgeCount(h, h[c][i], b) + SumBelow(h, VirtSet(next) - VirtSet(st), |h|, b))
    requires Counted(h, next, end, c, i + 1, b)
    ensures Counted(h, st, end, c, i, b)
  {
    GrowthSplit(h, VirtSet(st), VirtSet(next), VirtSet(end), b);
    MovedTwice(st, next, end, b,
               EdgeCount(h, h[c][i], b) + SumBelow(h, VirtSet(next) - VirtSet(st), |h|, b),
               NVCount(h, c, b) - NVCountUpTo(h, c, i + 1, b) + SumBelow(h, VirtSet(end) - VirtSet(next), |h|, b));
  }

  lemma {:induction false} WalkCounts(h: Lattice, m: Criterion, mode: Mode, st: State, c: nat, i: nat, found: bool,
                                      access: Access, first: bool, r: (State, bool), b: nat)
    requires c < |h| && i <= |h[c]| && Unhidden(h, m, b) && mode.findAmbiguities
    requires r == Walk(h, m, mode, st, c, i, found, access, first)
    ensures Counted(h, st, r.0, c, i, b)
    decreases c, |h[c]| - i + 1
  {
    if i == |h[c]| {
      NothingCounted(h, st, r.0, c, b);
    } else {
      var v := Visit(h, m, mode, st, c, i, access, first);
      VisitCounts(h, m, mode, st, c, i, access, first, v, b);
      WalkCounts(h, m, mode, v.st, c, i + 1, found || v.hit, access, first, r, b);
      NextCounted(h, st, v.st, r.0, c, i, b);
    }
  }

  /** The number for `b` grows by one for every non-virtual path to `b` that starts at `c` or at a
      virtual base seen for the first time. */
  lemma {:induction false} SearchCounts(h: Lattice, m: Criterion, mode: Mode, st: State, c: nat, b: nat)
    requires c < |h| && Unhidden(h, m, b) && mode.findAmbiguities
    ensures var r := Search(h, m, mode, st, c);
      MovedBy(st, r.0, b, NVCount(h, c, b) + SumBelow(h, VirtSet(r.0) - VirtSet(st), |h|, b))
    decreases c, |h[c]| + 2
  {
    WalkCounts(h, m, mode, st, c, 0, false, st.access, st.scratch == [], Search(h, m, mode, st, c), b);
  }

  // ---------- Reachability by paths ----------

  ghost predicate IsMatchingPath(h: Lattice, m: Criterion, c: nat, p: seq<nat>)
    requires c < |h|
  {
    IsPath(h, c, p) && p != [] && Hits(m, LastEdge(h, c, p))
  }

  /** `MatchBelow` without recursion on the hierarchy: a path whose last step meets the criterion. */
  lemma {:induction false} MatchBelowIsPath(h: Lattice, m: Criterion, c: nat)
    requires c < |h|
    ensures MatchBelow(h, m, c) <==> exists p :: IsMatchingPath(h, m, c, p)
  {
    if MatchBelow(h, m, c) {
      var p := MatchPath(h, m, c);
    }
    forall p | IsMatchingPath(h, m, c, p)
      ensures MatchBelow(h, m, c)
    {
      PathMatches(h, m, c, p);
    }
  }

  lemma {:induction false} MatchPath(h: Lattice, m: Criterion, c: nat) returns (p: seq<nat>)
    requires c < |h| && MatchBelow(h, m, c)
    ensures IsMatchingPath(h, m, c, p)
    decreases c
  {
    var i :| 0 <= i < |h[c]| && (Hits(m, h[c][i]) || MatchBelow(h, m, h[c][i].cls));
    if Hits(m, h[c][i]) {
      p := [i];
    } else {
      var q := MatchPath(h, m, h[c][i].cls);
      p := [i] + q;
      assert p[1..] == q;
    }
  }

  lemma {:induction false} PathMatches(h: Lattice, m: Criterion, c: nat, p: seq<nat>)
    requires c < |h| && IsMatchingPath(h, m, c, p)
    ensures MatchBelow(h, m, c)
    decreases |p|
  {
    if |p| > 1 {
      PathMatches(h, m, h[c][p[0]].cls, p[1..]);
    }
  }

  lemma {:induction false} DerivesTransitively(h: Lattice, m: Criterion, c: nat, d: nat)
    requires c < |h| && d < |h| && Derives(h, c, d) && MatchBelow(h, m, d)
    ensures MatchBelow(h, m, c)
    decreases c
  {
    var i :| 0 <= i < |h[c]| && (Hits(ToClass(d), h[c][i]) || MatchBelow(h, ToClass(d), h[c][i].cls));
    if h[c][i].cls != d {
      DerivesTransitively(h, m, h[c][i].cls, d);
    }
  }

  lemma {:induction false} VBaseIsVirtuallyDerived(h: Lattice, c: nat, v: nat)
    requires c < |h|
    ensures IsVBase(h, c, v) <==> VirtuallyDerives(h, c, v)
    ensures VirtuallyDerives(h, c, v) ==> Derives(h, c, v)
    decreases c
  {
    forall i | 0 <= i < |h[c]|
      ensures IsVBase(h, h[c][i].cls, v) <==> VirtuallyDerives(h, h[c][i].cls, v)
      ensures VirtuallyDerives(h, h[c][i].cls, v) ==> Derives(h, h[c][i].cls, v)
      ensures Hits(VirtuallyTo(v), h[c][i]) ==> Hits(ToClass(v), h[c][i])
    {
      VBaseIsVirtuallyDerived(h, h[c][i].cls, v);
    }
  }

  // ---------- Exactness of the ambiguity check ----------

  /** A virtual base that is `b`, or lies above a `b`, cannot escape an exhaustive search. */
  lemma {:induction false} VBaseSeen(h: Lattice, m: Criterion, vs: set<nat>, c: nat, v: nat, b: nat)
    requires c < |h| && Closed(h, m, vs, c) && Unhidden(h, m, b)
    requires forall u :: u in vs ==> u < |h| && (m(u, true) || Closed(h, m, vs, u))
    requires v < |h| && IsVBase(h, c, v) && (v == b || Derives(h, v, b))
    ensures v in vs
    decreases c
  {
    var i :| 0 <= i < |h[c]| && ((h[c][i].isVirtual && h[c][i].cls == v) || IsVBase(h, h[c][i].cls, v));
    if !(h[c][i].isVirtual && h[c][i].cls == v) {
      var d := h[c][i].cls;
      VBaseIsVirtuallyDerived(h, d, v);
      if v != b {
        DerivesTransitively(h, ToClass(b), d, v);
      }
      assert !m(d, h[c][i].isVirtual);
      VBaseSeen(h, m, vs, d, v, b);
    }
  }

  lemma {:induction false} SumBelowSame(h: Lattice, us: set<nat>, vs: set<nat>, n: nat, b: nat)
    requires n <= |h| && us <= vs
    requires forall v :: v in vs && v !in us && v < |h| ==> NVCount(h, v, b) == 0
    ensures SumBelow(h, us, n, b) == SumBelow(h, vs, n, b)
    decreases n
  {
    if n > 0 {
      SumBelowSame(h, us, vs, n - 1, b);
    }
  }

  /** The virtual bases an exhaustive search sees account for every subobject of an unhidden class. */
  lemma {:induction false} SeenSuffices(h: Lattice, m: Criterion, mode: Mode, c: nat, b: nat)
    requires c < |h| && b < |h| && mode.findAmbiguities && Unhidden(h, m, b)
    ensures var vs := VirtSet(Search(h, m, mode, EMPTY, c).0);
      && (b in vs <==> IsVBase(h, c, b))
      && SumBelow(h, vs, |h|, b) == SumBelow(h, VBases(h, c), |h|, b)
  {
    var vs, all := VirtSet(Search(h, m, mode, EMPTY, c).0), VBases(h, c);
    assert VirtSet(EMPTY) == {};
    SearchSees(h, m, mode, EMPTY, c);
    forall v | v in all && (v == b || Derives(h, v, b))
      ensures v in vs
    {
      VBaseSeen(h, m, vs, c, v, b);
    }
    forall v | v in all && v !in vs
      ensures NVCount(h, v, b) == 0
    {
      NoPathNoCount(h, v, b);
    }
    SumBelowSame(h, vs, all, |h|, b);
    if IsVBase(h, c, b) {
      VBaseBelow(h, c, b);
    }
  }

  /** After a search from `c` that looks for ambiguities, the flag of every unhidden class says whether
      it is a virtual base, and its number is that of its other subobjects, modulo 2^31. */
  lemma {:induction false} CountersAreExact(h: Lattice, m: Criterion, mode: Mode, c: nat, b: nat)
    requires c < |h| && b < |h| && mode.findAmbiguities && Unhidden(h, m, b)
    ensures var count := CountOf(Search(h, m, mode, EMPTY, c).0.counts, b);
      var proper := |Subobjects(h, c, b)| - if b == c then 1 else 0;
      && (count.isVirt <==> IsVBase(h, c, b))
      && 0 <= proper - (if count.isVirt then 1 else 0)
      && count.num == (proper - if count.isVirt then 1 else 0) % COUNT_LIMIT
  {
    var st := Search(h, m, mode, EMPTY, c).0;
    assert VirtSet(EMPTY) == {} && VirtSet(st) - {} == VirtSet(st);
    SeenSuffices(h, m, mode, c, b);
    SearchCounts(h, m, mode, EMPTY, c, b);
    SubobjectListDistinct(h, c, b);
    NVCountIsLength(h, c, b);
    BelowVirtualLength(h, VBases(h, c), |h|, b);
    if IsVBase(h, c, b) {
      VBaseBelow(h, c, b);
    }
  }

  /** Searching for `b` itself hides none of its subobjects. */
  lemma {:induction false} ToClassUnhidden(h: Lattice, b: nat)
    ensures Unhidden(h, ToClass(b), b)
  {
    forall d: nat, virt | d < |h| && ToClass(b)(d, virt)
      ensures !Derives(h, d, b)
    {
      if Derives(h, d, b) {
        DerivesBelow(h, d, b);
      }
    }
  }

  /** After a search for the proper base `b`, `IsAmbiguous` answers whether two inheritance paths
      lead to different subobjects, as long as there are fewer than 2^31 of them. */
  lemma {:induction false} AmbiguityIsExact(h: Lattice, mode: Mode, c: nat, b: nat)
    requires c < |h| && b < |h| && b != c && mode.findAmbiguities
    requires |Subobjects(h, c, b)| < COUNT_LIMIT
    ensures Ambiguous(Search(h, ToClass(b), mode, EMPTY, c).0, b) <==>
            exists s, t :: IsSubobject(h, c, b, s) && IsSubobject(h, c, b, t) && s != t
  {
    ToClassUnhidden(h, b);
    CountersAreExact(h, ToClass(b), mode, c, b);
    SubobjectListDistinct(h, c, b);
    var all := SubobjectList(h, c, b);
    if |all| > 1 {
      SubobjectListMembers(h, c, b, all[0]);
      SubobjectListMembers(h, c, b, all[1]);
    }
    forall s, t | IsSubobject(h, c, b, s) && IsSubobject(h, c, b, t) && s != t
      ensures |all| > 1
    {
      SubobjectListMembers(h, c, b, s);
      SubobjectListMembers(h, c, b, t);
    }
  }

  /** In general the check is exact unless the 31-bit number wrapped around to hide an ambiguity. */
  lemma {:induction false} AmbiguityUpToWrapAround(h: Lattice, mode: Mode, c: nat, b: nat)
    requires c < |h| && b < |h| && b != c && mode.findAmbiguities
    ensures var n, virt := |Subobjects(h, c, b)|, if IsVBase(h, c, b) then 1 else 0;
      (Ambiguous(Search(h, ToClass(b), mode, EMPTY, c).0, b) <==> n > 1) <==>
      (n < COUNT_LIMIT || (n - virt) % COUNT_LIMIT > 1 - virt)
  {
    ToClassUnhidden(h, b);
    CountersAreExact(h, ToClass(b), mode, c, b);
  }

  // ---------- A hierarchy on which the number wraps around ----------

  /** Class 3k+3 derives from 3k+1 and 3k+2, and these two derive from 3k: every level doubles the
      number of subobjects of class 0. */
  function Ladder(levels: nat): Lattice {
    seq(3 * levels + 1, c requires 0 <= c =>
      if c == 0 then []
      else if c % 3 == 0 then [BaseSpec(c - 2, false, Public), BaseSpec(c - 1, false, Public)]
      else [BaseSpec(c - c % 3, false, Public)])
  }

  lemma OneBaseCount(h: Lattice, c: nat, d: nat, b: nat)
    requires d < c < |h| && h[c] == [BaseSpec(d, false, Public)]
    ensures NVCount(h, c, b) == NVCount(h, d, b) + if d == b then 1 else 0
  {
    assert NVCountUpTo(h, c, 0, b) == 0;
  }

  lemma TwoBasesCount(h: Lattice, c: nat, d: nat, e: nat, b: nat)
    requires d < c < |h| && e < c && h[c] == [BaseSpec(d, false, Public), BaseSpec(e, false, Public)]
    requires d != b && e != b
    ensures NVCount(h, c, b) == NVCount(h, d, b) + NVCount(h, e, b)
  {
    assert NVCountUpTo(h, c, 0, b) == 0;
    assert NVCountUpTo(h, c, 1, b) == NVCount(h, d, b);
  }

  lemma LadderLevel(levels: nat, k: nat)
    requires 0 < k <= levels
    ensures var h, c := Ladder(levels), 3 * k;
      && h[c] == [BaseSpec(c - 2, false, Public), BaseSpec(c - 1, false, Public)]
      && h[c - 2] == [BaseSpec(c - 3, false, Public)] && h[c - 1] == [BaseSpec(c - 3, false, Public)]
  {
  }

  lemma {:induction false} LadderDoubles(levels: nat, k: nat)
    requires k <= levels
    ensures NVCount(Ladder(levels), 3 * k, 0) + (if k == 0 then 1 else 0) == Pow2(k)
    decreases k
  {
    var h, c := Ladder(levels), 3 * k;
    if k == 0 {
      assert NVCountUpTo(h, 0, 0, 0) == 0;
    } else {
      LadderDoubles(levels, k - 1);
      LadderLevel(levels, k);
      LevelDoubles(h, c);
    }
  }

  /** One level of a ladder. */
  lemma LevelDoubles(h: Lattice, c: nat)
    requires 3 <= c < |h| && h[c] == [BaseSpec(c - 2, false, Public), BaseSpec(c - 1, false, Public)]
    requires h[c - 2] == [BaseSpec(c - 3, false, Public)] && h[c - 1] == [BaseSpec(c - 3, false, Public)]
    ensures NVCount(h, c, 0) == 2 * (NVCount(h, c - 3, 0) + if c == 3 then 1 else 0)
  {
    OneBaseCount(h, c - 2, c - 3, 0);
    OneBaseCount(h, c - 1, c - 3, 0);
    TwoBasesCount(h, c, c - 2, c - 1, 0);
  }

  lemma {:induction false} LadderHasNoVirtualBase(levels: nat, c: nat, v: nat)
    requires c < |Ladder(levels)|
    ensures !IsVBase(Ladder(levels), c, v)
    decreases c
  {
    forall i | 0 <= i < |Ladder(levels)[c]|
      ensures !Ladder(levels)[c][i].isVirtual && !IsVBase(Ladder(levels), Ladder(levels)[c][i].cls, v)
    {
      LadderHasNoVirtualBase(levels, Ladder(levels)[c][i].cls, v);
    }
  }

  /** A ladder has no virtual bases, and every level doubles its subobjects. */
  lemma LadderCount(levels: nat)
    requires levels > 0
    ensures |Subobjects(Ladder(levels), 3 * levels, 0)| == Pow2(levels) && !IsVBase(Ladder(levels), 3 * levels, 0)
  {
    var h, c := Ladder(levels), 3 * levels;
    LadderDoubles(levels, levels);
    SubobjectListDistinct(h, c, 0);
    NVCountIsLength(h, c, 0);
    BelowVirtualLength(h, VBases(h, c), |h|, 0);
    forall v: nat
      ensures !IsVBase(h, c, v)
    {
      LadderHasNoVirtualBase(levels, c, v);
    }
    assert VBases(h, c) == {};
    SumOfNone(h, |h|, 0);
  }

  /** After a search of the ladder, the number is the number of subobjects modulo 2^31. */
  lemma {:induction false} LadderNumber(levels: nat, mode: Mode)
    requires mode.findAmbiguities && levels > 0
    ensures |Subobjects(Ladder(levels), 3 * levels, 0)| == Pow2(levels)
    ensures Ambiguous(Search(Ladder(levels), ToClass(0), mode, EMPTY, 3 * levels).0, 0) <==>
            Pow2(levels) % COUNT_LIMIT > 1
  {
    LadderCount(levels);
    ToClassUnhidden(Ladder(levels), 0);
    CountersAreExact(Ladder(levels), ToClass(0), mode, 3 * levels, 0);
  }

  /** With 31 levels there are 2^31 subobjects of class 0, yet the check calls the base unambiguous. */
  lemma LadderHidesAmbiguity(levels: nat, mode: Mode)
    requires levels == 31 && mode.findAmbiguities
    ensures |Subobjects(Ladder(levels), 3 * levels, 0)| == COUNT_LIMIT
    ensures !Ambiguous(Search(Ladder(levels), ToClass(0), mode, EMPTY, 3 * levels).0, 0)
  {
    LadderNumber(levels, mode);
    PowersNearUInt();
  }
}
