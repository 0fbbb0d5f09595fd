/// The numbers that the collection of final overriders gives to subobjects, followed on a tour of its own.

module SubobjectNumbers {
  import opened Prelude
  import opened Hierarchy
  import opened SubobjectCounting
  import opened Containment
  import opened Overriders
  import opened FinalOverriders

  /** The subobject `sub` of class `cls` was the `place`-th one counted; virtual bases are not counted. */
  datatype Name = Name(cls: nat, sub: Subobject, place: nat)

  datatype Tour = Tour(count: map<nat, nat>, seen: set<nat>, names: set<Name>)

  const SETTING_OUT: Tour := Tour(map[], {}, {})

  const WHOLE: Subobject := Subobject(MostDerived, [])

  function Virtual(v: nat): Subobject {
    Subobject(VirtualBase(v), [])
  }

  function CountSoFar(t: Tour, c: nat): nat {
    if c in t.count then t.count[c] else 0
  }

  /** The subobject for base `i` of the subobject `at`, of class `c`. */
  function Step(h: Lattice, at: Subobject, c: nat, i: nat): Subobject
    requires c < |h| && i < |h[c]|
  {
    if h[c][i].isVirtual then Virtual(h[c][i].cls) else Subobject(at.start, at.steps + [i])
  }

  /** Names the subobject `at` of class `c`. */
  function Arrive(t: Tour, c: nat, virtualBase: bool, at: Subobject): Tour {
    var place := if virtualBase then 0 else CountSoFar(t, c) + 1;
    Tour(if virtualBase then t.count else t.count[c := place], t.seen, t.names + {Name(c, at, place)})
  }

  function Toured(p: Decls, t: Tour, c: nat, virtualBase: bool, at: Subobject): Tour
    requires c < |p.h|
    decreases c, |p.h[c]| + 2
  {
    TouredFrom(p, Arrive(t, c, virtualBase, at), c, 0, at)
  }

  /** The bases of `c` from the `i`-th on. */
  function TouredFrom(p: Decls, t: Tour, c: nat, i: nat, at: Subobject): Tour
    requires c < |p.h| && i <= |p.h[c]|
    decreases c, |p.h[c]| - i + 1
  {
    if i == |p.h[c]| then t else TouredFrom(p, TouredBase(p, t, c, i, at), c, i + 1, at)
  }

  function TouredBase(p: Decls, t: Tour, c: nat, i: nat, at: Subobject): Tour
    requires c < |p.h| && i < |p.h[c]|
    decreases c, 0
  {
    var e := p.h[c][i];
    if !p.polymorphic[e.cls] || (e.isVirtual && e.cls in t.seen) then t
    else Toured(p, if e.isVirtual then t.(seen := t.seen + {e.cls}) else t, e.cls, e.isVirtual, Step(p.h, at, c, i))
  }

  // ---------- The tour keeps step with the collection ----------

  /** The collection counts modulo 2^32 and caches the virtual bases seen. */
  ghost predicate InStep(st: Progress, t: Tour) {
    st.virt.Keys == t.seen && forall c: nat :: Numbered(st, c) == CountSoFar(t, c) % UINT
  }

  lemma ArriveInStep(st: Progress, t: Tour, c: nat, virtualBase: bool, at: Subobject)
    requires InStep(st, t)
    ensures InStep(if virtualBase then st else st.(count := st.count[c := NextNumber(st, c)]),
                   Arrive(t, c, virtualBase, at))
  {
    var st' := if virtualBase then st else st.(count := st.count[c := NextNumber(st, c)]);
    assert (CountSoFar(t, c) % UINT + 1) % UINT == (CountSoFar(t, c) + 1) % UINT;
    forall b: nat
      ensures Numbered(st', b) == CountSoFar(Arrive(t, c, virtualBase, at), b) % UINT
    {
      assert Numbered(st, b) == CountSoFar(t, b) % UINT;
    }
  }

  lemma {:induction false} CollectedInStep(p: Decls, st: Progress, t: Tour, c: nat, virtualBase: bool, at: Subobject,
                                           inV: Option<nat>, f: OverriderMap)
    requires c < |p.h| && InStep(st, t)
    ensures InStep(Collected(p, st, c, virtualBase, inV, f).0, Toured(p, t, c, virtualBase, at))
    decreases c, |p.h[c]| + 2
  {
    ArriveInStep(st, t, c, virtualBase, at);
    var numbered := if virtualBase then st else st.(count := st.count[c := NextNumber(st, c)]);
    CollectedFromInStep(p, numbered, Arrive(t, c, virtualBase, at), c, 0, at, inV, f);
  }

  lemma {:induction false} CollectedFromInStep(p: Decls, st: Progress, t: Tour, c: nat, i: nat, at: Subobject,
                                               inV: Option<nat>, f: OverriderMap)
    requires c < |p.h| && i <= |p.h[c]| && InStep(st, t)
    ensures InStep(CollectedFrom(p, st, c, i, inV, f).0, TouredFrom(p, t, c, i, at))
    decreases c, |p.h[c]| - i + 1
  {
    if i < |p.h[c]| {
      CollectedBaseInStep(p, st, t, c, i, at, inV, f);
      var b := CollectedBase(p, st, c, i, inV, f);
      CollectedFromInStep(p, b.0, TouredBase(p, t, c, i, at), c, i + 1, at, inV, b.1);
    }
  }

  lemma {:induction false} CollectedBaseInStep(p: Decls, st: Progress, t: Tour, c: nat, i: nat, at: Subobject,
                                               inV: Option<nat>, f: OverriderMap)
    requires c < |p.h| && i < |p.h[c]| && InStep(st, t)
    ensures InStep(CollectedBase(p, st, c, i, inV, f).0, TouredBase(p, t, c, i, at))
    decreases c, 1
  {
    var e := p.h[c][i];
    if p.polymorphic[e.cls] && !(e.isVirtual && e.cls in st.virt) {
      if e.isVirtual {
        var entered := st.(virt := st.virt[e.cls := map[]]);
        assert entered.virt.Keys == t.seen + {e.cls};
        assert forall b: nat :: Numbered(entered, b) == Numbered(st, b);
        VirtualInStep(p, st, entered, t.(seen := t.seen + {e.cls}), c, i, at);
        var r := Collected(p, entered, e.cls, true, Some(e.cls), map[]);
        assert r.0.virt[e.cls := r.1].Keys == r.0.virt.Keys + {e.cls};
      } else {
        CollectedInStep(p, st, t, e.cls, false, Step(p.h, at, c, i), inV, if f == map[] then f else map[]);
      }
    }
  }

  lemma {:induction false} VirtualInStep(p: Decls, st: Progress, entered: Progress, t: Tour, c: nat, i: nat,
                                         at: Subobject)
    requires c < |p.h| && i < |p.h[c]| && p.h[c][i].isVirtual && InStep(entered, t) && p.h[c][i].cls in t.seen
    ensures var v := p.h[c][i].cls;
      var (st', g) := Collected(p, entered, v, true, Some(v), map[]);
      InStep(st'.(virt := st'.virt[v := g]), Toured(p, t, v, true, Step(p.h, at, c, i)))
    decreases c, 0
  {
    var v := p.h[c][i].cls;
    CollectedInStep(p, entered, t, v, true, Step(p.h, at, c, i), Some(v), map[]);
    var (st', g) := Collected(p, entered, v, true, Some(v), map[]);
    TouredGrows(p, t, v, true, Step(p.h, at, c, i));
    assert st'.virt[v := g].Keys == st'.virt.Keys;
    assert forall b: nat :: Numbered(st'.(virt := st'.virt[v := g]), b) == Numbered(st', b);
  }

  // ---------- Growth ----------

  ghost predicate Grew(t: Tour, t': Tour) {
    t.seen <= t'.seen && t.names <= t'.names && forall b: nat :: CountSoFar(t, b) <= CountSoFar(t', b)
  }

  lemma {:induction false} TouredGrows(p: Decls, t: Tour, c: nat, virtualBase: bool, at: Subobject)
    requires c < |p.h|
    ensures Grew(t, Toured(p, t, c, virtualBase, at))
    ensures Arrive(t, c, virtualBase, at).names <= Toured(p, t, c, virtualBase, at).names
    decreases c, |p.h[c]| + 2
  {
    TouredFromGrows(p, Arrive(t, c, virtualBase, at), c, 0, at);
  }

  lemma {:induction false} TouredFromGrows(p: Decls, t: Tour, c: nat, i: nat, at: Subobject)
    requires c < |p.h| && i <= |p.h[c]|
    ensures Grew(t, TouredFrom(p, t, c, i, at))
    decreases c, |p.h[c]| - i + 1
  {
    if i < |p.h[c]| {
      TouredBaseGrows(p, t, c, i, at);
      TouredFromGrows(p, TouredBase(p, t, c, i, at), c, i + 1, at);
    }
  }

  lemma {:induction false} TouredBaseGrows(p: Decls, t: Tour, c: nat, i: nat, at: Subobject)
    requires c < |p.h| && i < |p.h[c]|
    ensures Grew(t, TouredBase(p, t, c, i, at))
    decreases c, 0
  {
    var e := p.h[c][i];
    if p.polymorphic[e.cls] && !(e.isVirtual && e.cls in t.seen) {
      var entered := if e.isVirtual then t.(seen := t.seen + {e.cls}) else t;
      TouredGrows(p, entered, e.cls, e.isVirtual, Step(p.h, at, c, i));
    }
  }

  // ---------- Every subobject is named once ----------

  /** Names and subobjects of a class correspond: only the virtual base has place 0, the others are in the
      places from 1 to their number. */
  ghost predicate WellNamed(t: Tour) {
    && (forall n :: n in t.names ==> NamedRightly(t, n))
    && (forall n, m :: n in t.names && m in t.names && n.cls == m.cls ==> (n.sub == m.sub <==> n.place == m.place))
    && (forall b: nat, k: nat :: 1 <= k <= CountSoFar(t, b) ==> Placed(t, b, k))
  }

  ghost predicate NamedRightly(t: Tour, n: Name) {
    && (n.place == 0 <==> n.sub == Virtual(n.cls)) && n.place <= CountSoFar(t, n.cls)
    && (n.sub.start.VirtualBase? ==> n.sub.start.cls in t.seen)
  }

  ghost predicate Placed(t: Tour, b: nat, k: nat) {
    exists s :: Name(b, s, k) in t.names
  }

  lemma ArriveWellNamed(t: Tour, c: nat, virtualBase: bool, at: Subobject)
    requires WellNamed(t) && (virtualBase <==> at == Virtual(c))
    requires at.start.VirtualBase? ==> at.start.cls in t.seen
    requires forall n :: n in t.names ==> n.sub != at
    ensures WellNamed(Arrive(t, c, virtualBase, at))
  {
    var t' := Arrive(t, c, virtualBase, at);
    var here := Name(c, at, if virtualBase then 0 else CountSoFar(t, c) + 1);
    forall n | n in t'.names
      ensures NamedRightly(t', n)
    {
      assert n != here ==> NamedRightly(t, n);
    }
    forall n, m | n in t'.names && m in t'.names && n.cls == m.cls
      ensures n.sub == m.sub <==> n.place == m.place
    {
      assert n != here ==> NamedRightly(t, n);
      assert m != here ==> NamedRightly(t, m);
    }
    forall b: nat, k: nat | 1 <= k <= CountSoFar(t', b)
      ensures Placed(t', b, k)
    {
      if k <= CountSoFar(t, b) {
        assert Placed(t, b, k);
        var s :| Name(b, s, k) in t.names;
        assert Name(b, s, k) in t'.names;
      } else {
        assert here in t'.names;
      }
    }
  }

  /** `s` is `at` or lies below it by non-virtual steps. */
  predicate Within(at: Subobject, s: Subobject) {
    s.start == at.start && at.steps <= s.steps
  }

  /** What was named between the two states lies within `at` or in a virtual base seen meanwhile. */
  ghost predicate NewWithin(t: Tour, t': Tour, at: Subobject) {
    forall n :: n in t'.names && n !in t.names ==> NewlyNamed(t, t', at, n.sub)
  }

  predicate NewlyNamed(t: Tour, t': Tour, at: Subobject, s: Subobject) {
    Within(at, s) || (s.start.VirtualBase? && s.start.cls in t'.seen && s.start.cls !in t.seen)
  }

  lemma {:induction false} TouredWellNamed(p: Decls, t: Tour, c: nat, virtualBase: bool, at: Subobject)
    requires c < |p.h| && WellNamed(t) && (virtualBase <==> at == Virtual(c))
    requires at.start.VirtualBase? ==> at.start.cls in t.seen
    requires forall n :: n in t.names ==> !Within(at, n.sub)
    ensures WellNamed(Toured(p, t, c, virtualBase, at)) && NewWithin(t, Toured(p, t, c, virtualBase, at), at)
    decreases c, |p.h[c]| + 2
  {
    var arrived := Arrive(t, c, virtualBase, at);
    ArriveWellNamed(t, c, virtualBase, at);
    TouredFromWellNamed(p, arrived, c, 0, at);
    var t' := Toured(p, t, c, virtualBase, at);
    forall n | n in t'.names && n !in t.names
      ensures NewlyNamed(t, t', at, n.sub)
    {
      assert n.sub == at || n !in arrived.names;
    }
  }

  /** Of what lies within `at`, only `at` itself and what is below its first `i` bases has been named. */
  ghost predicate NamedUpTo(t: Tour, at: Subobject, i: nat) {
    forall n :: n in t.names && Within(at, n.sub) && n.sub != at ==> n.sub.steps[|at.steps|] < i
  }

  lemma {:induction false} TouredFromWellNamed(p: Decls, t: Tour, c: nat, i: nat, at: Subobject)
    requires c < |p.h| && i <= |p.h[c]| && WellNamed(t) && NamedUpTo(t, at, i)
    requires at.start.VirtualBase? ==> at.start.cls in t.seen
    ensures WellNamed(TouredFrom(p, t, c, i, at)) && NewWithin(t, TouredFrom(p, t, c, i, at), at)
    decreases c, |p.h[c]| - i + 1
  {
    if i < |p.h[c]| {
      var mid := TouredBase(p, t, c, i, at);
      TouredBaseWellNamed(p, t, c, i, at);
      TouredBaseGrows(p, t, c, i, at);
      forall n | n in mid.names && Within(at, n.sub) && n.sub != at
        ensures n.sub.steps[|at.steps|] < i + 1
      {
        if n !in t.names {
          assert NewlyNamed(t, mid, Subobject(at.start, at.steps + [i]), n.sub);
          assert n.sub.steps[|at.steps|] == (at.steps + [i])[|at.steps|];
        }
      }
      TouredFromWellNamed(p, mid, c, i + 1, at);
      TouredFromGrows(p, mid, c, i + 1, at);
      NewWithinTwice(t, mid, TouredFrom(p, mid, c, i + 1, at), at, i);
    }
  }

  lemma NewWithinTwice(t: Tour, mid: Tour, end: Tour, at: Subobject, i: nat)
    requires Grew(t, mid) && Grew(mid, end)
    requires NewWithin(t, mid, Subobject(at.start, at.steps + [i])) && NewWithin(mid, end, at)
    ensures NewWithin(t, end, at)
  {
    forall n | n in end.names && n !in t.names
      ensures NewlyNamed(t, end, at, n.sub)
    {
      if n in mid.names {
        assert NewlyNamed(t, mid, Subobject(at.start, at.steps + [i]), n.sub);
        assert at.steps <= at.steps + [i];
      } else {
        assert NewlyNamed(mid, end, at, n.sub);
      }
    }
  }

  lemma {:induction false} TouredBaseWellNamed(p: Decls, t: Tour, c: nat, i: nat, at: Subobject)
    requires c < |p.h| && i < |p.h[c]| && WellNamed(t) && NamedUpTo(t, at, i)
    requires at.start.VirtualBase? ==> at.start.cls in t.seen
    ensures WellNamed(TouredBase(p, t, c, i, at))
    ensures NewWithin(t, TouredBase(p, t, c, i, at), Subobject(at.start, at.steps + [i]))
    decreases c, 0
  {
    var e := p.h[c][i];
    if p.polymorphic[e.cls] && !(e.isVirtual && e.cls in t.seen) {
      var entered := if e.isVirtual then t.(seen := t.seen + {e.cls}) else t;
      var next := Step(p.h, at, c, i);
      EnteredWellNamed(t, entered);
      forall n | n in t.names
        ensures !Within(next, n.sub)
      {
        assert NamedRightly(t, n);
      }
      TouredWellNamed(p, entered, e.cls, e.isVirtual, next);
      TouredGrows(p, entered, e.cls, e.isVirtual, next);
      var t' := TouredBase(p, t, c, i, at);
      forall n | n in t'.names && n !in t.names
        ensures NewlyNamed(t, t', Subobject(at.start, at.steps + [i]), n.sub)
      {
        assert NewlyNamed(entered, t', next, n.sub);
      }
    }
  }

  lemma EnteredWellNamed(t: Tour, entered: Tour)
    requires WellNamed(t) && entered == t.(seen := entered.seen) && t.seen <= entered.seen
    ensures WellNamed(entered)
  {
    forall n | n in entered.names
      ensures NamedRightly(entered, n)
    {
      assert NamedRightly(t, n);
    }
    forall b: nat, k: nat | 1 <= k <= CountSoFar(entered, b)
      ensures Placed(entered, b, k)
    {
      assert Placed(t, b, k);
    }
  }

  // ---------- Every subobject is named ----------

  ghost predicate IsNamed(t: Tour, b: nat, s: Subobject) {
    exists k :: Name(b, s, k) in t.names
  }

  /** The subobject `at` of class `c` is named, and so is everything polymorphic reached from it by
      non-virtual steps; the virtual bases reached have been seen. */
  ghost predicate Covered(p: Decls, t: Tour, c: nat, at: Subobject)
    requires c < |p.h|
    decreases c, |p.h[c]| + 1
  {
    IsNamed(t, c, at) && CoveredFrom(p, t, c, 0, at)
  }

  ghost predicate CoveredFrom(p: Decls, t: Tour, c: nat, i: nat, at: Subobject)
    requires c < |p.h|
    decreases c, |p.h[c]|
  {
    forall j: nat {:trigger CoveredBase(p, t, c, j, at)} :: i <= j < |p.h[c]| ==> CoveredBase(p, t, c, j, at)
  }

  ghost predicate CoveredBase(p: Decls, t: Tour, c: nat, j: nat, at: Subobject)
    requires c < |p.h| && j < |p.h[c]|
    decreases c, j
  {
    var e := p.h[c][j];
    p.polymorphic[e.cls] ==> if e.isVirtual then e.cls in t.seen else Covered(p, t, e.cls, Step(p.h, at, c, j))
  }

  lemma {:induction false} CoveredGrows(p: Decls, t: Tour, t': Tour, c: nat, at: Subobject)
    requires c < |p.h| && Grew(t, t') && Covered(p, t, c, at)
    ensures Covered(p, t', c, at)
    decreases c
  {
    var k :| Name(c, at, k) in t.names;
    assert Name(c, at, k) in t'.names;
    forall j: nat | j < |p.h[c]|
      ensures CoveredBase(p, t', c, j, at)
    {
      assert CoveredBase(p, t, c, j, at);
      CoveredBaseGrows(p, t, t', c, j, at);
    }
  }

  lemma {:induction false} CoveredBaseGrows(p: Decls, t: Tour, t': Tour, c: nat, j: nat, at: Subobject)
    requires c < |p.h| && j < |p.h[c]| && Grew(t, t') && CoveredBase(p, t, c, j, at)
    ensures CoveredBase(p, t', c, j, at)
    decreases c, 0
  {
    var e := p.h[c][j];
    if p.polymorphic[e.cls] && !e.isVirtual {
      CoveredGrows(p, t, t', e.cls, Step(p.h, at, c, j));
    }
  }

  /** The virtual bases seen between the two states are all covered. */
  ghost predicate SeenCovered(p: Decls, t: Tour, t': Tour) {
    forall v {:trigger v in t'.seen} :: v in t'.seen && v !in t.seen ==> v < |p.h| && Covered(p, t', v, Virtual(v))
  }

  lemma SeenCoveredTwice(p: Decls, t: Tour, mid: Tour, end: Tour)
    requires Grew(t, mid) && Grew(mid, end) && SeenCovered(p, t, mid) && SeenCovered(p, mid, end)
    ensures SeenCovered(p, t, end)
  {
    forall v | v in end.seen && v !in t.seen
      ensures v < |p.h| && Covered(p, end, v, Virtual(v))
    {
      if v in mid.seen {
        CoveredGrows(p, mid, end, v, Virtual(v));
      }
    }
  }

  lemma {:induction false} TouredCovers(p: Decls, t: Tour, c: nat, virtualBase: bool, at: Subobject)
    requires c < |p.h|
    ensures var t' := Toured(p, t, c, virtualBase, at); Covered(p, t', c, at) && SeenCovered(p, t, t')
    decreases c, |p.h[c]| + 2
  {
    var arrived := Arrive(t, c, virtualBase, at);
    var place := if virtualBase then 0 else CountSoFar(t, c) + 1;
    TouredGrows(p, t, c, virtualBase, at);
    TouredFromCovers(p, arrived, c, 0, at);
    assert Name(c, at, place) in arrived.names;
    assert Name(c, at, place) in Toured(p, t, c, virtualBase, at).names;
  }

  lemma {:induction false} TouredFromCovers(p: Decls, t: Tour, c: nat, i: nat, at: Subobject)
    requires c < |p.h| && i <= |p.h[c]|
    ensures var t' := TouredFrom(p, t, c, i, at); CoveredFrom(p, t', c, i, at) && SeenCovered(p, t, t')
    decreases c, |p.h[c]| - i + 1
  {
    if i < |p.h[c]| {
      var mid := TouredBase(p, t, c, i, at);
      var end := TouredFrom(p, mid, c, i + 1, at);
      TouredBaseCovers(p, t, c, i, at);
      TouredFromCovers(p, mid, c, i + 1, at);
      TouredBaseGrows(p, t, c, i, at);
      TouredFromGrows(p, mid, c, i + 1, at);
      CoveredBaseGrows(p, mid, end, c, i, at);
      SeenCoveredTwice(p, t, mid, end);
    }
  }

  lemma {:induction false} TouredBaseCovers(p: Decls, t: Tour, c: nat, i: nat, at: Subobject)
    requires c < |p.h| && i < |p.h[c]|
    ensures var t' := TouredBase(p, t, c, i, at); CoveredBase(p, t', c, i, at) && SeenCovered(p, t, t')
    decreases c, 0
  {
    var e := p.h[c][i];
    if p.polymorphic[e.cls] && !(e.isVirtual && e.cls in t.seen) {
      var entered := if e.isVirtual then t.(seen := t.seen + {e.cls}) else t;
      TouredCovers(p, entered, e.cls, e.isVirtual, Step(p.h, at, c, i));
      TouredGrows(p, entered, e.cls, e.isVirtual, Step(p.h, at, c, i));
    }
  }

  /** The subobject at the end of a path, followed step by step. */
  lemma {:induction false} FromStep(h: Lattice, at: Subobject, c: nat, q: seq<nat>)
    requires c < |h| && IsPath(h, c, q) && q != []
    ensures From(at, Denote(h, c, q)) == From(Step(h, at, c, q[0]), Denote(h, h[c][q[0]].cls, q[1..]))
  {
    var d := Denote(h, h[c][q[0]].cls, q[1..]);
    assert at.steps + ([q[0]] + d.steps) == at.steps + [q[0]] + d.steps;
    assert [] + d.steps == d.steps;
  }

  /** A class on a path to a polymorphic one is polymorphic. */
  lemma {:induction false} PolymorphicAlong(p: Decls, c: nat, q: seq<nat>)
    requires c < |p.h| && IsPath(p.h, c, q) && p.polymorphic[End(p.h, c, q)]
    ensures p.polymorphic[c]
    decreases |q|
  {
    if q != [] {
      PolymorphicAlong(p, p.h[c][q[0]].cls, q[1..]);
    }
  }

  lemma {:induction false} PathIsNamed(p: Decls, t: Tour, c: nat, at: Subobject, q: seq<nat>)
    requires c < |p.h| && Covered(p, t, c, at) && SeenCovered(p, SETTING_OUT, t)
    requires IsPath(p.h, c, q) && (q == [] || p.polymorphic[End(p.h, c, q)])
    ensures IsNamed(t, End(p.h, c, q), From(at, Denote(p.h, c, q)))
    decreases |q|
  {
    if q == [] {
      assert From(at, Denote(p.h, c, q)) == at;
    } else {
      var e := p.h[c][q[0]];
      FromStep(p.h, at, c, q);
      PolymorphicAlong(p, e.cls, q[1..]);
      assert CoveredBase(p, t, c, q[0], at);
      PathIsNamed(p, t, e.cls, Step(p.h, at, c, q[0]), q[1..]);
    }
  }

  // ---------- Nothing else is named ----------

  ghost predicate AllReal(h: Lattice, c: nat, t: Tour)
    requires c < |h|
  {
    forall n :: n in t.names ==> IsSubobject(h, c, n.cls, n.sub)
  }

  /** `r` leads to the subobject `at` of class `d` in an object of class `c`. */
  ghost predicate LeadsTo(h: Lattice, c: nat, r: seq<nat>, d: nat, at: Subobject)
    requires c < |h|
  {
    IsPath(h, c, r) && End(h, c, r) == d && Denote(h, c, r) == at
  }

  lemma {:induction false} TouredReal(p: Decls, t: Tour, c: nat, virtualBase: bool, at: Subobject, whole: nat,
                                      r: seq<nat>)
    requires c < |p.h| && whole < |p.h| && LeadsTo(p.h, whole, r, c, at) && AllReal(p.h, whole, t)
    ensures AllReal(p.h, whole, Toured(p, t, c, virtualBase, at))
    decreases c, |p.h[c]| + 2
  {
    TouredFromReal(p, Arrive(t, c, virtualBase, at), c, 0, at, whole, r);
  }

  lemma {:induction false} TouredFromReal(p: Decls, t: Tour, c: nat, i: nat, at: Subobject, whole: nat, r: seq<nat>)
    requires c < |p.h| && i <= |p.h[c]| && whole < |p.h| && LeadsTo(p.h, whole, r, c, at) && AllReal(p.h, whole, t)
    ensures AllReal(p.h, whole, TouredFrom(p, t, c, i, at))
    decreases c, |p.h[c]| - i + 1
  {
    if i < |p.h[c]| {
      TouredBaseReal(p, t, c, i, at, whole, r);
      TouredFromReal(p, TouredBase(p, t, c, i, at), c, i + 1, at, whole, r);
    }
  }

  lemma {:induction false} TouredBaseReal(p: Decls, t: Tour, c: nat, i: nat, at: Subobject, whole: nat, r: seq<nat>)
    requires c < |p.h| && i < |p.h[c]| && whole < |p.h| && LeadsTo(p.h, whole, r, c, at) && AllReal(p.h, whole, t)
    ensures AllReal(p.h, whole, TouredBase(p, t, c, i, at))
    decreases c, 0
  {
    var e := p.h[c][i];
    if p.polymorphic[e.cls] && !(e.isVirtual && e.cls in t.seen) {
      OneStepFurther(p.h, whole, r, c, at, i);
      TouredReal(p, if e.isVirtual then t.(seen := t.seen + {e.cls}) else t, e.cls, e.isVirtual, Step(p.h, at, c, i),
                 whole, r + [i]);
    }
  }

  lemma OneStepFurther(h: Lattice, whole: nat, r: seq<nat>, c: nat, at: Subobject, i: nat)
    requires whole < |h| && c < |h| && i < |h[c]| && LeadsTo(h, whole, r, c, at)
    ensures LeadsTo(h, whole, r + [i], h[c][i].cls, Step(h, at, c, i))
  {
    assert [i][1..] == [];
    assert IsPath(h, h[c][i].cls, []) && End(h, h[c][i].cls, []) == h[c][i].cls;
    assert IsPath(h, c, [i]) && End(h, c, [i]) == End(h, h[c][i].cls, [i][1..]);
    PathAppend(h, whole, r, [i]);
    FromStep(h, at, c, [i]);
    assert Step(h, at, c, i).steps + [] == Step(h, at, c, i).steps;
  }

  // ---------- The theorem ----------

  /** The tour of a whole object of class `c`. */
  function FullTour(p: Decls, c: nat): Tour
    requires c < |p.h|
  {
    Toured(p, SETTING_OUT, c, false, WHOLE)
  }

  /** `n` is the number that the collection for class `c` gives to the subobject `s` of class `b`. */
  ghost predicate IsNumber(t: Tour, b: nat, s: Subobject, n: nat) {
    exists k: nat :: Name(b, s, k) in t.names && n == k % UINT
  }

  /** Collecting for class `c` names every subobject of a polymorphic class, and that of `c` itself, exactly
      once, and nothing else: each virtual base is walked once, and no subobject is missed. */
  lemma {:induction false} EverySubobjectIsNamedOnce(p: Decls, c: nat, b: nat, s: Subobject)
    requires c < |p.h| && b < |p.h| && (b == c || p.polymorphic[b])
    ensures var t := FullTour(p, c);
      && (IsNamed(t, b, s) <==> IsSubobject(p.h, c, b, s))
      && WellNamed(t) && InStep(Collected(p, START, c, false, None, map[]).0, t)
  {
    var t := FullTour(p, c);
    CollectedInStep(p, START, SETTING_OUT, c, false, WHOLE, None, map[]);
    TouredWellNamed(p, SETTING_OUT, c, false, WHOLE);
    TouredCovers(p, SETTING_OUT, c, false, WHOLE);
    assert LeadsTo(p.h, c, [], c, WHOLE);
    TouredReal(p, SETTING_OUT, c, false, WHOLE, c, []);
    forall q | IsPath(p.h, c, q) && End(p.h, c, q) == b
      ensures IsNamed(t, b, Denote(p.h, c, q))
    {
      PathIsNamed(p, t, c, WHOLE, q);
      assert [] + Denote(p.h, c, q).steps == Denote(p.h, c, q).steps;
    }
  }

  /** A subobject has one number. */
  lemma NumberIsUnique(t: Tour, b: nat, s: Subobject, n: nat, m: nat)
    requires WellNamed(t) && IsNumber(t, b, s, n) && IsNumber(t, b, s, m)
    ensures n == m
  {
    var j: nat :| Name(b, s, j) in t.names && n == j % UINT;
    var k: nat :| Name(b, s, k) in t.names && m == k % UINT;
  }

  // ---------- When the numbers tell subobjects apart ----------

  /** The subobjects of class `b` in the places from 1 to `k`. */
  ghost function InPlaces(t: Tour, b: nat, k: nat): (r: seq<Subobject>)
    requires WellNamed(t) && k <= CountSoFar(t, b)
    ensures |r| == k && forall i :: 0 <= i < k ==> Name(b, r[i], i + 1) in t.names
  {
    if k == 0 then []
    else
      assert Placed(t, b, k);
      var s :| Name(b, s, k) in t.names;
      InPlaces(t, b, k - 1) + [s]
  }

  /** As many subobjects were counted as there are besides the virtual base. */
  lemma CountIsExact(p: Decls, c: nat, b: nat)
    requires c < |p.h| && b < |p.h| && (b == c || p.polymorphic[b])
    ensures CountSoFar(FullTour(p, c), b) == OrdinaryCount(p.h, c, b)
  {
    var t := FullTour(p, c);
    EverySubobjectIsNamedOnce(p, c, b, WHOLE);
    var found := InPlaces(t, b, CountSoFar(t, b));
    forall i, j | 0 <= i < j < |found|
      ensures found[i] != found[j]
    {
      assert Name(b, found[i], i + 1) in t.names && Name(b, found[j], j + 1) in t.names;
    }
    DistinctSize(found);
    forall s
      ensures s in found <==> s in Subobjects(p.h, c, b) && s != Virtual(b)
    {
      EverySubobjectIsNamedOnce(p, c, b, s);
      SubobjectListMembers(p.h, c, b, s);
      FoundIsNamed(t, b, found, s);
    }
    assert (set s | s in found) == Subobjects(p.h, c, b) - {Virtual(b)};
    VirtualBaseIsSubobject(p.h, c, b);
    SubobjectListMembers(p.h, c, b, Virtual(b));
  }

  lemma FoundIsNamed(t: Tour, b: nat, found: seq<Subobject>, s: Subobject)
    requires WellNamed(t) && found == InPlaces(t, b, CountSoFar(t, b))
    ensures s in found <==> IsNamed(t, b, s) && s != Virtual(b)
  {
    if s in found {
      var j :| 0 <= j < |found| && found[j] == s;
      assert Name(b, s, j + 1) in t.names;
      assert NamedRightly(t, Name(b, s, j + 1));
    }
    if IsNamed(t, b, s) && s != Virtual(b) {
      var k: nat :| Name(b, s, k) in t.names;
      assert NamedRightly(t, Name(b, s, k));
      assert Name(b, found[k - 1], k - 1 + 1) in t.names;
      assert found[k - 1] == s;
    }
  }

  /** Different subobjects of class `b` have different numbers. */
  ghost predicate NumbersDiffer(t: Tour, b: nat) {
    forall s, s', n: nat :: IsNumber(t, b, s, n) && IsNumber(t, b, s', n) ==> s == s'
  }

  /** They do exactly when there are fewer than 2^32 besides the virtual base `b`, or just as many and no
      virtual base `b`. */
  lemma {:induction false} NumbersDifferExactlyWhen(p: Decls, c: nat, b: nat)
    requires c < |p.h| && b < |p.h| && (b == c || p.polymorphic[b])
    ensures NumbersDiffer(FullTour(p, c), b) <==>
            OrdinaryCount(p.h, c, b) < UINT || (OrdinaryCount(p.h, c, b) == UINT && !IsVBase(p.h, c, b))
  {
    var t := FullTour(p, c);
    EverySubobjectIsNamedOnce(p, c, b, Virtual(b));
    CountIsExact(p, c, b);
    VirtualBaseIsSubobject(p.h, c, b);
    if IsNamed(t, b, Virtual(b)) {
      var k :| Name(b, Virtual(b), k) in t.names;
      assert NamedRightly(t, Name(b, Virtual(b), k));
    }
    if CountSoFar(t, b) < UINT || (CountSoFar(t, b) == UINT && !IsVBase(p.h, c, b)) {
      FewNumbersDiffer(t, b);
    } else if CountSoFar(t, b) > UINT {
      SameNumber(t, b, 1, UINT + 1);
    } else {
      SameNumber(t, b, 0, UINT);
    }
  }

  lemma FewNumbersDiffer(t: Tour, b: nat)
    requires WellNamed(t)
    requires CountSoFar(t, b) < UINT || (CountSoFar(t, b) == UINT && !IsNamed(t, b, Virtual(b)))
    ensures NumbersDiffer(t, b)
  {
    forall s, s', n: nat | IsNumber(t, b, s, n) && IsNumber(t, b, s', n)
      ensures s == s'
    {
      var j: nat :| Name(b, s, j) in t.names && n == j % UINT;
      var k: nat :| Name(b, s', k) in t.names && n == k % UINT;
      assert NamedRightly(t, Name(b, s, j)) && NamedRightly(t, Name(b, s', k));
      SamePlace(j, k, CountSoFar(t, b));
    }
  }

  lemma SamePlace(j: nat, k: nat, n: nat)
    requires j <= n && k <= n && j % UINT == k % UINT
    requires n < UINT || (n == UINT && j > 0 && k > 0)
    ensures j == k
  {
  }

  lemma SameNumber(t: Tour, b: nat, j: nat, k: nat)
    requires WellNamed(t) && j < k <= CountSoFar(t, b) && j % UINT == k % UINT
    requires j == 0 ==> Name(b, Virtual(b), 0) in t.names
    ensures !NumbersDiffer(t, b)
  {
    assert Placed(t, b, k);
    assert j > 0 ==> Placed(t, b, j);
    var s :| Name(b, s, k) in t.names;
    var s' :| Name(b, s', j) in t.names;
    assert IsNumber(t, b, s, k % UINT) && IsNumber(t, b, s', k % UINT);
    assert s != s';
  }

  /** A ladder whose lowest class declares a virtual method. */
  function LadderProgram(levels: nat): Decls {
    var h := Ladder(levels);
    Program(h, [MethodDecl(0, true, [])], seq(|h|, c requires 0 <= c < |h| => if c == 0 then [0] else []),
            seq(|h|, c requires 0 <= c < |h| => true))
  }

  /** With 33 levels there are 2^33 subobjects of class 0, and their numbers do not differ. */
  lemma LadderNumbersAgree(levels: nat)
    requires levels == 33
    ensures !NumbersDiffer(FullTour(LadderProgram(levels), 3 * levels), 0)
  {
    LadderCount(levels);
    PowersNearUInt();
    assert Pow2(33) == 2 * UINT;
    NumbersDifferExactlyWhen(LadderProgram(levels), 3 * levels, 0);
  }
}
