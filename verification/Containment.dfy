/// Subobjects inside subobjects, and the outermost ones whose class has some property.

module Containment {
  import opened Hierarchy
  import opened SubobjectCounting

  type Property = nat -> bool

  // ---------- Paths end to end ----------

  /** What `d`, seen from the class of `t`, is in the whole object. */
  function From(t: Subobject, d: Subobject): Subobject {
    if d.start.VirtualBase? then d else Subobject(t.start, t.steps + d.steps)
  }

  lemma FromTwice(t: Subobject, d: Subobject, e: Subobject)
    ensures From(From(t, d), e) == From(t, From(d, e))
  {
    assert t.steps + d.steps + e.steps == t.steps + (d.steps + e.steps);
  }

  lemma {:induction false} PathAppend(h: Lattice, c: nat, p: seq<nat>, q: seq<nat>)
    requires c < |h| && IsPath(h, c, p) && IsPath(h, End(h, c, p), q)
    ensures IsPath(h, c, p + q) && End(h, c, p + q) == End(h, End(h, c, p), q)
    ensures Denote(h, c, p + q) == From(Denote(h, c, p), Denote(h, End(h, c, p), q))
    decreases |p|
  {
    if p == [] {
      assert p + q == q;
      DenoteShape(h, c, q);
    } else {
      PathAppend(h, h[c][p[0]].cls, p[1..], q);
      assert (p + q)[1..] == p[1..] + q;
      FromTwice(Subobject(MostDerived, [p[0]]), Denote(h, h[c][p[0]].cls, p[1..]), Denote(h, End(h, c, p), q));
    }
  }

  lemma {:induction false} PathSplits(h: Lattice, c: nat, p: seq<nat>, q: seq<nat>)
    requires c < |h| && IsPath(h, c, p + q)
    ensures IsPath(h, c, p) && IsPath(h, End(h, c, p), q)
    decreases |p|
  {
    if p == [] {
      assert p + q == q;
    } else {
      assert (p + q)[1..] == p[1..] + q;
      PathSplits(h, h[c][p[0]].cls, p[1..], q);
    }
  }

  lemma PathPrefix(h: Lattice, c: nat, p: seq<nat>, k: nat)
    requires c < |h| && IsPath(h, c, p) && k <= |p|
    ensures IsPath(h, c, p[..k]) && IsPath(h, End(h, c, p[..k]), p[k..])
    ensures End(h, End(h, c, p[..k]), p[k..]) == End(h, c, p)
    ensures Denote(h, c, p) == From(Denote(h, c, p[..k]), Denote(h, End(h, c, p[..k]), p[k..]))
  {
    assert p[..k] + p[k..] == p;
    PathSplits(h, c, p[..k], p[k..]);
    PathAppend(h, c, p[..k], p[k..]);
  }

  /** The class at which the non-virtual steps of `s` start. */
  function StartClass(c: nat, s: Subobject): nat {
    if s.start.VirtualBase? then s.start.cls else c
  }

  /** Every path ends by the non-virtual steps of what it denotes. */
  lemma {:induction false} EndsBySteps(h: Lattice, c: nat, p: seq<nat>) returns (k: nat)
    requires c < |h| && IsPath(h, c, p)
    ensures k <= |p| && p[k..] == Denote(h, c, p).steps && IsPath(h, c, p[..k])
    ensures End(h, c, p[..k]) == StartClass(c, Denote(h, c, p))
    ensures Denote(h, c, p).start.VirtualBase? ==> k > 0 && LastEdge(h, c, p[..k]).isVirtual
    decreases |p|
  {
    k := 0;
    if p != [] {
      var e := h[c][p[0]];
      DenoteShape(h, c, p);
      if Denote(h, c, p).start.VirtualBase? {
        var inner := EndsBySteps(h, e.cls, p[1..]);
        k := inner + 1;
        assert p[..k][1..] == p[1..][..inner] && p[k..] == p[1..][inner..];
        assert inner > 0 || (e.isVirtual && p[..k] == [p[0]]);
      }
    }
  }

  /** A subobject is of one class. */
  lemma SameClass(h: Lattice, c: nat, p: seq<nat>, q: seq<nat>)
    requires c < |h| && IsPath(h, c, p) && IsPath(h, c, q) && Denote(h, c, p) == Denote(h, c, q)
    ensures End(h, c, p) == End(h, c, q)
  {
    var i := EndsBySteps(h, c, p);
    var j := EndsBySteps(h, c, q);
    PathPrefix(h, c, p, i);
    PathPrefix(h, c, q, j);
  }

  /** The number of subobjects of class `b` other than the virtual base `b` itself. */
  function OrdinaryCount(h: Lattice, c: nat, b: nat): int
    requires c < |h|
  {
    |Subobjects(h, c, b)| - if IsVBase(h, c, b) then 1 else 0
  }

  lemma VirtualBaseIsSubobject(h: Lattice, c: nat, b: nat)
    requires c < |h|
    ensures IsVBase(h, c, b) <==> IsSubobject(h, c, b, Subobject(VirtualBase(b), []))
  {
    if IsVBase(h, c, b) {
      VBaseBelow(h, c, b);
      var p := PathThroughVirtual(h, c, b, []);
    }
    forall p | IsPath(h, c, p) && Denote(h, c, p) == Subobject(VirtualBase(b), [])
      ensures IsVBase(h, c, b)
    {
      DenoteShape(h, c, p);
    }
  }

  // ---------- Containment ----------

  /** `q` leads from the subobject `t` of class `a` to its proper base subobject `s` of class `b`. */
  ghost predicate LeadsInto(h: Lattice, a: nat, t: Subobject, b: nat, s: Subobject, q: seq<nat>) {
    a < |h| && q != [] && IsPath(h, a, q) && End(h, a, q) == b && From(t, Denote(h, a, q)) == s
  }

  /** `s`, of class `b`, is a proper base subobject of `t`, of class `a`. */
  ghost predicate Contains(h: Lattice, a: nat, t: Subobject, b: nat, s: Subobject) {
    exists q :: LeadsInto(h, a, t, b, s, q)
  }

  ghost predicate ContainsOrIs(h: Lattice, a: nat, t: Subobject, b: nat, s: Subobject) {
    (a == b && t == s) || Contains(h, a, t, b, s)
  }

  /** A containing subobject is of a more derived class, so containment is irreflexive. */
  lemma {:induction false} ContainsMeansDerived(h: Lattice, a: nat, t: Subobject, b: nat, s: Subobject)
    requires a < |h| && Contains(h, a, t, b, s)
    ensures b < a
  {
  }

  lemma {:induction false} ContainsTransitively(h: Lattice, a: nat, t: Subobject, b: nat, s: Subobject, d: nat,
                                                r: Subobject)
    requires Contains(h, a, t, b, s) && Contains(h, b, s, d, r)
    ensures Contains(h, a, t, d, r)
  {
    var p :| LeadsInto(h, a, t, b, s, p);
    var q :| LeadsInto(h, b, s, d, r, q);
    PathAppend(h, a, p, q);
    FromTwice(t, Denote(h, a, p), Denote(h, b, q));
    assert LeadsInto(h, a, t, d, r, p + q);
  }

  /** Every subobject reached through a virtual base of `a` lies in every `a` subobject. */
  lemma {:induction false} InVirtualBase(h: Lattice, a: nat, t: Subobject, v: nat, q: seq<nat>)
    requires a < |h| && VirtuallyDerives(h, a, v) && v < |h| && IsPath(h, v, q)
    ensures Contains(h, a, t, End(h, v, q), From(Subobject(VirtualBase(v), []), Denote(h, v, q)))
  {
    VBaseIsVirtuallyDerived(h, a, v);
    VBaseBelow(h, a, v);
    var p := PathThroughVirtual(h, a, v, []);
    PathAppend(h, a, p, q);
    assert LeadsInto(h, a, t, End(h, v, q), From(Subobject(VirtualBase(v), []), Denote(h, v, q)), p + q);
  }

  lemma {:induction false} VirtualEnd(h: Lattice, c: nat, p: seq<nat>)
    requires c < |h| && IsPath(h, c, p) && p != []
    ensures if LastEdge(h, c, p).isVirtual then Denote(h, c, p) == Subobject(VirtualBase(End(h, c, p)), [])
            else Denote(h, c, p).steps != []
    decreases |p|
  {
    if |p| > 1 {
      VirtualEnd(h, h[c][p[0]].cls, p[1..]);
    } else {
      assert p[1..] == [];
    }
  }

  // ---------- Outermost subobjects of classes with a property ----------

  /** No class on `p` before its end has the property. */
  ghost predicate Clean(h: Lattice, has: Property, c: nat, p: seq<nat>)
    requires c < |h| && IsPath(h, c, p)
    decreases |p|
  {
    p != [] ==> !has(c) && Clean(h, has, h[c][p[0]].cls, p[1..])
  }

  lemma {:induction false} CleanBefore(h: Lattice, has: Property, c: nat, p: seq<nat>, k: nat)
    requires c < |h| && IsPath(h, c, p) && Clean(h, has, c, p) && k < |p|
    ensures IsPath(h, c, p[..k]) && !has(End(h, c, p[..k]))
    decreases k
  {
    PathPrefix(h, c, p, k);
    if k > 0 {
      CleanBefore(h, has, h[c][p[0]].cls, p[1..], k - 1);
      assert p[..k][1..] == p[1..][..k - 1];
    }
  }

  /** In an object of class `c`, no subobject of a class with the property properly contains `s`. */
  ghost predicate Outermost(h: Lattice, has: Property, c: nat, b: nat, s: Subobject)
    requires c < |h|
  {
    forall r :: IsPath(h, c, r) && has(End(h, c, r)) ==> !Contains(h, End(h, c, r), Denote(h, c, r), b, s)
  }

  /** Every path to an outermost subobject is clean. */
  lemma {:induction false} OutermostIsClean(h: Lattice, has: Property, c: nat, p: seq<nat>)
    requires c < |h| && IsPath(h, c, p) && Outermost(h, has, c, End(h, c, p), Denote(h, c, p))
    ensures Clean(h, has, c, p)
  {
    CleanFrom(h, has, c, p, 0);
  }

  lemma {:induction false} CleanFrom(h: Lattice, has: Property, c: nat, p: seq<nat>, k: nat)
    requires c < |h| && IsPath(h, c, p) && Outermost(h, has, c, End(h, c, p), Denote(h, c, p)) && k <= |p|
    ensures IsPath(h, c, p[..k]) && IsPath(h, End(h, c, p[..k]), p[k..]) && Clean(h, has, End(h, c, p[..k]), p[k..])
    decreases |p| - k
  {
    PathPrefix(h, c, p, k);
    if k < |p| {
      var d := End(h, c, p[..k]);
      CleanFrom(h, has, c, p, k + 1);
      assert LeadsInto(h, d, Denote(h, c, p[..k]), End(h, c, p), Denote(h, c, p), p[k..]);
      assert p[..k + 1] == p[..k] + [p[k]] && p[k..][1..] == p[k + 1..];
      assert [p[k]][1..] == [] && IsPath(h, d, [p[k]]);
      PathAppend(h, c, p[..k], [p[k]]);
    }
  }

  /** Above every subobject of a class with the property there is an outermost one. */
  lemma {:induction false} OutermostAbove(h: Lattice, has: Property, c: nat, r: seq<nat>) returns (o: seq<nat>)
    requires c < |h| && IsPath(h, c, r) && has(End(h, c, r))
    ensures IsPath(h, c, o) && has(End(h, c, o)) && Outermost(h, has, c, End(h, c, o), Denote(h, c, o))
    ensures ContainsOrIs(h, End(h, c, o), Denote(h, c, o), End(h, c, r), Denote(h, c, r))
    decreases c - End(h, c, r)
  {
    if Outermost(h, has, c, End(h, c, r), Denote(h, c, r)) {
      o := r;
    } else {
      var above :| IsPath(h, c, above) && has(End(h, c, above)) &&
        Contains(h, End(h, c, above), Denote(h, c, above), End(h, c, r), Denote(h, c, r));
      ContainsMeansDerived(h, End(h, c, above), Denote(h, c, above), End(h, c, r), Denote(h, c, r));
      o := OutermostAbove(h, has, c, above);
      if o != above && !(End(h, c, o) == End(h, c, above) && Denote(h, c, o) == Denote(h, c, above)) {
        ContainsTransitively(h, End(h, c, o), Denote(h, c, o), End(h, c, above), Denote(h, c, above),
                             End(h, c, r), Denote(h, c, r));
      }
    }
  }

  /** A path that ends by the steps of `t` and then `q` passes through the class of `t`. */
  lemma {:induction false} PassesThrough(h: Lattice, c: nat, p: seq<nat>, r: seq<nat>, q: seq<nat>) returns (k: nat)
    requires c < |h| && IsPath(h, c, p) && IsPath(h, c, r) && q != []
    requires Denote(h, c, p) == Subobject(Denote(h, c, r).start, Denote(h, c, r).steps + q)
    ensures k < |p| && IsPath(h, c, p[..k]) && End(h, c, p[..k]) == End(h, c, r)
  {
    var i := EndsBySteps(h, c, p);
    var j := EndsBySteps(h, c, r);
    var steps := Denote(h, c, r).steps;
    k := i + |steps|;
    assert p == p[..i] + (steps + q);
    assert r == r[..j] + steps;
    SameEnd(h, c, p[..i], r[..j], steps, q);
    assert p[..k] == p[..i] + steps;
  }

  /** Two paths to one class that go on by the same steps end at one class. */
  lemma SameEnd(h: Lattice, c: nat, a: seq<nat>, b: seq<nat>, steps: seq<nat>, q: seq<nat>)
    requires c < |h| && IsPath(h, c, a) && IsPath(h, c, b) && End(h, c, a) == End(h, c, b)
    requires IsPath(h, c, a + (steps + q)) && IsPath(h, c, b + steps)
    ensures IsPath(h, c, a + steps) && End(h, c, a + steps) == End(h, c, b + steps)
  {
    EndOfFront(h, c, a, steps, q);
    assert b + steps == b + (steps + []);
    EndOfFront(h, c, b, steps, []);
  }

  /** Where a path is after two of its three parts. */
  lemma EndOfFront(h: Lattice, c: nat, first: seq<nat>, second: seq<nat>, third: seq<nat>)
    requires c < |h| && IsPath(h, c, first + (second + third))
    ensures IsPath(h, c, first) && IsPath(h, End(h, c, first), second) && IsPath(h, c, first + second)
    ensures End(h, c, first + second) == End(h, End(h, c, first), second)
  {
    PathSplits(h, c, first, second + third);
    PathSplits(h, End(h, c, first), second, third);
    PathAppend(h, c, first, second);
  }

  /** A subobject reached by a clean path can be contained in one of a class with the property only
      through a virtual base of that class. */
  lemma {:induction false} CleanContainedVirtually(h: Lattice, has: Property, c: nat, p: seq<nat>, r: seq<nat>)
    requires c < |h| && IsPath(h, c, p) && Clean(h, has, c, p)
    requires IsPath(h, c, r) && has(End(h, c, r))
    requires Contains(h, End(h, c, r), Denote(h, c, r), End(h, c, p), Denote(h, c, p))
    ensures Denote(h, c, p).start.VirtualBase? && VirtuallyDerives(h, End(h, c, r), Denote(h, c, p).start.cls)
  {
    var a, t := End(h, c, r), Denote(h, c, r);
    var q :| LeadsInto(h, a, t, End(h, c, p), Denote(h, c, p), q);
    DenoteShape(h, a, q);
    if Denote(h, a, q).start.VirtualBase? {
      VBaseIsVirtuallyDerived(h, a, Denote(h, c, p).start.cls);
    } else {
      var k := PassesThrough(h, c, p, r, q);
      CleanBefore(h, has, c, p, k);
    }
  }
}
