/// Which overriders the collection lists in which slot: those reached by an inheritance path to the
/// subobject on which no more derived class overrides the method.

module OverriderMeaning {
  import opened Prelude
  import opened Hierarchy
  import opened Containment
  import opened Overriders
  import opened FinalOverriders
  import opened SubobjectNumbers

  // ---------- The specification ----------

  /** Class `c` declares, from its `k`-th method on, a virtual method that overrides `m` (or is `m`). */
  predicate DeclaresFrom(p: Decls, c: nat, k: nat, m: nat)
    requires c < |p.h|
  {
    exists j :: k <= j < |p.methodsOf[c]| && p.decls[p.methodsOf[c][j]].isVirtual && Overrides(p, p.methodsOf[c][j], m)
  }

  /** `x` is the last such method. */
  ghost predicate LastFrom(p: Decls, c: nat, k: nat, m: nat, x: nat)
    requires c < |p.h|
  {
    exists j :: k <= j < |p.methodsOf[c]| && p.methodsOf[c][j] == x && p.decls[x].isVirtual &&
      Overrides(p, x, m) && !DeclaresFrom(p, c, j + 1, m)
  }

  /** The closest virtual base around a subobject. */
  function VirtualOf(s: Subobject): Option<nat> {
    if s.start.VirtualBase? then Some(s.start.cls) else None
  }

  /** `u` is the overrider of `m` declared in the subobject `at` of class `c`. */
  ghost predicate DeclaredAt(p: Decls, t: Tour, c: nat, at: Subobject, m: nat, u: UniqueVirtualMethod)
    requires c < |p.h|
  {
    LastFrom(p, c, 0, m, u.method_) && IsNumber(t, c, at, u.subobject) && u.inVirtual == VirtualOf(at)
  }

  ghost predicate Own(p: Decls, c: nat, m: nat) {
    m < |p.decls| && p.decls[m].isVirtual && p.decls[m].parent == c
  }

  /** `n` is the number of a subobject at or below `at` whose class has the virtual method `m`. */
  ghost predicate IsSlot(p: Decls, t: Tour, c: nat, at: Subobject, m: nat, n: nat)
    requires c < |p.h|
    decreases c, |p.h[c]| + 1
  {
    (Own(p, c, m) && IsNumber(t, c, at, n)) || IsSlotUpTo(p, t, c, |p.h[c]|, at, m, n)
  }

  ghost predicate IsSlotUpTo(p: Decls, t: Tour, c: nat, i: nat, at: Subobject, m: nat, n: nat)
    requires c < |p.h| && i <= |p.h[c]|
    decreases c, i
  {
    i > 0 && (IsSlotUpTo(p, t, c, i - 1, at, m, n) || IsSlot(p, t, p.h[c][i - 1].cls, Step(p.h, at, c, i - 1), m, n))
  }

  /** `u` overrides `m` in slot `n`, as seen from the subobject `at` of class `c`: the most derived class that
      overrides `m` at all on some way down declares it. */
  ghost predicate Overriding(p: Decls, t: Tour, c: nat, at: Subobject, m: nat, n: nat, u: UniqueVirtualMethod)
    requires c < |p.h|
    decreases c, |p.h[c]| + 1
  {
    if DeclaresFrom(p, c, 0, m) then IsSlot(p, t, c, at, m, n) && DeclaredAt(p, t, c, at, m, u)
    else OverridingUpTo(p, t, c, |p.h[c]|, at, m, n, u)
  }

  ghost predicate OverridingUpTo(p: Decls, t: Tour, c: nat, i: nat, at: Subobject, m: nat, n: nat,
                                 u: UniqueVirtualMethod)
    requires c < |p.h| && i <= |p.h[c]|
    decreases c, i
  {
    i > 0 && (OverridingUpTo(p, t, c, i - 1, at, m, n, u) ||
              Overriding(p, t, p.h[c][i - 1].cls, Step(p.h, at, c, i - 1), m, n, u))
  }

  // ---------- The specification with paths ----------

  /** Path `q` leads from `at` to a subobject with slot `n` of `m`. */
  ghost predicate SlotAlong(p: Decls, t: Tour, c: nat, at: Subobject, m: nat, n: nat, q: seq<nat>)
    requires c < |p.h|
  {
    IsPath(p.h, c, q) && Own(p, End(p.h, c, q), m) && IsNumber(t, End(p.h, c, q), From(at, Denote(p.h, c, q)), n)
  }

  lemma {:induction false} SlotPath(p: Decls, t: Tour, c: nat, at: Subobject, m: nat, n: nat) returns (q: seq<nat>)
    requires c < |p.h| && IsSlot(p, t, c, at, m, n)
    ensures SlotAlong(p, t, c, at, m, n, q)
    decreases c
  {
    if Own(p, c, m) && IsNumber(t, c, at, n) {
      q := [];
      assert From(at, Denote(p.h, c, q)) == at;
    } else {
      var i := SlotBase(p, t, c, |p.h[c]|, at, m, n);
      var rest := SlotPath(p, t, p.h[c][i].cls, Step(p.h, at, c, i), m, n);
      q := [i] + rest;
      assert q[1..] == rest;
      FromStep(p.h, at, c, q);
    }
  }

  lemma {:induction false} SlotBase(p: Decls, t: Tour, c: nat, k: nat, at: Subobject, m: nat, n: nat) returns (i: nat)
    requires c < |p.h| && k <= |p.h[c]| && IsSlotUpTo(p, t, c, k, at, m, n)
    ensures i < k && IsSlot(p, t, p.h[c][i].cls, Step(p.h, at, c, i), m, n)
    decreases k
  {
    if IsSlotUpTo(p, t, c, k - 1, at, m, n) {
      i := SlotBase(p, t, c, k - 1, at, m, n);
    } else {
      i := k - 1;
    }
  }

  lemma {:induction false} BaseSlot(p: Decls, t: Tour, c: nat, k: nat, at: Subobject, m: nat, n: nat, i: nat)
    requires c < |p.h| && i < k <= |p.h[c]| && IsSlot(p, t, p.h[c][i].cls, Step(p.h, at, c, i), m, n)
    ensures IsSlotUpTo(p, t, c, k, at, m, n)
    decreases k
  {
    if i < k - 1 {
      BaseSlot(p, t, c, k - 1, at, m, n, i);
    }
  }

  lemma {:induction false} PathSlot(p: Decls, t: Tour, c: nat, at: Subobject, m: nat, n: nat, q: seq<nat>)
    requires c < |p.h| && SlotAlong(p, t, c, at, m, n, q)
    ensures IsSlot(p, t, c, at, m, n)
    decreases |q|
  {
    if q == [] {
      assert From(at, Denote(p.h, c, q)) == at;
    } else {
      FromStep(p.h, at, c, q);
      PathSlot(p, t, p.h[c][q[0]].cls, Step(p.h, at, c, q[0]), m, n, q[1..]);
      BaseSlot(p, t, c, |p.h[c]|, at, m, n, q[0]);
    }
  }

  /** The classes that declare an overrider of `m`. */
  function Declaring(p: Decls, m: nat): Property {
    (a: nat) => a < |p.h| && DeclaresFrom(p, a, 0, m)
  }

  /** Path `q` leads to the subobject that declares `u`, and no class before overrides `m`; slot `n` lies below. */
  ghost predicate OverridingAlong(p: Decls, t: Tour, c: nat, at: Subobject, m: nat, n: nat, u: UniqueVirtualMethod,
                                  q: seq<nat>)
    requires c < |p.h|
  {
    IsPath(p.h, c, q) && Clean(p.h, Declaring(p, m), c, q) &&
    var s := From(at, Denote(p.h, c, q));
    DeclaredAt(p, t, End(p.h, c, q), s, m, u) && IsSlot(p, t, End(p.h, c, q), s, m, n)
  }

  lemma {:induction false} OverridingPath(p: Decls, t: Tour, c: nat, at: Subobject, m: nat, n: nat,
                                          u: UniqueVirtualMethod)
    returns (q: seq<nat>)
    requires c < |p.h| && Overriding(p, t, c, at, m, n, u)
    ensures OverridingAlong(p, t, c, at, m, n, u, q)
    decreases c
  {
    if DeclaresFrom(p, c, 0, m) {
      q := [];
      assert From(at, Denote(p.h, c, q)) == at;
    } else {
      var i := OverridingBase(p, t, c, |p.h[c]|, at, m, n, u);
      var rest := OverridingPath(p, t, p.h[c][i].cls, Step(p.h, at, c, i), m, n, u);
      q := [i] + rest;
      assert q[1..] == rest;
      FromStep(p.h, at, c, q);
    }
  }

  lemma {:induction false} OverridingBase(p: Decls, t: Tour, c: nat, k: nat, at: Subobject, m: nat, n: nat,
                                          u: UniqueVirtualMethod) returns (i: nat)
    requires c < |p.h| && k <= |p.h[c]| && OverridingUpTo(p, t, c, k, at, m, n, u)
    ensures i < k && Overriding(p, t, p.h[c][i].cls, Step(p.h, at, c, i), m, n, u)
    decreases k
  {
    if OverridingUpTo(p, t, c, k - 1, at, m, n, u) {
      i := OverridingBase(p, t, c, k - 1, at, m, n, u);
    } else {
      i := k - 1;
    }
  }

  lemma {:induction false} BaseOverriding(p: Decls, t: Tour, c: nat, k: nat, at: Subobject, m: nat, n: nat,
                                          u: UniqueVirtualMethod, i: nat)
    requires c < |p.h| && i < k <= |p.h[c]| && Overriding(p, t, p.h[c][i].cls, Step(p.h, at, c, i), m, n, u)
    ensures OverridingUpTo(p, t, c, k, at, m, n, u)
    decreases k
  {
    if i < k - 1 {
      BaseOverriding(p, t, c, k - 1, at, m, n, u, i);
    }
  }

  lemma {:induction false} PathOverriding(p: Decls, t: Tour, c: nat, at: Subobject, m: nat, n: nat,
                                          u: UniqueVirtualMethod, q: seq<nat>)
    requires c < |p.h| && OverridingAlong(p, t, c, at, m, n, u, q)
    ensures Overriding(p, t, c, at, m, n, u)
    decreases |q|
  {
    if q == [] {
      assert From(at, Denote(p.h, c, q)) == at;
    } else {
      FromStep(p.h, at, c, q);
      PathOverriding(p, t, p.h[c][q[0]].cls, Step(p.h, at, c, q[0]), m, n, u, q[1..]);
      BaseOverriding(p, t, c, |p.h[c]|, at, m, n, u, q[0]);
    }
  }

  // ---------- Declaring the methods of a class ----------

  lemma {:induction false} OverriddenIsEarlier(p: Decls, m: nat, k: nat, o: nat)
    requires m < |p.decls| && k <= |p.decls[m].overridden| && o in OverriddenUpTo(p, m, k)
    ensures o < m
    decreases m, k
  {
    var d := p.decls[m].overridden[k - 1];
    if o in OverriddenUpTo(p, m, k - 1) {
      OverriddenIsEarlier(p, m, k - 1, o);
    } else if o != d {
      OverriddenIsEarlier(p, d, |p.decls[d].overridden|, o);
    }
  }

  /** One declaration: all slots of what `x` overrides now list `x` alone, and `x` gets its own slot. */
  lemma {:induction false} DeclareMeaning(p: Decls, x: nat, num: nat, inV: Option<nat>, f: OverriderMap, m: nat, n: nat)
    requires x < |p.decls| && forall k: nat :: !HasSlot(f, x, k)
    ensures var r, u := Declare(p, x, num, inV, f), UniqueVirtualMethod(x, num, inV);
      && (HasSlot(r, m, n) <==> HasSlot(f, m, n) || (m == x && n == num))
      && (forall w :: Lists(r, m, n, w) <==>
            if Overrides(p, x, m) then w == u && HasSlot(r, m, n) else Lists(f, m, n, w))
  {
    var u := UniqueVirtualMethod(x, num, inV);
    if x in AllOverridden(p, x) {
      OverriddenIsEarlier(p, x, |p.decls[x].overridden|, x);
    }
    if m == x {
      assert forall k: nat :: k in For(f, x) ==> HasSlot(f, x, k);
      assert For(f, x) == map[];
      assert For(ReplaceIn(f, AllOverridden(p, x), u), x) == map[];
      assert AddTo([], u) == [u];
      assert Declare(p, x, num, inV, f)[x] == map[num := [u]];
    }
  }

  ghost predicate OwnFrom(p: Decls, c: nat, k: nat, m: nat)
    requires c < |p.h|
  {
    exists j :: k <= j < |p.methodsOf[c]| && p.methodsOf[c][j] == m && p.decls[m].isVirtual
  }

  /** No method of `c` from the `k`-th on has a slot. */
  ghost predicate StillNew(p: Decls, f: OverriderMap, c: nat, k: nat)
    requires c < |p.h|
  {
    forall j, n: nat :: k <= j < |p.methodsOf[c]| ==> !HasSlot(f, p.methodsOf[c][j], n)
  }

  lemma DeclareKeepsNew(p: Decls, c: nat, k: nat, num: nat, inV: Option<nat>, f: OverriderMap)
    requires c < |p.h| && k < |p.methodsOf[c]| && StillNew(p, f, c, k)
    ensures StillNew(p, f, c, k + 1) && StillNew(p, Declare(p, p.methodsOf[c][k], num, inV, f), c, k + 1)
  {
    var x := p.methodsOf[c][k];
    forall j, n: nat | k + 1 <= j < |p.methodsOf[c]|
      ensures !HasSlot(Declare(p, x, num, inV, f), p.methodsOf[c][j], n)
    {
      DeclareMeaning(p, x, num, inV, f, p.methodsOf[c][j], n);
    }
  }

  /** The slots of `m` after the methods of `c` from the `k`-th on were declared. */
  lemma {:induction false} DeclareFromSlots(p: Decls, c: nat, k: nat, num: nat, inV: Option<nat>, f: OverriderMap,
                                            m: nat, n: nat)
    requires c < |p.h| && k <= |p.methodsOf[c]| && StillNew(p, f, c, k)
    ensures HasSlot(DeclareFrom(p, c, k, num, inV, f), m, n) <==> HasSlot(f, m, n) || (OwnFrom(p, c, k, m) && n == num)
    decreases |p.methodsOf[c]| - k
  {
    if k < |p.methodsOf[c]| {
      var x := p.methodsOf[c][k];
      DeclareKeepsNew(p, c, k, num, inV, f);
      if p.decls[x].isVirtual {
        DeclareMeaning(p, x, num, inV, f, m, n);
        DeclareFromSlots(p, c, k + 1, num, inV, Declare(p, x, num, inV, f), m, n);
      } else {
        DeclareFromSlots(p, c, k + 1, num, inV, f, m, n);
      }
    }
  }

  /** And what they list. */
  lemma {:induction false} DeclareFromLists(p: Decls, c: nat, k: nat, num: nat, inV: Option<nat>, f: OverriderMap,
                                            m: nat, n: nat, w: UniqueVirtualMethod)
    requires c < |p.h| && k <= |p.methodsOf[c]| && StillNew(p, f, c, k)
    ensures var r := DeclareFrom(p, c, k, num, inV, f);
      Lists(r, m, n, w) <==>
      if DeclaresFrom(p, c, k, m)
      then LastFrom(p, c, k, m, w.method_) && w == UniqueVirtualMethod(w.method_, num, inV) && HasSlot(r, m, n)
      else Lists(f, m, n, w)
    decreases |p.methodsOf[c]| - k
  {
    if k < |p.methodsOf[c]| {
      var x := p.methodsOf[c][k];
      LastIsHereOrLater(p, c, k, m, w.method_);
      DeclareKeepsNew(p, c, k, num, inV, f);
      if p.decls[x].isVirtual {
        DeclareMeaning(p, x, num, inV, f, m, n);
        DeclareFromLists(p, c, k + 1, num, inV, Declare(p, x, num, inV, f), m, n, w);
        DeclareFromSlots(p, c, k + 1, num, inV, Declare(p, x, num, inV, f), m, n);
        if Overrides(p, x, m) && !DeclaresFrom(p, c, k + 1, m) {
          NoLaterSlot(p, c, k + 1, m);
        }
      } else {
        DeclareFromLists(p, c, k + 1, num, inV, f, m, n, w);
      }
    }
  }

  /** A method that is its own and not overridden later is declared later. */
  lemma NoLaterSlot(p: Decls, c: nat, k: nat, m: nat)
    requires c < |p.h| && !DeclaresFrom(p, c, k, m)
    ensures !OwnFrom(p, c, k, m)
  {
  }

  lemma LastIsHereOrLater(p: Decls, c: nat, k: nat, m: nat, y: nat)
    requires c < |p.h| && k < |p.methodsOf[c]|
    ensures var x := p.methodsOf[c][k];
      var here := p.decls[x].isVirtual && Overrides(p, x, m);
      && (DeclaresFrom(p, c, k, m) <==> here || DeclaresFrom(p, c, k + 1, m))
      && (LastFrom(p, c, k, m, y) <==>
            if DeclaresFrom(p, c, k + 1, m) then LastFrom(p, c, k + 1, m, y) else here && y == x)
  {
    if LastFrom(p, c, k, m, y) && DeclaresFrom(p, c, k + 1, m) {
      var j :| k <= j < |p.methodsOf[c]| && p.methodsOf[c][j] == y && p.decls[y].isVirtual &&
        Overrides(p, y, m) && !DeclaresFrom(p, c, j + 1, m);
      assert j != k;
    }
  }

  // ---------- The collection ----------

  /** `f` is right for the subobject `at` of class `c`. */
  ghost predicate Complete(p: Decls, t: Tour, f: OverriderMap, c: nat, at: Subobject)
    requires c < |p.h|
  {
    && (forall m: nat, n: nat :: HasSlot(f, m, n) <==> IsSlot(p, t, c, at, m, n))
    && (forall m: nat, n: nat, u :: Lists(f, m, n, u) <==> Overriding(p, t, c, at, m, n, u))
  }

  /** `f` is right for the first `i` bases of `c`. */
  ghost predicate CompleteUpTo(p: Decls, t: Tour, f: OverriderMap, c: nat, i: nat, at: Subobject)
    requires c < |p.h| && i <= |p.h[c]|
  {
    && (forall m: nat, n: nat :: HasSlot(f, m, n) <==> IsSlotUpTo(p, t, c, i, at, m, n))
    && (forall m: nat, n: nat, u :: Lists(f, m, n, u) <==> OverridingUpTo(p, t, c, i, at, m, n, u))
  }

  lemma {:induction false} MergeCompletes(p: Decls, t: Tour, f: OverriderMap, g: OverriderMap, c: nat, i: nat,
                                          at: Subobject)
    requires c < |p.h| && i < |p.h[c]| && Tidy(f) && Tidy(g)
    requires CompleteUpTo(p, t, f, c, i, at) && Complete(p, t, g, p.h[c][i].cls, Step(p.h, at, c, i))
    ensures CompleteUpTo(p, t, Merge(f, g), c, i + 1, at)
  {
    forall m: nat, n: nat
      ensures HasSlot(Merge(f, g), m, n) <==> IsSlotUpTo(p, t, c, i + 1, at, m, n)
    {
      MergeSlots(f, g, m, n);
    }
    forall m: nat, n: nat, u
      ensures Lists(Merge(f, g), m, n, u) <==> OverridingUpTo(p, t, c, i + 1, at, m, n, u)
    {
      MergeLists(f, g, m, n, u);
    }
  }

  /** A class that is not polymorphic has nothing to contribute. */
  lemma {:induction false} NothingWithoutVirtual(p: Decls, t: Tour, c: nat, at: Subobject, m: nat, n: nat,
                                                 u: UniqueVirtualMethod)
    requires c < |p.h| && !p.polymorphic[c]
    ensures !IsSlot(p, t, c, at, m, n) && !Overriding(p, t, c, at, m, n, u)
    decreases c, |p.h[c]| + 1
  {
    NothingUpTo(p, t, c, |p.h[c]|, at, m, n, u);
    assert !DeclaresFrom(p, c, 0, m);
  }

  lemma {:induction false} NothingUpTo(p: Decls, t: Tour, c: nat, i: nat, at: Subobject, m: nat, n: nat,
                                       u: UniqueVirtualMethod)
    requires c < |p.h| && !p.polymorphic[c] && i <= |p.h[c]|
    ensures !IsSlotUpTo(p, t, c, i, at, m, n) && !OverridingUpTo(p, t, c, i, at, m, n, u)
    decreases c, i
  {
    if i > 0 {
      NothingUpTo(p, t, c, i - 1, at, m, n, u);
      NothingWithoutVirtual(p, t, p.h[c][i - 1].cls, Step(p.h, at, c, i - 1), m, n, u);
    }
  }

  /** Slots below a class are those of its own methods and of methods of classes before it. */
  lemma {:induction false} SlotsAreBelow(p: Decls, t: Tour, c: nat, i: nat, at: Subobject, m: nat, n: nat)
    requires c < |p.h| && i <= |p.h[c]| && IsSlotUpTo(p, t, c, i, at, m, n)
    ensures m < |p.decls| && p.decls[m].parent < c
  {
    var j := SlotBase(p, t, c, i, at, m, n);
    var q := SlotPath(p, t, p.h[c][j].cls, Step(p.h, at, c, j), m, n);
  }

  /** Declaring the methods of the class itself completes the map. */
  lemma {:induction false} OwnMethodsComplete(p: Decls, t: Tour, c: nat, at: Subobject, num: nat, inV: Option<nat>,
                                              g: OverriderMap)
    requires c < |p.h| && WellNamed(t) && IsNumber(t, c, at, num) && inV == VirtualOf(at)
    requires CompleteUpTo(p, t, g, c, |p.h[c]|, at)
    ensures Complete(p, t, DeclareFrom(p, c, 0, num, inV, g), c, at)
  {
    var r := DeclareFrom(p, c, 0, num, inV, g);
    forall j, n: nat | 0 <= j < |p.methodsOf[c]|
      ensures !HasSlot(g, p.methodsOf[c][j], n)
    {
      if HasSlot(g, p.methodsOf[c][j], n) {
        SlotsAreBelow(p, t, c, |p.h[c]|, at, p.methodsOf[c][j], n);
      }
    }
    forall n: nat
      ensures IsNumber(t, c, at, n) <==> n == num
    {
      if IsNumber(t, c, at, n) {
        NumberIsUnique(t, c, at, n, num);
      }
    }
    forall m: nat, n: nat
      ensures HasSlot(r, m, n) <==> IsSlot(p, t, c, at, m, n)
    {
      DeclareFromSlots(p, c, 0, num, inV, g, m, n);
      assert Own(p, c, m) <==> OwnFrom(p, c, 0, m);
    }
    forall m: nat, n: nat, u
      ensures Lists(r, m, n, u) <==> Overriding(p, t, c, at, m, n, u)
    {
      DeclareFromLists(p, c, 0, num, inV, g, m, n, u);
    }
  }

  /** Every cached virtual base below `c` has been collected; those above are still in progress. */
  ghost predicate Ready(p: Decls, t: Tour, st: Progress, c: nat) {
    forall v :: v in st.virt && v < c && v < |p.h| ==> Complete(p, t, st.virt[v], v, Virtual(v)) && Tidy(st.virt[v])
  }

  /** Nothing cached is changed, and what is added lies below `c` and is complete. */
  ghost predicate Stable(p: Decls, t: Tour, st: Progress, st': Progress, c: nat) {
    && (forall v :: v in st.virt ==> v in st'.virt && st'.virt[v] == st.virt[v])
    && (forall v :: v in st'.virt && v !in st.virt ==>
          v < c && v < |p.h| && Complete(p, t, st'.virt[v], v, Virtual(v)) && Tidy(st'.virt[v]))
  }

  /** The whole tour `t` goes on from `from`. */
  ghost predicate PartOf(from: Tour, t: Tour) {
    WellNamed(t) && from.names <= t.names
  }

  lemma {:induction false} DeclareFromTidy(p: Decls, c: nat, k: nat, num: nat, inV: Option<nat>, f: OverriderMap)
    requires c < |p.h| && k <= |p.methodsOf[c]| && Tidy(f)
    ensures Tidy(DeclareFrom(p, c, k, num, inV, f))
    decreases |p.methodsOf[c]| - k
  {
    if k < |p.methodsOf[c]| {
      var x := p.methodsOf[c][k];
      ReplaceTidy(f, AllOverridden(p, x), UniqueVirtualMethod(x, num, inV));
      DeclareFromTidy(p, c, k + 1, num, inV, if p.decls[x].isVirtual then Declare(p, x, num, inV, f) else f);
    }
  }

  lemma {:induction false} CollectedMeaning(p: Decls, st: Progress, from: Tour, c: nat, virtualBase: bool,
                                            inV: Option<nat>, at: Subobject, r: (Progress, OverriderMap), t: Tour)
    requires c < |p.h| && r == Collected(p, st, c, virtualBase, inV, map[])
    requires InStep(st, from) && inV == VirtualOf(at) && Ready(p, t, st, c)
    requires PartOf(Toured(p, from, c, virtualBase, at), t)
    ensures Complete(p, t, r.1, c, at) && Tidy(r.1) && Stable(p, t, st, r.0, c)
    decreases c, |p.h[c]| + 2
  {
    var num := if virtualBase then 0 else NextNumber(st, c);
    var numbered := if virtualBase then st else st.(count := st.count[c := num]);
    var (st', g) := CollectedFrom(p, numbered, c, 0, inV, map[]);
    ArriveInStep(st, from, c, virtualBase, at);
    CollectedFromMeaning(p, numbered, Arrive(from, c, virtualBase, at), c, 0, inV, at, map[], (st', g), t);
    OwnNumber(p, st, from, c, virtualBase, at, num, t);
    OwnMethodsComplete(p, t, c, at, num, inV, g);
    DeclareFromTidy(p, c, 0, num, inV, g);
  }

  lemma OwnNumber(p: Decls, st: Progress, from: Tour, c: nat, virtualBase: bool, at: Subobject, num: nat, t: Tour)
    requires c < |p.h| && InStep(st, from) && PartOf(Toured(p, from, c, virtualBase, at), t)
    requires num == if virtualBase then 0 else NextNumber(st, c)
    ensures IsNumber(t, c, at, num)
  {
    var place := if virtualBase then 0 else CountSoFar(from, c) + 1;
    TouredGrows(p, from, c, virtualBase, at);
    assert Name(c, at, place) in Arrive(from, c, virtualBase, at).names;
    assert Name(c, at, place) in t.names;
    assert (CountSoFar(from, c) % UINT + 1) % UINT == (CountSoFar(from, c) + 1) % UINT;
  }

  lemma {:induction false} CollectedFromMeaning(p: Decls, st: Progress, from: Tour, c: nat, i: nat, inV: Option<nat>,
                                                at: Subobject, f: OverriderMap, r: (Progress, OverriderMap), t: Tour)
    requires c < |p.h| && i <= |p.h[c]| && r == CollectedFrom(p, st, c, i, inV, f)
    requires InStep(st, from) && inV == VirtualOf(at) && Ready(p, t, st, c)
    requires PartOf(TouredFrom(p, from, c, i, at), t)
    requires CompleteUpTo(p, t, f, c, i, at) && Tidy(f)
    ensures CompleteUpTo(p, t, r.1, c, |p.h[c]|, at) && Tidy(r.1) && Stable(p, t, st, r.0, c)
    decreases c, |p.h[c]| - i + 1
  {
    if i < |p.h[c]| {
      var (st', g) := CollectedBase(p, st, c, i, inV, f);
      var mid := TouredBase(p, from, c, i, at);
      TouredFromGrows(p, mid, c, i + 1, at);
      CollectedBaseInStep(p, st, from, c, i, at, inV, f);
      CollectedBaseMeaning(p, st, from, c, i, inV, at, f, (st', g), t);
      CollectedFromMeaning(p, st', mid, c, i + 1, inV, at, g, r, t);
    }
  }

  lemma CachingIsStable(p: Decls, t: Tour, v: nat, st: Progress, st': Progress, g: OverriderMap, c: nat)
    requires v !in st.virt && v < c <= |p.h| && Complete(p, t, g, v, Virtual(v)) && Tidy(g)
    requires Stable(p, t, st.(virt := st.virt[v := map[]]), st', v)
    ensures Stable(p, t, st, st'.(virt := st'.virt[v := g]), c)
  {
  }

  lemma {:induction false} CollectedBaseMeaning(p: Decls, st: Progress, from: Tour, c: nat, i: nat, inV: Option<nat>,
                                                at: Subobject, f: OverriderMap, r: (Progress, OverriderMap), t: Tour)
    requires c < |p.h| && i < |p.h[c]| && r == CollectedBase(p, st, c, i, inV, f)
    requires InStep(st, from) && inV == VirtualOf(at) && Ready(p, t, st, c)
    requires PartOf(TouredBase(p, from, c, i, at), t)
    requires CompleteUpTo(p, t, f, c, i, at) && Tidy(f)
    ensures CompleteUpTo(p, t, r.1, c, i + 1, at) && Tidy(r.1) && Stable(p, t, st, r.0, c)
    decreases c, 0
  {
    var e := p.h[c][i];
    if !p.polymorphic[e.cls] {
      NothingFromBase(p, t, f, c, i, at);
    } else if e.isVirtual && e.cls in st.virt {
      MergeTidy(f, st.virt[e.cls]);
      MergeCompletes(p, t, f, st.virt[e.cls], c, i, at);
    } else if e.isVirtual {
      var entered := st.(virt := st.virt[e.cls := map[]]);
      var (st', g) := Collected(p, entered, e.cls, true, Some(e.cls), map[]);
      assert entered.virt.Keys == from.seen + {e.cls};
      assert forall b: nat :: Numbered(entered, b) == Numbered(st, b);
      CollectedMeaning(p, entered, from.(seen := from.seen + {e.cls}), e.cls, true, Some(e.cls), Virtual(e.cls),
                       (st', g), t);
      MergeTidy(f, g);
      MergeCompletes(p, t, f, g, c, i, at);
      CachingIsStable(p, t, e.cls, st, st', g, c);
    } else {
      var (st', g) := Collected(p, st, e.cls, false, inV, map[]);
      CollectedMeaning(p, st, from, e.cls, false, inV, Step(p.h, at, c, i), (st', g), t);
      MergeTidy(f, g);
      MergeCompletes(p, t, f, g, c, i, at);
      if f == map[] {
        MergeIntoEmpty(g);
      }
    }
  }

  lemma {:induction false} NothingFromBase(p: Decls, t: Tour, f: OverriderMap, c: nat, i: nat, at: Subobject)
    requires c < |p.h| && i < |p.h[c]| && !p.polymorphic[p.h[c][i].cls] && CompleteUpTo(p, t, f, c, i, at)
    ensures CompleteUpTo(p, t, f, c, i + 1, at)
  {
    forall m: nat, n: nat
      ensures IsSlotUpTo(p, t, c, i + 1, at, m, n) <==> IsSlotUpTo(p, t, c, i, at, m, n)
    {
      NothingWithoutVirtual(p, t, p.h[c][i].cls, Step(p.h, at, c, i), m, n, UniqueVirtualMethod(m, n, None));
    }
    forall m: nat, n: nat, u
      ensures OverridingUpTo(p, t, c, i + 1, at, m, n, u) <==> OverridingUpTo(p, t, c, i, at, m, n, u)
    {
      NothingWithoutVirtual(p, t, p.h[c][i].cls, Step(p.h, at, c, i), m, n, u);
    }
  }

  // ---------- The theorems ----------

  /** What is collected for class `c`. */
  function AllCollected(p: Decls, c: nat): OverriderMap
    requires c < |p.h|
  {
    Collected(p, START, c, false, None, map[]).1
  }

  lemma {:induction false} AllIsComplete(p: Decls, c: nat)
    requires c < |p.h|
    ensures Complete(p, FullTour(p, c), AllCollected(p, c), c, WHOLE) && Tidy(AllCollected(p, c)) &&
            WellNamed(FullTour(p, c))
  {
    var t := FullTour(p, c);
    TouredWellNamed(p, SETTING_OUT, c, false, WHOLE);
    CollectedMeaning(p, START, SETTING_OUT, c, false, None, WHOLE, Collected(p, START, c, false, None, map[]), t);
  }

  lemma FromWhole(h: Lattice, c: nat, q: seq<nat>)
    requires c < |h| && IsPath(h, c, q)
    ensures From(WHOLE, Denote(h, c, q)) == Denote(h, c, q)
  {
    assert [] + Denote(h, c, q).steps == Denote(h, c, q).steps;
  }

  /** The slots collected for a virtual method are exactly the numbers of the subobjects of its class. */
  lemma {:induction false} SlotsAreSubobjects(p: Decls, c: nat, m: nat, n: nat)
    requires c < |p.h| && m < |p.decls| && p.decls[m].isVirtual
    ensures HasSlot(AllCollected(p, c), m, n) <==>
            exists s :: IsSubobject(p.h, c, p.decls[m].parent, s) && IsNumber(FullTour(p, c), p.decls[m].parent, s, n)
  {
    var t, b := FullTour(p, c), p.decls[m].parent;
    AllIsComplete(p, c);
    if HasSlot(AllCollected(p, c), m, n) {
      var q := SlotPath(p, t, c, WHOLE, m, n);
      FromWhole(p.h, c, q);
      assert IsSubobject(p.h, c, b, Denote(p.h, c, q));
    }
    forall s | IsSubobject(p.h, c, b, s) && IsNumber(t, b, s, n)
      ensures HasSlot(AllCollected(p, c), m, n)
    {
      var q :| IsPath(p.h, c, q) && End(p.h, c, q) == b && Denote(p.h, c, q) == s;
      FromWhole(p.h, c, q);
      PathSlot(p, t, c, WHOLE, m, n, q);
    }
  }

  /** An overrider `u` of `m` is listed in slot `n` exactly when some inheritance path on which no class before
      its end overrides `m` ends at the subobject that declares `u`, and the slot is that of a subobject there
      or below. */
  lemma {:induction false} ListedExactlyWhenOverriding(p: Decls, c: nat, m: nat, n: nat, u: UniqueVirtualMethod)
    requires c < |p.h|
    ensures Lists(AllCollected(p, c), m, n, u) <==> exists q :: OverridingAlong(p, FullTour(p, c), c, WHOLE, m, n, u, q)
  {
    var t := FullTour(p, c);
    AllIsComplete(p, c);
    if Overriding(p, t, c, WHOLE, m, n, u) {
      var q := OverridingPath(p, t, c, WHOLE, m, n, u);
    }
    forall q | OverridingAlong(p, t, c, WHOLE, m, n, u, q)
      ensures Overriding(p, t, c, WHOLE, m, n, u)
    {
      PathOverriding(p, t, c, WHOLE, m, n, u, q);
    }
  }

  // ---------- The shortcut ----------

  /** What has been cached is tidy. */
  ghost predicate TidyCache(st: Progress) {
    forall v :: v in st.virt ==> Tidy(st.virt[v])
  }

  lemma {:induction false} CollectedTidy(p: Decls, st: Progress, c: nat, virtualBase: bool, inV: Option<nat>,
                                         f: OverriderMap)
    requires c < |p.h| && Tidy(f) && TidyCache(st)
    ensures var r := Collected(p, st, c, virtualBase, inV, f); Tidy(r.1) && TidyCache(r.0)
    decreases c, |p.h[c]| + 2
  {
    var num := if virtualBase then 0 else NextNumber(st, c);
    var numbered := if virtualBase then st else st.(count := st.count[c := num]);
    CollectedFromTidy(p, numbered, c, 0, inV, f);
    DeclareFromTidy(p, c, 0, num, inV, CollectedFrom(p, numbered, c, 0, inV, f).1);
  }

  lemma {:induction false} CollectedFromTidy(p: Decls, st: Progress, c: nat, i: nat, inV: Option<nat>, f: OverriderMap)
    requires c < |p.h| && i <= |p.h[c]| && Tidy(f) && TidyCache(st)
    ensures var r := CollectedFrom(p, st, c, i, inV, f); Tidy(r.1) && TidyCache(r.0)
    decreases c, |p.h[c]| - i + 1
  {
    if i < |p.h[c]| {
      CollectedBaseTidy(p, st, c, i, inV, f);
      var b := CollectedBase(p, st, c, i, inV, f);
      CollectedFromTidy(p, b.0, c, i + 1, inV, b.1);
    }
  }

  lemma {:induction false} CollectedBaseTidy(p: Decls, st: Progress, c: nat, i: nat, inV: Option<nat>, f: OverriderMap)
    requires c < |p.h| && i < |p.h[c]| && Tidy(f) && TidyCache(st)
    ensures var r := CollectedBase(p, st, c, i, inV, f); Tidy(r.1) && TidyCache(r.0)
    decreases c, 0
  {
    var e := p.h[c][i];
    if p.polymorphic[e.cls] {
      if e.isVirtual && e.cls in st.virt {
        MergeTidy(f, st.virt[e.cls]);
      } else if e.isVirtual {
        var entered := st.(virt := st.virt[e.cls := map[]]);
        CollectedTidy(p, entered, e.cls, true, Some(e.cls), map[]);
        MergeTidy(f, Collected(p, entered, e.cls, true, Some(e.cls), map[]).1);
      } else {
        CollectedTidy(p, st, e.cls, false, inV, map[]);
        MergeTidy(f, Collected(p, st, e.cls, false, inV, map[]).1);
      }
    }
  }

  /** Letting a non-virtual base fill in an empty map gives the same state and the same map as
      collecting it separately and merging. */
  lemma {:induction false} ShortcutChangesNothing(p: Decls, st: Progress, c: nat, inV: Option<nat>)
    requires c < |p.h| && TidyCache(st)
    ensures var (st', g) := Collected(p, st, c, false, inV, map[]);
      (st', Merge(map[], g)) == Collected(p, st, c, false, inV, map[])
  {
    CollectedTidy(p, st, c, false, inV, map[]);
    MergeIntoEmpty(Collected(p, st, c, false, inV, map[]).1);
  }
}
