/// The final overriders of a class: collected, then weeded of those hidden through virtual bases. They are
/// the overriders declared in the outermost subobjects that override at all.

module FinalOverriderLookup {
  import opened Prelude
  import opened Hierarchy
  import opened SubobjectCounting
  import opened HiddenWeeding
  import opened Overriders
  import opened FinalOverriders
  import opened Containment
  import opened SubobjectNumbers
  import opened OverriderMeaning

  /** `x` hides `y`: the class of `x` is virtually derived from the virtual base that `y` lies in. */
  predicate OverriderHides(p: Decls, x: UniqueVirtualMethod, y: UniqueVirtualMethod) {
    x.method_ < |p.decls| && y.inVirtual.Some? &&
    VirtuallyDerives(p.h, p.decls[x.method_].parent, y.inVirtual.value)
  }

  function Hider(p: Decls): Hiding<UniqueVirtualMethod> {
    (x, y) => OverriderHides(p, x, y)
  }

  /** The overriding method exists, and the virtual base recorded is, or derives from, its class. */
  ghost predicate InsideVirtual(p: Decls, u: UniqueVirtualMethod) {
    && u.method_ < |p.decls|
    && (u.inVirtual.Some? ==>
          var v, d := u.inVirtual.value, p.decls[u.method_].parent;
          v < |p.h| && (v == d || Derives(p.h, v, d)))
  }

  /** Because a virtual base recorded for a method is, or derives from, the method's class, hiding among
      the overriders of one slot is a strict partial order. */
  lemma {:induction false} HidingIsStrict(p: Decls, us: seq<UniqueVirtualMethod>)
    requires forall u :: u in us ==> InsideVirtual(p, u)
    ensures StrictOrderOn(Hider(p), us)
  {
    forall x | x in us
      ensures !OverriderHides(p, x, x)
    {
      if OverriderHides(p, x, x) {
        var d, v := p.decls[x.method_].parent, x.inVirtual.value;
        VBaseIsVirtuallyDerived(p.h, d, v);
        DerivesBelow(p.h, d, v);
        if v != d {
          DerivesBelow(p.h, v, d);
        }
      }
    }
    forall x, y, z | x in us && y in us && z in us && OverriderHides(p, x, y) && OverriderHides(p, y, z)
      ensures OverriderHides(p, x, z)
    {
      var dx, dy := p.decls[x.method_].parent, p.decls[y.method_].parent;
      var vy, vz := y.inVirtual.value, z.inVirtual.value;
      if vy != dy {
        DerivesTransitively(p.h, VirtuallyTo(vz), vy, dy);
      }
      VBaseIsVirtuallyDerived(p.h, dx, vy);
      DerivesTransitively(p.h, VirtuallyTo(vz), dx, vy);
    }
  }

  /** Weeds the overriders of one slot in place. */
  method WeedSlot(p: Decls, us: seq<UniqueVirtualMethod>) returns (r: seq<UniqueVirtualMethod>)
    requires us != [] && forall u :: u in us ==> InsideVirtual(p, u)
    ensures r == Survivors(Hider(p), us, us) && r != []
  {
    HidingIsStrict(p, us);
    if |us| < 2 {
      SomethingSurvives(Hider(p), us);
      return us;
    }
    var a := new UniqueVirtualMethod[|us|](i requires 0 <= i < |us| => us[i]);
    assert a[..|us|] == us;
    var kept := RemoveHidden(a, |us|, Hider(p));
    r := a[..kept];
  }

  ghost predicate WeededSlots(p: Decls, f: OverridingMethods, g: OverridingMethods) {
    g.Keys == f.Keys &&
    forall n :: n in g ==> g[n] == Survivors(Hider(p), f[n], f[n]) && g[n] != []
  }

  ghost predicate Weeded(p: Decls, f: OverriderMap, g: OverriderMap) {
    g.Keys == f.Keys && forall m :: m in g ==> WeededSlots(p, f[m], g[m])
  }

  method WeedSlots(p: Decls, f: OverridingMethods) returns (g: OverridingMethods)
    requires forall n: nat, u :: n in f && u in f[n] ==> InsideVirtual(p, u)
    requires forall n: nat :: n in f ==> f[n] != []
    ensures WeededSlots(p, f, g)
  {
    g := map[];
    var todo := f.Keys;
    while todo != {}
      invariant todo <= f.Keys && WeededSlots(p, map n | n in f && n !in todo :: f[n], g)
      decreases todo
    {
      var n :| n in todo;
      assert forall u :: u in f[n] ==> InsideVirtual(p, u);
      var us := WeedSlot(p, f[n]);
      g := g[n := us];
      todo := todo - {n};
    }
  }

  method WeedMap(p: Decls, f: OverriderMap) returns (g: OverriderMap)
    requires Tidy(f) && forall m: nat, n: nat, u :: Lists(f, m, n, u) ==> InsideVirtual(p, u)
    ensures Weeded(p, f, g)
  {
    g := map[];
    var todo := f.Keys;
    while todo != {}
      invariant todo <= f.Keys && Weeded(p, map m | m in f && m !in todo :: f[m], g)
      decreases todo
    {
      var m :| m in todo;
      forall n: nat, u | n in f[m] && u in f[m][n]
        ensures InsideVirtual(p, u)
      {
        assert Lists(f, m, n, u);
      }
      var slots := WeedSlots(p, f[m]);
      g := g[m := slots];
      todo := todo - {m};
    }
  }

  lemma {:induction false} ListedIsInside(p: Decls, c: nat, m: nat, n: nat, u: UniqueVirtualMethod)
    requires c < |p.h| && Lists(AllCollected(p, c), m, n, u)
    ensures InsideVirtual(p, u) && Overrides(p, u.method_, m)
  {
    ListedExactlyWhenOverriding(p, c, m, n, u);
    var q :| OverridingAlong(p, FullTour(p, c), c, WHOLE, m, n, u, q);
    var s, d := Denote(p.h, c, q), End(p.h, c, q);
    FromWhole(p.h, c, q);
    DenoteShape(p.h, c, q);
    if s.start.VirtualBase? {
      NVPathsMembers(p.h, s.start.cls, d, s.steps);
      if s.steps != [] {
        assert IsMatchingPath(p.h, ToClass(d), s.start.cls, s.steps);
        PathMatches(p.h, ToClass(d), s.start.cls, s.steps);
      }
    }
  }

  /** Every slot collected for class `c` keeps exactly the overriders that no other overrider of the slot
      hides, and at least one of them. */
  method GetFinalOverriders(p: Decls, c: nat) returns (g: OverriderMap)
    requires c < |p.h|
    ensures Weeded(p, AllCollected(p, c), g)
  {
    var collector := new FinalOverriderCollector();
    var f := collector.Collect(p, c, false, None, map[]);
    AllIsComplete(p, c);
    forall m: nat, n: nat, u | Lists(f, m, n, u)
      ensures InsideVirtual(p, u)
    {
      ListedIsInside(p, c, m, n, u);
    }
    g := WeedMap(p, f);
  }

  // ---------- What the final overriders are ----------

  lemma WeededLists(p: Decls, f: OverriderMap, g: OverriderMap, m: nat, n: nat, u: UniqueVirtualMethod)
    requires Weeded(p, f, g)
    ensures HasSlot(g, m, n) <==> HasSlot(f, m, n)
    ensures HasSlot(g, m, n) ==> g[m][n] != []
    ensures Lists(g, m, n, u) <==> Lists(f, m, n, u) && !HiddenIn(Hider(p), f[m][n], u)
  {
    if m in g {
      assert WeededSlots(p, f[m], g[m]);
      if n in g[m] {
        SurvivorsMembers(Hider(p), f[m][n], f[m][n], u);
      }
    }
  }

  /** In the final map every subobject of the class of a virtual method has a final overrider, all its
      final overriders override the method, and there are no other slots. */
  lemma {:induction false} EverySubobjectIsOverridden(p: Decls, c: nat, m: nat, n: nat, g: OverriderMap)
    requires c < |p.h| && m < |p.decls| && p.decls[m].isVirtual && Weeded(p, AllCollected(p, c), g)
    ensures var b := p.decls[m].parent;
      HasSlot(g, m, n) <==> exists s :: IsSubobject(p.h, c, b, s) && IsNumber(FullTour(p, c), b, s, n)
    ensures HasSlot(g, m, n) ==> g[m][n] != [] && forall u :: u in g[m][n] ==> Overrides(p, u.method_, m)
  {
    SlotsAreSubobjects(p, c, m, n);
    WeededLists(p, AllCollected(p, c), g, m, n, UniqueVirtualMethod(m, n, None));
    if HasSlot(g, m, n) {
      forall u | u in g[m][n]
        ensures Overrides(p, u.method_, m)
      {
        assert Lists(g, m, n, u);
        WeededLists(p, AllCollected(p, c), g, m, n, u);
        ListedIsInside(p, c, m, n, u);
      }
    }
  }

  /** `u` overrides `m` for the subobject `s` of class `b`, and is declared in an outermost subobject: at the
      end of path `q`, it contains (or is) `s`, and lies in no other subobject whose class overrides `m`. */
  ghost predicate IsFinalOverrider(p: Decls, c: nat, m: nat, b: nat, s: Subobject, u: UniqueVirtualMethod, q: seq<nat>)
    requires c < |p.h|
  {
    && IsPath(p.h, c, q) && DeclaredAt(p, FullTour(p, c), End(p.h, c, q), Denote(p.h, c, q), m, u)
    && ContainsOrIs(p.h, End(p.h, c, q), Denote(p.h, c, q), b, s)
    && Outermost(p.h, Declaring(p, m), c, End(p.h, c, q), Denote(p.h, c, q))
  }

  /** A slot lies at or below a subobject exactly when the subobject it numbers does. */
  lemma {:induction false} SlotIsContained(p: Decls, c: nat, q: seq<nat>, m: nat, b: nat, s: Subobject, n: nat)
    requires c < |p.h| && IsPath(p.h, c, q) && Own(p, b, m) && b < |p.h| && IsSubobject(p.h, c, b, s)
    requires IsNumber(FullTour(p, c), b, s, n) && NumberedOnly(FullTour(p, c), b, s, n)
    ensures IsSlot(p, FullTour(p, c), End(p.h, c, q), Denote(p.h, c, q), m, n) <==>
            ContainsOrIs(p.h, End(p.h, c, q), Denote(p.h, c, q), b, s)
  {
    var t, a, at := FullTour(p, c), End(p.h, c, q), Denote(p.h, c, q);
    if IsSlot(p, t, a, at, m, n) {
      var r := SlotPath(p, t, a, at, m, n);
      assert From(at, Denote(p.h, a, r)) == s;
      if r != [] {
        assert LeadsInto(p.h, a, at, b, s, r);
      } else {
        assert From(at, Denote(p.h, a, r)) == at;
      }
    }
    if ContainsOrIs(p.h, a, at, b, s) {
      if Contains(p.h, a, at, b, s) {
        var r :| LeadsInto(p.h, a, at, b, s, r);
        PathSlot(p, t, a, at, m, n, r);
      } else {
        assert From(at, Denote(p.h, a, [])) == at;
        PathSlot(p, t, a, at, m, n, []);
      }
    }
  }

  /** `s` is the only subobject of class `b` with number `n`. */
  ghost predicate NumberedOnly(t: Tour, b: nat, s: Subobject, n: nat) {
    forall s' :: IsNumber(t, b, s', n) ==> s' == s
  }

  lemma LastIsDeclared(p: Decls, a: nat, m: nat) returns (x: nat)
    requires a < |p.h| && DeclaresFrom(p, a, 0, m)
    ensures LastFrom(p, a, 0, m, x)
  {
    x := LastDeclared(p, a, 0, m);
  }

  lemma {:induction false} LastDeclared(p: Decls, a: nat, k: nat, m: nat) returns (x: nat)
    requires a < |p.h| && k <= |p.methodsOf[a]| && DeclaresFrom(p, a, k, m)
    ensures LastFrom(p, a, k, m, x)
    decreases |p.methodsOf[a]| - k
  {
    if DeclaresFrom(p, a, k + 1, m) {
      x := LastDeclared(p, a, k + 1, m);
    } else {
      x := p.methodsOf[a][k];
    }
    LastIsHereOrLater(p, a, k, m, x);
  }

  /** The overrider declared in a subobject whose class overrides `m`. */
  lemma {:induction false} OverriderAt(p: Decls, c: nat, m: nat, r: seq<nat>) returns (w: UniqueVirtualMethod)
    requires c < |p.h| && IsPath(p.h, c, r) && Declaring(p, m)(End(p.h, c, r))
    ensures DeclaredAt(p, FullTour(p, c), End(p.h, c, r), Denote(p.h, c, r), m, w)
  {
    var a, s := End(p.h, c, r), Denote(p.h, c, r);
    var x := LastIsDeclared(p, a, m);
    EverySubobjectIsNamedOnce(p, c, a, s);
    assert IsSubobject(p.h, c, a, s);
    var k: nat :| Name(a, s, k) in FullTour(p, c).names;
    w := UniqueVirtualMethod(x, k % UINT, VirtualOf(s));
  }

  lemma DeclaredIsDeclaring(p: Decls, t: Tour, a: nat, at: Subobject, m: nat, u: UniqueVirtualMethod)
    requires a < |p.h| && DeclaredAt(p, t, a, at, m, u)
    ensures Declaring(p, m)(a) && u.method_ < |p.decls| && p.decls[u.method_].parent == a
  {
  }

  /** The setting of the theorem: `n` is the number of the subobject `s`, and of no other, of class `b`, which
      has the virtual method `m`. */
  ghost predicate Setting(p: Decls, c: nat, m: nat, b: nat, s: Subobject, n: nat) {
    && c < |p.h| && b < |p.h| && Own(p, b, m) && IsSubobject(p.h, c, b, s)
    && IsNumber(FullTour(p, c), b, s, n) && NumberedOnly(FullTour(p, c), b, s, n)
  }

  /** What is listed for `s` is declared at the end of a path on which no class before overrides `m`. */
  lemma {:induction false} ListedAlong(p: Decls, c: nat, m: nat, b: nat, s: Subobject, n: nat, u: UniqueVirtualMethod)
    returns (q: seq<nat>)
    requires Setting(p, c, m, b, s, n) && Lists(AllCollected(p, c), m, n, u)
    ensures IsPath(p.h, c, q) && Clean(p.h, Declaring(p, m), c, q)
    ensures DeclaredAt(p, FullTour(p, c), End(p.h, c, q), Denote(p.h, c, q), m, u)
    ensures ContainsOrIs(p.h, End(p.h, c, q), Denote(p.h, c, q), b, s)
  {
    ListedExactlyWhenOverriding(p, c, m, n, u);
    q :| OverridingAlong(p, FullTour(p, c), c, WHOLE, m, n, u, q);
    FromWhole(p.h, c, q);
    SlotIsContained(p, c, q, m, b, s, n);
  }

  lemma {:induction false} AlongListed(p: Decls, c: nat, m: nat, b: nat, s: Subobject, n: nat, u: UniqueVirtualMethod,
                                       q: seq<nat>)
    requires Setting(p, c, m, b, s, n) && IsPath(p.h, c, q) && Clean(p.h, Declaring(p, m), c, q)
    requires DeclaredAt(p, FullTour(p, c), End(p.h, c, q), Denote(p.h, c, q), m, u)
    requires ContainsOrIs(p.h, End(p.h, c, q), Denote(p.h, c, q), b, s)
    ensures Lists(AllCollected(p, c), m, n, u)
  {
    FromWhole(p.h, c, q);
    SlotIsContained(p, c, q, m, b, s, n);
    assert OverridingAlong(p, FullTour(p, c), c, WHOLE, m, n, u, q);
    ListedExactlyWhenOverriding(p, c, m, n, u);
  }

  /** What is listed and not hidden is declared in an outermost subobject. */
  lemma {:induction false} UnhiddenIsFinal(p: Decls, c: nat, m: nat, b: nat, s: Subobject, n: nat,
                                           u: UniqueVirtualMethod)
    returns (q: seq<nat>)
    requires Setting(p, c, m, b, s, n) && Lists(AllCollected(p, c), m, n, u)
    requires !HiddenIn(Hider(p), AllCollected(p, c)[m][n], u)
    ensures IsFinalOverrider(p, c, m, b, s, u, q)
  {
    q := ListedAlong(p, c, m, b, s, n, u);
    var has, d, at := Declaring(p, m), End(p.h, c, q), Denote(p.h, c, q);
    forall r | IsPath(p.h, c, r) && has(End(p.h, c, r))
      ensures !Contains(p.h, End(p.h, c, r), Denote(p.h, c, r), d, at)
    {
      if Contains(p.h, End(p.h, c, r), Denote(p.h, c, r), d, at) {
        var o := OutermostAbove(p.h, has, c, r);
        if Contains(p.h, End(p.h, c, o), Denote(p.h, c, o), End(p.h, c, r), Denote(p.h, c, r)) {
          ContainsTransitively(p.h, End(p.h, c, o), Denote(p.h, c, o), End(p.h, c, r), Denote(p.h, c, r), d, at);
        }
        HiddenByOutermost(p, c, m, b, s, n, u, q, o);
      }
    }
  }

  lemma {:induction false} HiddenByOutermost(p: Decls, c: nat, m: nat, b: nat, s: Subobject, n: nat,
                                             u: UniqueVirtualMethod, q: seq<nat>, o: seq<nat>)
    requires Setting(p, c, m, b, s, n) && Lists(AllCollected(p, c), m, n, u)
    requires IsPath(p.h, c, q) && Clean(p.h, Declaring(p, m), c, q)
    requires DeclaredAt(p, FullTour(p, c), End(p.h, c, q), Denote(p.h, c, q), m, u)
    requires ContainsOrIs(p.h, End(p.h, c, q), Denote(p.h, c, q), b, s)
    requires IsPath(p.h, c, o) && Declaring(p, m)(End(p.h, c, o))
    requires Outermost(p.h, Declaring(p, m), c, End(p.h, c, o), Denote(p.h, c, o))
    requires Contains(p.h, End(p.h, c, o), Denote(p.h, c, o), End(p.h, c, q), Denote(p.h, c, q))
    ensures HiddenIn(Hider(p), AllCollected(p, c)[m][n], u)
  {
    if Contains(p.h, End(p.h, c, q), Denote(p.h, c, q), b, s) {
      ContainsTransitively(p.h, End(p.h, c, o), Denote(p.h, c, o), End(p.h, c, q), Denote(p.h, c, q), b, s);
    }
    OutermostIsClean(p.h, Declaring(p, m), c, o);
    var w := OverriderAt(p, c, m, o);
    AlongListed(p, c, m, b, s, n, w, o);
    CleanContainedVirtually(p.h, Declaring(p, m), c, q, o);
    DeclaredIsDeclaring(p, FullTour(p, c), End(p.h, c, o), Denote(p.h, c, o), m, w);
    assert Hider(p)(w, u);
  }

  /** What is declared in an outermost subobject is listed and not hidden. */
  lemma {:induction false} FinalIsUnhidden(p: Decls, c: nat, m: nat, b: nat, s: Subobject, n: nat,
                                           u: UniqueVirtualMethod, q: seq<nat>)
    requires Setting(p, c, m, b, s, n) && IsFinalOverrider(p, c, m, b, s, u, q)
    ensures Lists(AllCollected(p, c), m, n, u) && !HiddenIn(Hider(p), AllCollected(p, c)[m][n], u)
  {
    OutermostIsClean(p.h, Declaring(p, m), c, q);
    AlongListed(p, c, m, b, s, n, u, q);
    forall w | w in AllCollected(p, c)[m][n]
      ensures !OverriderHides(p, w, u)
    {
      var r := ListedAlong(p, c, m, b, s, n, w);
      DeclaredIsDeclaring(p, FullTour(p, c), End(p.h, c, r), Denote(p.h, c, r), m, w);
      if OverriderHides(p, w, u) {
        InItsVirtualBase(p.h, c, r, q);
      }
    }
  }

  /** What lies in a virtual base of a class lies in every subobject of that class. */
  lemma {:induction false} InItsVirtualBase(h: Lattice, c: nat, r: seq<nat>, q: seq<nat>)
    requires c < |h| && IsPath(h, c, r) && IsPath(h, c, q) && Denote(h, c, q).start.VirtualBase?
    requires VirtuallyDerives(h, End(h, c, r), Denote(h, c, q).start.cls)
    ensures Contains(h, End(h, c, r), Denote(h, c, r), End(h, c, q), Denote(h, c, q))
  {
    var v, steps := Denote(h, c, q).start.cls, Denote(h, c, q).steps;
    DenoteShape(h, c, q);
    NVPathsMembers(h, v, End(h, c, q), steps);
    assert [] + steps == steps;
    InVirtualBase(h, End(h, c, r), Denote(h, c, r), v, steps);
  }

  /** The final overriders of a virtual method `m` in a subobject `s` are exactly the overriders declared in
      the outermost subobjects that contain (or are) `s` and whose class overrides `m`: no more derived class
      of which theirs is a base class subobject overrides `m` (section 10.3 of ISO/IEC 14882:2011). */
  lemma {:induction false} FinalOverridersAreOutermost(p: Decls, c: nat, m: nat, b: nat, s: Subobject, n: nat,
                                                       g: OverriderMap, u: UniqueVirtualMethod)
    requires Setting(p, c, m, b, s, n) && Weeded(p, AllCollected(p, c), g)
    ensures Lists(g, m, n, u) <==> exists q :: IsFinalOverrider(p, c, m, b, s, u, q)
  {
    WeededLists(p, AllCollected(p, c), g, m, n, u);
    if Lists(g, m, n, u) {
      var q := UnhiddenIsFinal(p, c, m, b, s, n, u);
    }
    forall q | IsFinalOverrider(p, c, m, b, s, u, q)
      ensures Lists(g, m, n, u)
    {
      FinalIsUnhidden(p, c, m, b, s, n, u, q);
    }
  }
}
