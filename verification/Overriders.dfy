/// Overrider maps, and the classes and virtual methods they are about.

module Overriders {
  import opened Prelude
  import opened Hierarchy

  /** A member function: its class, and the base class methods it overrides directly. */
  datatype MethodDecl = MethodDecl(parent: nat, isVirtual: bool, overridden: seq<nat>)

  /** A hierarchy with its member functions. Methods are numbered in the order of declaration;
      `methodsOf[c]` lists those of class `c`, `polymorphic[c]` says whether it has virtual functions. */
  datatype Program = Program(h: Lattice, decls: seq<MethodDecl>, methodsOf: seq<seq<nat>>, polymorphic: seq<bool>)

  ghost predicate WellDeclared(p: Program) {
    && |p.methodsOf| == |p.h| == |p.polymorphic|
    && (forall c, k :: 0 <= c < |p.h| && 0 <= k < |p.methodsOf[c]| ==>
          p.methodsOf[c][k] < |p.decls| && p.decls[p.methodsOf[c][k]].parent == c)
    && (forall m :: 0 <= m < |p.decls| ==>
          p.decls[m].parent < |p.h| && m in p.methodsOf[p.decls[m].parent])
    && (forall m, k :: 0 <= m < |p.decls| && 0 <= k < |p.decls[m].overridden| ==>
          p.decls[m].overridden[k] < m)
    && (forall c :: 0 <= c < |p.h| ==> NoRepeats(p.methodsOf[c]))
    && (forall m :: 0 <= m < |p.decls| && p.decls[m].isVirtual ==> p.polymorphic[p.decls[m].parent])
    && (forall c, i :: 0 <= c < |p.h| && 0 <= i < |p.h[c]| && p.polymorphic[p.h[c][i].cls] ==> p.polymorphic[c])
  }

  type Decls = p: Program | WellDeclared(p) witness Program([], [], [], [])

  /** An overriding method, the subobject it lies in, and the closest virtual base around that. */
  datatype UniqueVirtualMethod = UniqueVirtualMethod(method_: nat, subobject: nat, inVirtual: Option<nat>)

  /** For each subobject number of the overridden method's class: its overriders. */
  type OverridingMethods = map<nat, seq<UniqueVirtualMethod>>

  /** For each overridden method. */
  type OverriderMap = map<nat, OverridingMethods>

  // ---------- Overriding methods of one method ----------

  function AddTo(us: seq<UniqueVirtualMethod>, u: UniqueVirtualMethod): seq<UniqueVirtualMethod> {
    if u in us then us else us + [u]
  }

  function At(o: OverridingMethods, n: nat): seq<UniqueVirtualMethod> {
    if n in o then o[n] else []
  }

  function Add(o: OverridingMethods, n: nat, u: UniqueVirtualMethod): OverridingMethods {
    o[n := AddTo(At(o, n), u)]
  }

  function AddEach(us: seq<UniqueVirtualMethod>, vs: seq<UniqueVirtualMethod>): seq<UniqueVirtualMethod> {
    if vs == [] then us else AddTo(AddEach(us, vs[..|vs| - 1]), vs[|vs| - 1])
  }

  /** Adds every overrider of `other`; the numbers are independent of each other. */
  function AddAll(o: OverridingMethods, other: OverridingMethods): OverridingMethods {
    map n | n in o.Keys + other.Keys && (n in o || other[n] != []) ::
      if n in other then AddEach(At(o, n), other[n]) else o[n]
  }

  function ReplaceAll(o: OverridingMethods, u: UniqueVirtualMethod): OverridingMethods {
    map n | n in o :: [u]
  }

  // ---------- Overrider maps ----------

  function For(f: OverriderMap, m: nat): OverridingMethods {
    if m in f then f[m] else map[]
  }

  /** Merges the overriders collected from a base class. */
  function Merge(f: OverriderMap, base: OverriderMap): OverriderMap {
    map m | m in f.Keys + base.Keys :: if m in base then AddAll(For(f, m), base[m]) else f[m]
  }

  /** Replaces the overriders of every method in `ms`. */
  function ReplaceIn(f: OverriderMap, ms: set<nat>, u: UniqueVirtualMethod): OverriderMap {
    map m | m in f.Keys + ms :: if m in ms then ReplaceAll(For(f, m), u) else f[m]
  }

  /** Every list of overriders is nonempty and free of repetitions. */
  ghost predicate Tidy(f: OverriderMap) {
    forall m, n :: m in f && n in f[m] ==> f[m][n] != [] && NoRepeats(f[m][n])
  }

  lemma {:induction false} AddEachToNothing(us: seq<UniqueVirtualMethod>)
    requires NoRepeats(us)
    ensures AddEach([], us) == us
  {
    if us != [] {
      AddEachToNothing(us[..|us| - 1]);
      assert us == us[..|us| - 1] + [us[|us| - 1]];
    }
  }

  /** Collecting into a fresh map and merging into an empty one gives the collected map itself: the
      shortcut that lets a base class fill in an empty map changes nothing. */
  lemma {:induction false} MergeIntoEmpty(f: OverriderMap)
    requires Tidy(f)
    ensures Merge(map[], f) == f
  {
    forall m | m in f
      ensures AddAll(map[], f[m]) == f[m]
    {
      forall n | n in f[m]
        ensures AddEach([], f[m][n]) == f[m][n]
      {
        AddEachToNothing(f[m][n]);
      }
    }
  }

  lemma {:induction false} AddEachTidy(us: seq<UniqueVirtualMethod>, vs: seq<UniqueVirtualMethod>)
    requires NoRepeats(us)
    ensures NoRepeats(AddEach(us, vs)) && |AddEach(us, vs)| >= |us| && (vs != [] ==> AddEach(us, vs) != [])
    ensures forall u :: u in AddEach(us, vs) <==> u in us || u in vs
    decreases |vs|
  {
    if vs != [] {
      AddEachTidy(us, vs[..|vs| - 1]);
      assert vs == vs[..|vs| - 1] + [vs[|vs| - 1]];
    }
  }

  lemma {:induction false} MergeTidy(f: OverriderMap, base: OverriderMap)
    requires Tidy(f) && Tidy(base)
    ensures Tidy(Merge(f, base))
  {
    var r := Merge(f, base);
    forall m, n | m in r && n in r[m]
      ensures r[m][n] != [] && NoRepeats(r[m][n])
    {
      if m in base && n in base[m] {
        AddEachTidy(At(For(f, m), n), base[m][n]);
      }
    }
  }

  /** `f` has overriders of `m` for subobject number `n`. */
  ghost predicate HasSlot(f: OverriderMap, m: nat, n: nat) {
    m in f && n in f[m]
  }

  lemma MergeSlots(f: OverriderMap, base: OverriderMap, m: nat, n: nat)
    requires Tidy(base)
    ensures HasSlot(Merge(f, base), m, n) <==> HasSlot(f, m, n) || HasSlot(base, m, n)
  {
  }

  lemma ReplaceTidy(f: OverriderMap, ms: set<nat>, u: UniqueVirtualMethod)
    requires Tidy(f)
    ensures Tidy(ReplaceIn(f, ms, u))
  {
  }

  /** `u` is listed as an overrider of `m` in subobject `n`. */
  ghost predicate Lists(f: OverriderMap, m: nat, n: nat, u: UniqueVirtualMethod) {
    m in f && n in f[m] && u in f[m][n]
  }

  lemma {:induction false} MergeLists(f: OverriderMap, base: OverriderMap, m: nat, n: nat, u: UniqueVirtualMethod)
    requires Tidy(f) && Tidy(base)
    ensures Lists(Merge(f, base), m, n, u) <==> Lists(f, m, n, u) || Lists(base, m, n, u)
  {
    if m in base && n in base[m] {
      AddEachTidy(At(For(f, m), n), base[m][n]);
    }
  }

  // ---------- The methods a method overrides, directly or not ----------

  function AllOverridden(p: Decls, m: nat): set<nat>
    requires m < |p.decls|
    decreases m, |p.decls[m].overridden| + 1
  {
    OverriddenUpTo(p, m, |p.decls[m].overridden|)
  }

  function OverriddenUpTo(p: Decls, m: nat, k: nat): set<nat>
    requires m < |p.decls| && k <= |p.decls[m].overridden|
    decreases m, k
  {
    if k == 0 then {}
    else
      var o := p.decls[m].overridden[k - 1];
      OverriddenUpTo(p, m, k - 1) + {o} + AllOverridden(p, o)
  }

  predicate Overrides(p: Decls, m: nat, o: nat) {
    m < |p.decls| && (m == o || o in AllOverridden(p, m))
  }

  lemma {:induction false} OverriddenDirectly(p: Decls, m: nat, n: nat, k: nat)
    requires m < |p.decls| && k < n <= |p.decls[m].overridden|
    ensures var o := p.decls[m].overridden[k];
      o in OverriddenUpTo(p, m, n) && AllOverridden(p, o) <= OverriddenUpTo(p, m, n)
    decreases n
  {
    if k < n - 1 {
      OverriddenDirectly(p, m, n - 1, k);
    }
  }

  /** How many steps the data recursion over overridden methods takes from `m`. */
  ghost function Effort(p: Decls, m: nat): nat
    requires m < |p.decls|
    decreases m, |p.decls[m].overridden| + 1
  {
    2 + EffortUpTo(p, m, |p.decls[m].overridden|)
  }

  ghost function EffortUpTo(p: Decls, m: nat, k: nat): nat
    requires m < |p.decls| && k <= |p.decls[m].overridden|
    decreases m, k
  {
    if k == 0 then 0 else EffortUpTo(p, m, k - 1) + Effort(p, p.decls[m].overridden[k - 1])
  }
}
