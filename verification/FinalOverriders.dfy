/// Collecting the final overriders of every virtual function in a class hierarchy.

module FinalOverriders {
  import opened Prelude
  import opened Overriders

  /** The collector's own state: subobjects numbered so far, and the overriders of each virtual base. */
  datatype Progress = Progress(count: map<nat, nat>, virt: map<nat, OverriderMap>)

  const START: Progress := Progress(map[], map[])

  function Numbered(st: Progress, c: nat): nat {
    if c in st.count then st.count[c] else 0
  }

  /** The number of the next subobject of class `c`. */
  function NextNumber(st: Progress, c: nat): nat {
    (Numbered(st, c) + 1) % UINT
  }

  // ---------- The collection as a function of its state ----------

  /** One virtual method `m` of subobject number `num`, which lies in the virtual base `inV`. */
  function Declare(p: Decls, m: nat, num: nat, inV: Option<nat>, f: OverriderMap): OverriderMap
    requires m < |p.decls|
  {
    var u := UniqueVirtualMethod(m, num, inV);
    var g := ReplaceIn(f, AllOverridden(p, m), u);
    g[m := Add(For(g, m), num, u)]
  }

  /** The methods of `c` from the `k`-th on. */
  function DeclareFrom(p: Decls, c: nat, k: nat, num: nat, inV: Option<nat>, f: OverriderMap): OverriderMap
    requires c < |p.h| && k <= |p.methodsOf[c]|
    decreases |p.methodsOf[c]| - k
  {
    if k == |p.methodsOf[c]| then f
    else
      var m := p.methodsOf[c][k];
      DeclareFrom(p, c, k + 1, num, inV, if p.decls[m].isVirtual then Declare(p, m, num, inV, f) else f)
  }

  function Collected(p: Decls, st: Progress, c: nat, virtualBase: bool, inV: Option<nat>, f: OverriderMap)
    : (Progress, OverriderMap)
    requires c < |p.h|
    decreases c, |p.h[c]| + 2
  {
    var num := if virtualBase then 0 else NextNumber(st, c);
    var numbered := if virtualBase then st else st.(count := st.count[c := num]);
    var (st', g) := CollectedFrom(p, numbered, c, 0, inV, f);
    (st', DeclareFrom(p, c, 0, num, inV, g))
  }

  /** The bases of `c` from the `i`-th on. */
  function CollectedFrom(p: Decls, st: Progress, c: nat, i: nat, inV: Option<nat>, f: OverriderMap)
    : (Progress, OverriderMap)
    requires c < |p.h| && i <= |p.h[c]|
    decreases c, |p.h[c]| - i + 1
  {
    if i == |p.h[c]| then (st, f)
    else
      var (st', g) := CollectedBase(p, st, c, i, inV, f);
      CollectedFrom(p, st', c, i + 1, inV, g)
  }

  function CollectedBase(p: Decls, st: Progress, c: nat, i: nat, inV: Option<nat>, f: OverriderMap)
    : (Progress, OverriderMap)
    requires c < |p.h| && i < |p.h[c]|
    decreases c, 0
  {
    var e := p.h[c][i];
    if !p.polymorphic[e.cls] then (st, f)
    else if f == map[] && !e.isVirtual then Collected(p, st, e.cls, false, inV, f)
    else if e.isVirtual && e.cls in st.virt then (st, Merge(f, st.virt[e.cls]))
    else if e.isVirtual then
      var (st', g) := Collected(p, st.(virt := st.virt[e.cls := map[]]), e.cls, true, Some(e.cls), map[]);
      (st'.(virt := st'.virt[e.cls := g]), Merge(f, g))
    else
      var (st', g) := Collected(p, st, e.cls, false, inV, map[]);
      (st', Merge(f, g))
  }

  // ---------- The collection as the program runs it ----------

  ghost function StackEffort(p: Decls, stack: seq<seq<nat>>): nat
    requires InDecls(p, stack)
  {
    if stack == [] then 0
    else StackEffort(p, stack[..|stack| - 1]) + 1 + RangeEffort(p, stack[|stack| - 1])
  }

  ghost function RangeEffort(p: Decls, range: seq<nat>): nat
    requires MethodsIn(p, range)
  {
    if range == [] then 0 else RangeEffort(p, range[..|range| - 1]) + Effort(p, range[|range| - 1])
  }

  ghost predicate MethodsIn(p: Decls, range: seq<nat>) {
    forall k :: 0 <= k < |range| ==> range[k] < |p.decls|
  }

  ghost predicate InDecls(p: Decls, stack: seq<seq<nat>>) {
    forall j :: 0 <= j < |stack| ==> MethodsIn(p, stack[j])
  }

  /** What is still to be replaced: every listed method and what it overrides. */
  ghost function Pending(p: Decls, stack: seq<seq<nat>>): set<nat>
    requires InDecls(p, stack)
  {
    if stack == [] then {} else Pending(p, stack[..|stack| - 1]) + RangePending(p, stack[|stack| - 1])
  }

  ghost function RangePending(p: Decls, range: seq<nat>): set<nat>
    requires MethodsIn(p, range)
  {
    if range == [] then {}
    else RangePending(p, range[..|range| - 1]) + {range[|range| - 1]} + AllOverridden(p, range[|range| - 1])
  }

  lemma {:induction false} OverriddenRange(p: Decls, m: nat, k: nat)
    requires m < |p.decls| && k <= |p.decls[m].overridden|
    ensures MethodsIn(p, p.decls[m].overridden[..k])
    ensures RangePending(p, p.decls[m].overridden[..k]) == OverriddenUpTo(p, m, k)
    ensures RangeEffort(p, p.decls[m].overridden[..k]) == EffortUpTo(p, m, k)
    decreases k
  {
    if k > 0 {
      OverriddenRange(p, m, k - 1);
      assert p.decls[m].overridden[..k][..k - 1] == p.decls[m].overridden[..k - 1];
    }
  }

  lemma PushRange(p: Decls, stack: seq<seq<nat>>, range: seq<nat>)
    requires InDecls(p, stack) && MethodsIn(p, range)
    ensures InDecls(p, stack + [range])
    ensures Pending(p, stack + [range]) == Pending(p, stack) + RangePending(p, range)
    ensures StackEffort(p, stack + [range]) == StackEffort(p, stack) + 1 + RangeEffort(p, range)
  {
    var longer := stack + [range];
    assert longer[..|longer| - 1] == stack && longer[|stack|] == range;
    assert forall j :: 0 <= j < |stack| ==> longer[j] == stack[j];
  }

  lemma ReplaceMore(f: OverriderMap, ms: set<nat>, m: nat, u: UniqueVirtualMethod)
    ensures ReplaceIn(f, ms, u)[m := ReplaceAll(For(ReplaceIn(f, ms, u), m), u)] == ReplaceIn(f, ms + {m}, u)
  {
    var g := ReplaceIn(f, ms, u);
    assert ReplaceAll(For(g, m), u) == ReplaceAll(For(f, m), u);
  }

  /** Replaces the overriders of everything `m` overrides, digging down with an explicit stack. */
  method ReplaceOverridden(p: Decls, m: nat, u: UniqueVirtualMethod, f: OverriderMap) returns (g: OverriderMap)
    requires m < |p.decls|
    ensures g == ReplaceIn(f, AllOverridden(p, m), u)
  {
    g := f;
    var stack: seq<seq<nat>> := [p.decls[m].overridden];
    ghost var done: set<nat> := {};
    OverriddenRange(p, m, |p.decls[m].overridden|);
    assert p.decls[m].overridden[..|p.decls[m].overridden|] == p.decls[m].overridden;
    PushRange(p, [], p.decls[m].overridden);
    assert [] + [p.decls[m].overridden] == stack;
    assert ReplaceIn(f, {}, u) == f;
    while stack != []
      invariant InDecls(p, stack)
      invariant g == ReplaceIn(f, done, u)
      invariant done + Pending(p, stack) == AllOverridden(p, m)
      decreases StackEffort(p, stack)
    {
      var range := stack[|stack| - 1];
      g, stack, done := ReplaceRange(p, range, u, f, done, g, stack[..|stack| - 1]);
    }
  }

  /** The bookkeeping for one method `o` of a range: what it overrides goes onto the stack, if anything. */
  lemma PushOverridden(p: Decls, stack: seq<seq<nat>>, o: nat) returns (longer: seq<seq<nat>>)
    requires InDecls(p, stack) && o < |p.decls|
    ensures longer == if p.decls[o].overridden == [] then stack else stack + [p.decls[o].overridden]
    ensures InDecls(p, longer)
    ensures Pending(p, longer) == Pending(p, stack) + AllOverridden(p, o)
    ensures StackEffort(p, longer) < StackEffort(p, stack) + Effort(p, o)
  {
    var range := p.decls[o].overridden;
    OverriddenRange(p, o, |range|);
    assert range[..|range|] == range;
    if range == [] {
      longer := stack;
      assert AllOverridden(p, o) == {};
    } else {
      PushRange(p, stack, range);
      longer := stack + [range];
    }
  }

  lemma NextInRange(p: Decls, range: seq<nat>, k: nat)
    requires MethodsIn(p, range) && k < |range|
    ensures MethodsIn(p, range[..k]) && MethodsIn(p, range[..k + 1])
    ensures RangePending(p, range[..k + 1]) == RangePending(p, range[..k]) + {range[k]} + AllOverridden(p, range[k])
    ensures RangeEffort(p, range[..k + 1]) == RangeEffort(p, range[..k]) + Effort(p, range[k])
  {
    assert range[..k + 1][..k] == range[..k];
  }

  /** The first `k` methods of a popped range have been dealt with. */
  ghost predicate Replaced(p: Decls, range: seq<nat>, k: nat, doneBefore: set<nat>, stackBefore: seq<seq<nat>>,
                           done: set<nat>, stack: seq<seq<nat>>)
    requires MethodsIn(p, range) && InDecls(p, stackBefore) && k <= |range|
  {
    && InDecls(p, stack)
    && done + Pending(p, stack) == doneBefore + Pending(p, stackBefore) + RangePending(p, range[..k])
    && StackEffort(p, stack) <= StackEffort(p, stackBefore) + RangeEffort(p, range[..k])
  }

  lemma ReplacedNext(p: Decls, range: seq<nat>, k: nat, doneBefore: set<nat>, stackBefore: seq<seq<nat>>,
                     done: set<nat>, stack: seq<seq<nat>>)
    requires MethodsIn(p, range) && InDecls(p, stackBefore) && k < |range|
    requires Replaced(p, range, k, doneBefore, stackBefore, done, stack)
    ensures var overridden := p.decls[range[k]].overridden;
      Replaced(p, range, k + 1, doneBefore, stackBefore, done + {range[k]},
               if overridden == [] then stack else stack + [overridden])
  {
    NextInRange(p, range, k);
    var longer := PushOverridden(p, stack, range[k]);
    assert done + {range[k]} + Pending(p, longer) == done + Pending(p, stack) + {range[k]} + AllOverridden(p, range[k]);
  }

  /** One popped range: replaces its methods and pushes what they override. */
  method ReplaceRange(p: Decls, range: seq<nat>, u: UniqueVirtualMethod, ghost f: OverriderMap,
                      ghost doneBefore: set<nat>, before: OverriderMap, stackBefore: seq<seq<nat>>)
    returns (g: OverriderMap, stack: seq<seq<nat>>, ghost done: set<nat>)
    requires MethodsIn(p, range) && InDecls(p, stackBefore) && before == ReplaceIn(f, doneBefore, u)
    ensures InDecls(p, stack) && g == ReplaceIn(f, done, u)
    ensures done + Pending(p, stack) == doneBefore + Pending(p, stackBefore) + RangePending(p, range)
    ensures StackEffort(p, stack) <= StackEffort(p, stackBefore) + RangeEffort(p, range)
  {
    g, stack, done := before, stackBefore, doneBefore;
    for k := 0 to |range|
      invariant g == ReplaceIn(f, done, u)
      invariant Replaced(p, range, k, doneBefore, stackBefore, done, stack)
    {
      var o := range[k];
      ReplaceMore(f, done, o, u);
      ReplacedNext(p, range, k, doneBefore, stackBefore, done, stack);
      g := g[o := ReplaceAll(For(g, o), u)];
      done := done + {o};
      if p.decls[o].overridden != [] {
        stack := stack + [p.decls[o].overridden];
      }
    }
    assert range[..|range|] == range;
  }

  class FinalOverriderCollector {
    var subobjectCount: map<nat, nat>
    var virtualOverriders: map<nat, OverriderMap>

    constructor ()
      ensures Value() == START
    {
      subobjectCount, virtualOverriders := map[], map[];
    }

    function Value(): Progress
      reads this
    {
      Progress(subobjectCount, virtualOverriders)
    }

    /** Collects the overriders of `c` on top of `f`. */
    method Collect(p: Decls, c: nat, virtualBase: bool, inV: Option<nat>, f: OverriderMap) returns (g: OverriderMap)
      requires c < |p.h|
      modifies this
      ensures (Value(), g) == Collected(p, old(Value()), c, virtualBase, inV, f)
      decreases c, 1
    {
      var num := 0;
      if !virtualBase {
        num := ((if c in subobjectCount then subobjectCount[c] else 0) + 1) % UINT;
        subobjectCount := subobjectCount[c := num];
      }
      ghost var numbered := Value();
      g := f;
      var i := 0;
      while i < |p.h[c]|
        invariant 0 <= i <= |p.h[c]|
        invariant CollectedFrom(p, Value(), c, i, inV, g) == CollectedFrom(p, numbered, c, 0, inV, f)
      {
        g := CollectBase(p, c, i, inV, g);
        i := i + 1;
      }
      g := DeclareMethods(p, c, num, inV, g);
    }

    /** The loop body of `Collect` for base `i`. */
    method CollectBase(p: Decls, c: nat, i: nat, inV: Option<nat>, f: OverriderMap) returns (g: OverriderMap)
      requires c < |p.h| && i < |p.h[c]|
      modifies this
      ensures (Value(), g) == CollectedBase(p, old(Value()), c, i, inV, f)
      decreases c, 0
    {
      var e := p.h[c][i];
      if !p.polymorphic[e.cls] {
        return f;
      }
      if f == map[] && !e.isVirtual {
        g := Collect(p, e.cls, false, inV, f);
        return;
      }
      var baseOverriders := map[];
      if e.isVirtual {
        if e.cls !in virtualOverriders {
          virtualOverriders := virtualOverriders[e.cls := map[]];
          baseOverriders := Collect(p, e.cls, true, Some(e.cls), map[]);
          virtualOverriders := virtualOverriders[e.cls := baseOverriders];
        }
        baseOverriders := virtualOverriders[e.cls];
      } else {
        baseOverriders := Collect(p, e.cls, false, inV, baseOverriders);
      }
      g := Merge(f, baseOverriders);
    }

    method DeclareMethods(p: Decls, c: nat, num: nat, inV: Option<nat>, f: OverriderMap) returns (g: OverriderMap)
      requires c < |p.h|
      ensures g == DeclareFrom(p, c, 0, num, inV, f)
    {
      g := f;
      for k := 0 to |p.methodsOf[c]|
        invariant DeclareFrom(p, c, k, num, inV, g) == DeclareFrom(p, c, 0, num, inV, f)
      {
        var m := p.methodsOf[c][k];
        if p.decls[m].isVirtual {
          var u := UniqueVirtualMethod(m, num, inV);
          if p.decls[m].overridden == [] {
            assert AllOverridden(p, m) == {};
            assert ReplaceIn(g, {}, u) == g;
            g := g[m := Add(For(g, m), num, u)];
          } else {
            g := ReplaceOverridden(p, m, u, g);
            g := g[m := Add(For(g, m), num, u)];
          }
        }
      }
    }
  }
}
