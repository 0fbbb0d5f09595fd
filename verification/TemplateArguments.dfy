/// Template arguments with parameter packs, walked as if the packs were written out.

module TemplateArguments {
  import opened Prelude

  /** An argument that is not a pack; `spec` is the template specialization it names, if it does. */
  datatype Argument = Argument(id: nat, spec: Option<Spec>)

  datatype Arg = One(arg: Argument) | Pack(args: seq<Argument>)

  /** A template specialization as written and, if it is sugar for another type, its arguments after
      desugaring, which include the default arguments. */
  datatype Spec = Spec(template: nat, args: seq<Arg>, isSugared: bool, desugared: seq<Arg>)

  ghost predicate Within(args: seq<Arg>, a: Argument) {
    exists i :: 0 <= i < |args| && match args[i] case One(arg) => a == arg case Pack(inner) => a in inner
  }

  /** The arguments in order, with the packs expanded. */
  function Flat(args: seq<Arg>): (flat: seq<Argument>)
    ensures forall a :: a in flat ==> Within(args, a)
  {
    if args == [] then []
    else
      var front, last := args[..|args| - 1], args[|args| - 1];
      assert args == front + [last];
      Flat(front) + match last case One(arg) => [arg] case Pack(inner) => inner
  }

  /** Where the arguments of `args[i]` begin among the flat ones. */
  ghost function FlatStart(args: seq<Arg>, i: nat): nat
    requires i <= |args|
  {
    |Flat(args[..i])|
  }

  function Width(arg: Arg): nat {
    match arg case One(_) => 1 case Pack(inner) => |inner|
  }

  lemma StartStep(args: seq<Arg>, i: nat)
    requires i < |args|
    ensures FlatStart(args, i + 1) == FlatStart(args, i) + Width(args[i])
  {
    assert args[..i + 1][..i] == args[..i];
  }

  /** The flat argument at position `j` of `args[i]`. */
  lemma {:induction false} FlatAt(args: seq<Arg>, i: nat, j: nat)
    requires i < |args| && j < Width(args[i])
    ensures FlatStart(args, i) + j < |Flat(args)|
    ensures Flat(args)[FlatStart(args, i) + j] == match args[i] case One(arg) => arg case Pack(inner) => inner[j]
    decreases |args|
  {
    var front := args[..|args| - 1];
    if i == |args| - 1 {
      assert args[..i] == front;
    } else {
      FlatAt(front, i, j);
      assert front[..i] == args[..i];
    }
  }

  lemma {:induction false} StartsGrow(args: seq<Arg>, i: nat, k: nat)
    requires i <= k <= |args|
    ensures FlatStart(args, i) <= FlatStart(args, k)
    decreases k - i
  {
    if i < k {
      StartStep(args, i);
      StartsGrow(args, i + 1, k);
    }
  }

  /** The `k`th argument: as written or else, past the end of those, a default one. */
  function ArgumentAt(spec: Spec, k: nat): (a: Option<Argument>)
    ensures a.Some? ==> a.value < spec
  {
    if k < |Flat(spec.args)| then
      assert Within(spec.args, Flat(spec.args)[k]);
      Some(Flat(spec.args)[k])
    else if spec.isSugared && k < |Flat(spec.desugared)| then
      assert Within(spec.desugared, Flat(spec.desugared)[k]);
      Some(Flat(spec.desugared)[k])
    else None
  }

  /** Walks the arguments of a specialization. `current` and `end` are positions in the pack entered last. */
  class InternalIterator {
    const args: seq<Arg>
    var index: nat
    var current: nat
    var end: nat

    ghost predicate Valid()
      reads this
    {
      && index <= |args|
      && if index < |args| && args[index].Pack? then current < end == |args[index].args| else current == end
    }

    /** How many flat arguments were passed. */
    ghost function Passed(): nat
      requires Valid()
      reads this
    {
      FlatStart(args, index) + if index < |args| && args[index].Pack? then current else 0
    }

    constructor (args: seq<Arg>)
      ensures Valid() && this.args == args && Passed() == 0
    {
      this.args := args;
      index, current, end := 0, 0, 0;
      new;
      if index >= |args| || !args[0].Pack? {
        return;
      }
      current, end := 0, |args[0].args|;
      if current != end {
        return;
      }
      StartStep(args, 0);
      NextArg();
    }

    predicate IsEnd()
      reads this
    {
      index >= |args|
    }

    lemma EndMeansAllPassed()
      requires Valid()
      ensures IsEnd() <==> Passed() == |Flat(args)|
      ensures Passed() <= |Flat(args)|
    {
      assert args[..|args|] == args;
      if index < |args| {
        StartStep(args, index);
        StartsGrow(args, index + 1, |args|);
      }
    }

    /** Moves on from `index`, past empty packs. */
    method NextArg()
      requires index < |args| && current == end
      modifies this`index, this`current, this`end
      ensures Valid() && Passed() == FlatStart(args, old(index) + 1)
    {
      while true
        invariant index < |args| && current == end && old(index) <= index
        invariant FlatStart(args, index + 1) == FlatStart(args, old(index) + 1)
        decreases |args| - index
      {
        index := index + 1;
        if index == |args| {
          break;
        }
        if !args[index].Pack? {
          break;
        }
        current, end := 0, |args[index].args|;
        if current != end {
          break;
        }
        StartStep(args, index);
      }
    }

    /** To the next flat argument; at the end it stays there. */
    method Next()
      requires Valid()
      modifies this`index, this`current, this`end
      ensures Valid() && Passed() == if old(IsEnd()) then old(Passed()) else old(Passed()) + 1
    {
      if IsEnd() {
        return;
      }
      StartStep(args, index);
      if current != end {
        current := current + 1;
        if current != end {
          return;
        }
      }
      NextArg();
    }

    function Get(): (a: Argument)
      requires Valid() && !IsEnd()
      reads this
      ensures Passed() < |Flat(args)| && a == Flat(args)[Passed()]
    {
      FlatAt(args, index, if args[index].Pack? then current else 0);
      if current == end then args[index].arg else args[index].args[current]
    }
  }

  function Smaller(a: nat, b: nat): nat {
    if a < b then a else b
  }

  /** Walks a specialization as written and desugared side by side. */
  class TSTiterator {
    const spec: Spec
    const sugared: InternalIterator
    const desugared: InternalIterator

    /** `k` arguments were passed, as far as there are that many. */
    ghost predicate At(k: nat)
      reads sugared, desugared
    {
      && sugared.Valid() && sugared.args == spec.args && sugared.Passed() == Smaller(k, |Flat(spec.args)|)
      && sugared != desugared
      && (spec.isSugared ==>
            desugared.Valid() && desugared.args == spec.desugared &&
              desugared.Passed() == Smaller(k, |Flat(spec.desugared)|))
    }

    constructor (spec: Spec)
      ensures this.spec == spec && At(0) && fresh(sugared) && fresh(desugared)
    {
      this.spec := spec;
      sugared := new InternalIterator(spec.args);
      desugared := new InternalIterator(spec.desugared);
    }

    method Next(ghost k: nat)
      requires At(k)
      modifies sugared, desugared
      ensures At(k + 1)
    {
      sugared.EndMeansAllPassed();
      sugared.Next();
      sugared.EndMeansAllPassed();
      if spec.isSugared {
        desugared.EndMeansAllPassed();
        desugared.Next();
        desugared.EndMeansAllPassed();
      }
    }

    predicate IsEnd()
      reads sugared
    {
      sugared.IsEnd()
    }

    /** The argument as written or, at the end, the default one. */
    method Current(ghost k: nat) returns (a: Option<Argument>)
      requires At(k)
      ensures a == ArgumentAt(spec, k)
      ensures IsEnd() <==> k >= |Flat(spec.args)|
    {
      sugared.EndMeansAllPassed();
      if !sugared.IsEnd() {
        return Some(sugared.Get());
      }
      if spec.isSugared {
        desugared.EndMeansAllPassed();
        if !desugared.IsEnd() {
          return Some(desugared.Get());
        }
      }
      a := None;
    }
  }
}
