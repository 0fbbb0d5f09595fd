/// Which arguments are left out when the difference of two specializations is printed.

module DiffMarks {
  import opened TemplateArguments
  import opened DiffTree

  /** The arguments at position `k` are the same: both are there and are the same type, or the same value if the
      `k`th parameter, or the last one if there are fewer, is no type. */
  ghost predicate SameArguments(env: Env, from: Spec, to: Spec, k: nat) {
    var f, t, params := ArgumentAt(from, k), ArgumentAt(to, k), env.params(from.template);
    && f.Some? && t.Some?
    && if 0 < |params| && !params[if k < |params| then k else |params| - 1].TypeParam?
       then env.sameValue(params[if k < |params| then k else |params| - 1], f.value, t.value)
       else env.sameType(f.value, t.value)
  }

  function Trues(n: nat): (marks: seq<bool>)
    ensures |marks| == n && forall k :: 0 <= k < n ==> marks[k]
  {
    if n == 0 then [] else [true] + Trues(n - 1)
  }

  /** For every position of an argument list whether the items leave it out. */
  function Marks(items: seq<Item>): seq<bool> {
    if items == [] then []
    else (if items[0].Printed? then [false] else Trues(items[0].count)) + Marks(items[1..])
  }

  lemma OneMoreMark(item: Item, rest: seq<Item>)
    ensures Marks([item] + rest) == (if item.Printed? then [false] else Trues(item.count)) + Marks(rest)
  {
    assert ([item] + rest)[1..] == rest;
  }

  /** For every child whether it is left out. */
  function KidMarks(opts: Options, kids: seq<Tree>): (marks: seq<bool>)
    ensures |marks| == |kids|
    ensures forall k :: 0 <= k < |kids| ==> (marks[k] <==> opts.elideType && SameOf(kids[k]))
  {
    if kids == [] then [] else [opts.elideType && SameOf(kids[0])] + KidMarks(opts, kids[1..])
  }

  lemma {:induction false} MarksOfItems(opts: Options, kids: seq<Tree>, run: nat)
    ensures Marks(Items(opts, kids, run)) == Trues(run) + KidMarks(opts, kids)
    decreases |kids|
  {
    if kids == [] {
      OneMoreMark(Elided(run), []);
      assert [Elided(run)] + [] == [Elided(run)];
    } else if opts.elideType && SameOf(kids[0]) {
      MarksOfItems(opts, kids[1..], run + 1);
      OneMoreTrue(run, KidMarks(opts, kids[1..]));
    } else {
      MarksOfItems(opts, kids[1..], 0);
      AfterPrinted(opts, kids, run);
      NoTrues(KidMarks(opts, kids[1..]));
    }
  }

  lemma OneMoreTrue(run: nat, marks: seq<bool>)
    ensures Trues(run + 1) + marks == Trues(run) + ([true] + marks)
  {
  }

  lemma NoTrues(marks: seq<bool>)
    ensures Trues(0) + marks == marks
  {
  }

  lemma AfterPrinted(opts: Options, kids: seq<Tree>, run: nat)
    requires kids != [] && !(opts.elideType && SameOf(kids[0]))
    ensures Marks(Items(opts, kids, run)) == Trues(run) + ([false] + Marks(Items(opts, kids[1..], 0)))
  {
    var rest := Items(opts, kids[1..], 0);
    OneMoreMark(Printed(kids[0]), rest);
    OneMoreMark(Elided(run), [Printed(kids[0])] + rest);
    assert [Elided(run)] + [Printed(kids[0])] + rest == [Elided(run)] + ([Printed(kids[0])] + rest);
    assert [] + [Printed(kids[0])] + rest == [Printed(kids[0])] + rest;
  }

  /** A child is marked exactly when its arguments are the same. */
  lemma MarkOfKid(env: Env, from: Spec, to: Spec, k: nat)
    ensures SameOf(KidAt(env, from, to, k)) <==> SameArguments(env, from, to, k)
  {
  }

  /** The children compare argument by argument exactly the different specializations of one template that are given
      for one type parameter; the others hold the two arguments at their position, and whether they are defaults. */
  lemma KidSays(env: Env, from: Spec, to: Spec, k: nat)
    requires env.params(from.template) != []
    ensures var f, t, params := ArgumentAt(from, k), ArgumentAt(to, k), env.params(from.template);
      var kind, kid := params[if k < |params| then k else |params| - 1], KidAt(env, from, to, k);
      && (kid.TemplateTree? <==>
            && kind == TypeParam && f.Some? && t.Some? && f.value.spec.Some? && t.value.spec.Some?
            && f.value.spec.value.template == t.value.spec.value.template && !env.sameType(f.value, t.value))
      && (kid.TemplateTree? ==> kid == DiffOf(env, f.value.spec.value, t.value.spec.value, env.quals(f.value, t.value)))
      && (kid.PlainTree? ==>
            kid.diff == Difference(kind, f, t, |Flat(from.args)| <= k && f.Some?, |Flat(to.args)| <= k && t.Some?))
  {
  }

  /** The difference of two specializations is printed position by position. If the same arguments are to be left out,
      exactly the positions with the same arguments are; if that is every position of a list that is not empty, a single
      ellipsis stands for all of them. */
  lemma LeftOutExactlyWhen(env: Env, opts: Options, from: Spec, to: Spec, quals: string, indent: nat)
    returns (items: seq<Item>, texts: seq<string>)
    ensures |Marks(items)| ==
            if |Flat(from.args)| < |Flat(to.args)| then |Flat(to.args)| else |Flat(from.args)|
    ensures forall k :: 0 <= k < |Marks(items)| ==>
              (Marks(items)[k] <==> opts.elideType && SameArguments(env, from, to, k))
    ensures |texts| == |items|
    ensures forall i :: 0 <= i < |items| ==> texts[i] == TextOf(env, opts, items[i], Deeper(opts, indent))
    ensures var all := opts.elideType && |Marks(items)| > 0 &&
                       forall k :: 0 <= k < |Marks(items)| ==> SameArguments(env, from, to, k);
      Render(env, opts, DiffOf(env, from, to, quals), indent) ==
      NewLine(opts, indent) + quals + (env.name(from.template) + "<") + (if all then "..." else Join(texts)) + ">"
  {
    var kids := Kids(env, from, to, Longer(from, to));
    items, texts := Items(opts, kids, 0), ItemTexts(env, opts, kids, Deeper(opts, indent), 0);
    MarksOfItems(opts, kids, 0);
    NoTrues(KidMarks(opts, kids));
    TextsOfItems(env, opts, kids, Deeper(opts, indent), 0);
    MarksOfKids(env, from, to, kids);
    TextOfDiff(env, opts, from, to, quals, indent);
  }

  lemma MarksOfKids(env: Env, from: Spec, to: Spec, kids: seq<Tree>)
    requires kids == Kids(env, from, to, Longer(from, to))
    ensures forall k :: 0 <= k < |kids| ==> (SameOf(kids[k]) <==> SameArguments(env, from, to, k))
  {
    forall k: nat | k < |kids|
      ensures SameOf(kids[k]) <==> SameArguments(env, from, to, k)
    {
      KidsAt(env, from, to, Longer(from, to), k);
      MarkOfKid(env, from, to, k);
    }
  }

  lemma TextOfDiff(env: Env, opts: Options, from: Spec, to: Spec, quals: string, indent: nat)
    ensures var kids := Kids(env, from, to, Longer(from, to));
      Render(env, opts, DiffOf(env, from, to, quals), indent) ==
      NewLine(opts, indent) + quals + (env.name(from.template) + "<") +
      (if AllElided(opts, kids) then "..." else Join(ItemTexts(env, opts, kids, Deeper(opts, indent), 0))) + ">"
  {
  }
}
