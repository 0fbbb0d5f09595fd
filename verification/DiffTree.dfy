/// The flat tree of template differences: how it is laid out, built by one cursor and read by another.

module DiffTree {
  import opened Prelude
  import opened Decimals
  import opened TemplateArguments

  datatype ParamKind = TypeParam | TemplateParam | NonTypeParam

  /** What a node that is no template node says about the two arguments. */
  datatype Difference = Difference(kind: ParamKind, from: Option<Argument>, to: Option<Argument>, fromDefault: bool,
                                   toDefault: bool)

  datatype Kind = Invalid | Template(template: nat, quals: string) | Plain(diff: Difference)

  /** The differences as a tree. */
  datatype Tree = TemplateTree(template: nat, quals: string, kids: seq<Tree>) | PlainTree(diff: Difference, same: bool)

  // ---------- The layout ----------

  /** A node of the flat tree; the root has index 0, so 0 also stands for no node. */
  datatype Node = Node(kind: Kind, next: nat, child: nat, parent: nat, same: bool)

  function Size(t: Tree): (n: nat)
    ensures n > 0
    decreases t, 0
  {
    1 + if t.TemplateTree? then SizeAll(t.kids) else 0
  }

  function SizeAll(ts: seq<Tree>): nat
    decreases ts, 0
  {
    if ts == [] then 0 else SizeAll(ts[..|ts| - 1]) + Size(ts[|ts| - 1])
  }

  /** The nodes of tree `t` laid out from index `at` on: the node itself, then its children one after the other. */
  ghost function Layout(t: Tree, at: nat, parent: nat, next: nat): (nodes: seq<Node>)
    ensures |nodes| == Size(t)
    decreases t, 0
  {
    match t
    case PlainTree(diff, same) => [Node(Plain(diff), next, 0, parent, same)]
    case TemplateTree(template, quals, kids) =>
      [Node(Template(template, quals), next, if kids == [] then 0 else at + 1, parent, false)] +
      LayoutAll(kids, at + 1, at, 0)
  }

  /** Trees laid out from index `at` on as children of `parent`; `next` is what follows the last one. */
  ghost function LayoutAll(ts: seq<Tree>, at: nat, parent: nat, next: nat): (nodes: seq<Node>)
    ensures |nodes| == SizeAll(ts)
    decreases ts, 0
  {
    if ts == [] then []
    else
      var front, last := ts[..|ts| - 1], ts[|ts| - 1];
      LayoutAll(front, at, parent, at + SizeAll(front)) + Layout(last, at + SizeAll(front), parent, next)
  }

  lemma {:induction false} LayoutNext(t: Tree, at: nat, parent: nat, a: nat, b: nat)
    ensures Layout(t, at, parent, b) == Layout(t, at, parent, a)[0 := Layout(t, at, parent, a)[0].(next := b)]
  {
  }

  /** Only the last of the trees knows what follows them. */
  lemma {:induction false} LayoutAllNext(ts: seq<Tree>, at: nat, parent: nat, a: nat, b: nat)
    requires ts != []
    ensures var k := SizeAll(ts[..|ts| - 1]);
      LayoutAll(ts, at, parent, b) == LayoutAll(ts, at, parent, a)[k := LayoutAll(ts, at, parent, a)[k].(next := b)]
  {
    LayoutNext(ts[|ts| - 1], at + SizeAll(ts[..|ts| - 1]), parent, a, b);
  }

  lemma SliceOfSlice(s: seq<Node>, lo: nat, hi: nat, i: nat, j: nat)
    requires lo <= hi <= |s| && i <= j <= hi - lo
    ensures s[lo..hi][i..j] == s[lo + i..lo + j]
  {
    var u, v := s[lo..hi][i..j], s[lo + i..lo + j];
    forall k | 0 <= k < j - i
      ensures u[k] == v[k]
    {
      assert u[k] == s[lo..hi][i + k] == s[lo + (i + k)];
    }
  }

  /** Where the `k`th tree begins. */
  ghost function Start(ts: seq<Tree>, at: nat, k: nat): nat
    requires k <= |ts|
  {
    at + SizeAll(ts[..k])
  }

  /** Trees after other trees are laid out after them. */
  lemma {:induction false} LayoutSplits(front: seq<Tree>, back: seq<Tree>, at: nat, parent: nat, next: nat)
    ensures SizeAll(front + back) == SizeAll(front) + SizeAll(back)
    ensures LayoutAll(front + back, at, parent, next) ==
            LayoutAll(front, at, parent, if back == [] then next else at + SizeAll(front)) +
            LayoutAll(back, at + SizeAll(front), parent, next)
    decreases |back|
  {
    if back == [] {
      assert front + back == front;
    } else {
      var less, last := back[..|back| - 1], back[|back| - 1];
      assert (front + back)[..|front + back| - 1] == front + less && (front + back)[|front + back| - 1] == last;
      LayoutSplits(front, less, at, parent, at + SizeAll(front) + SizeAll(less));
    }
  }

  lemma SliceOfMiddle(a: seq<Node>, b: seq<Node>, c: seq<Node>)
    ensures (a + b + c)[|a|..|a| + |b|] == b
  {
  }

  /** The `k`th tree is laid out in place, linked to the one after it. */
  lemma {:induction false} LayoutAllAt(ts: seq<Tree>, at: nat, parent: nat, next: nat, k: nat)
    requires k < |ts|
    ensures SizeAll(ts[..k]) + Size(ts[k]) == SizeAll(ts[..k + 1]) <= SizeAll(ts)
    ensures LayoutAll(ts, at, parent, next)[SizeAll(ts[..k])..SizeAll(ts[..k + 1])] ==
            Layout(ts[k], Start(ts, at, k), parent, if k + 1 < |ts| then Start(ts, at, k + 1) else next)
  {
    var upTo, back := ts[..k + 1], ts[k + 1..];
    assert upTo + back == ts && upTo[..k] == ts[..k];
    LayoutSplits(upTo, back, at, parent, next);
    var link := if back == [] then next else Start(ts, at, k + 1);
    SliceOfMiddle(LayoutAll(ts[..k], at, parent, Start(ts, at, k)), Layout(ts[k], Start(ts, at, k), parent, link),
                  LayoutAll(back, Start(ts, at, k + 1), parent, next));
  }

  lemma KidLink(ts: seq<Tree>, at: nat, parent: nat, k: nat)
    requires k < |ts|
    ensures SizeAll(ts[..k]) < SizeAll(ts)
    ensures LayoutAll(ts, at, parent, 0)[SizeAll(ts[..k])].next == if k + 1 < |ts| then Start(ts, at, k + 1) else 0
    ensures LayoutAll(ts, at, parent, 0)[SizeAll(ts[..k])].parent == parent
  {
    LayoutAllAt(ts, at, parent, 0, k);
    var nodes := LayoutAll(ts, at, parent, 0);
    assert nodes[SizeAll(ts[..k])] == nodes[SizeAll(ts[..k])..SizeAll(ts[..k + 1])][0];
  }

  // ---------- The differences of two specializations ----------

  /** What is known about templates and their arguments, and how single arguments are printed. */
  datatype Env = Env(
    params: nat -> seq<ParamKind>,
    sameType: (Argument, Argument) -> bool,
    sameValue: (ParamKind, Argument, Argument) -> bool,
    quals: (Argument, Argument) -> string,
    name: nat -> string,
    text: (Difference, bool) -> string)

  /** The kind of the `k`th parameter; the last one is a pack that takes all further arguments. */
  function KindAt(env: Env, template: nat, k: nat): ParamKind {
    var params := env.params(template);
    if params == [] then TypeParam else params[if k < |params| then k else |params| - 1]
  }

  /** Whether two type arguments are compared argument by argument. */
  predicate Descends(env: Env, kind: ParamKind, from: Option<Argument>, to: Option<Argument>) {
    && kind.TypeParam? && from.Some? && to.Some? && !env.sameType(from.value, to.value)
    && from.value.spec.Some? && to.value.spec.Some?
    && from.value.spec.value.template == to.value.spec.value.template
  }

  predicate IsSame(env: Env, kind: ParamKind, from: Option<Argument>, to: Option<Argument>) {
    && from.Some? && to.Some?
    && if kind.TypeParam? then env.sameType(from.value, to.value) else env.sameValue(kind, from.value, to.value)
  }

  function DifferenceAt(env: Env, from: Spec, to: Spec, k: nat): Difference {
    var f, t := ArgumentAt(from, k), ArgumentAt(to, k);
    Difference(KindAt(env, from.template, k), f, t,
               k >= |Flat(from.args)| && f.Some?, k >= |Flat(to.args)| && t.Some?)
  }

  /** The difference of the `k`th arguments. */
  function KidAt(env: Env, from: Spec, to: Spec, k: nat): Tree
    decreases from, 0
  {
    var f, t, kind := ArgumentAt(from, k), ArgumentAt(to, k), KindAt(env, from.template, k);
    if Descends(env, kind, f, t) then
      var a, b := f.value.spec.value, t.value.spec.value;
      TemplateTree(a.template, env.quals(f.value, t.value), Kids(env, a, b, Longer(a, b)))
    else PlainTree(DifferenceAt(env, from, to, k), IsSame(env, kind, f, t))
  }

  function Longer(from: Spec, to: Spec): nat {
    if |Flat(from.args)| >= |Flat(to.args)| then |Flat(from.args)| else |Flat(to.args)|
  }

  /** The differences of the first `n` arguments. */
  function Kids(env: Env, from: Spec, to: Spec, n: nat): (kids: seq<Tree>)
    ensures |kids| == n
    decreases from, n + 1
  {
    if n == 0 then [] else Kids(env, from, to, n - 1) + [KidAt(env, from, to, n - 1)]
  }

  /** Every template node has as many children as the longer argument list, one for each position. */
  lemma {:induction false} KidsAt(env: Env, from: Spec, to: Spec, n: nat, k: nat)
    requires k < n
    ensures Kids(env, from, to, n)[k] == KidAt(env, from, to, k)
    decreases n
  {
    if k < n - 1 {
      KidsAt(env, from, to, n - 1, k);
    }
  }

  /** The tree of two specializations of one template. */
  function DiffOf(env: Env, from: Spec, to: Spec, quals: string): Tree {
    TemplateTree(from.template, quals, Kids(env, from, to, Longer(from, to)))
  }

  // ---------- Printing ----------

  datatype Options = Options(printTree: bool, elideType: bool)

  /** Only nodes that are no template nodes are ever marked as the same. */
  predicate SameOf(t: Tree) {
    t.PlainTree? && t.same
  }

  function Spaces(n: nat): string {
    if n == 0 then "" else " " + Spaces(n - 1)
  }

  function NewLine(opts: Options, indent: nat): string {
    if opts.printTree then "\n" + Spaces(2 * indent) else ""
  }

  function Deeper(opts: Options, indent: nat): nat {
    if opts.printTree then indent + 1 else indent
  }

  /** What stands for `n > 0` arguments that are left out in a row. */
  function ElideText(opts: Options, indent: nat, n: nat): string {
    NewLine(opts, indent) + if n == 0 then "" else if n == 1 then "[...]" else "[" + Digits(n) + " * ...]"
  }

  /** The argument list of a template: every child in order, where a run of children that are the same is one
      item; if all of them are, a single ellipsis. */
  datatype Item = Printed(t: Tree) | Elided(count: nat)

  function Items(opts: Options, kids: seq<Tree>, run: nat): seq<Item> {
    if kids == [] then if run > 0 then [Elided(run)] else []
    else if opts.elideType && SameOf(kids[0]) then Items(opts, kids[1..], run + 1)
    else (if run > 0 then [Elided(run)] else []) + [Printed(kids[0])] + Items(opts, kids[1..], 0)
  }

  predicate AllElided(opts: Options, kids: seq<Tree>) {
    opts.elideType && kids != [] && forall k :: 0 <= k < |kids| ==> SameOf(kids[k])
  }

  function Join(texts: seq<string>): string {
    if texts == [] then "" else if |texts| == 1 then texts[0] else texts[0] + ", " + Join(texts[1..])
  }

  function Render(env: Env, opts: Options, t: Tree, indent: nat): string
    decreases t, 0
  {
    match t
    case PlainTree(diff, same) => NewLine(opts, indent) + env.text(diff, same)
    case TemplateTree(template, quals, kids) =>
      NewLine(opts, indent) + quals + (env.name(template) + "<") + KidsText(env, opts, kids, Deeper(opts, indent)) + ">"
  }

  function KidsText(env: Env, opts: Options, kids: seq<Tree>, indent: nat): string
    decreases kids, 1
  {
    if AllElided(opts, kids) then "..." else Join(ItemTexts(env, opts, kids, indent, 0))
  }

  /** The texts of the items. */
  function ItemTexts(env: Env, opts: Options, kids: seq<Tree>, indent: nat, run: nat): seq<string>
    decreases kids, 0
  {
    if kids == [] then if run > 0 then [ElideText(opts, indent, run)] else []
    else if opts.elideType && SameOf(kids[0]) then ItemTexts(env, opts, kids[1..], indent, run + 1)
    else
      (if run > 0 then [ElideText(opts, indent, run)] else []) + [Render(env, opts, kids[0], indent)] +
      ItemTexts(env, opts, kids[1..], indent, 0)
  }

  function TextOf(env: Env, opts: Options, item: Item, indent: nat): string {
    match item case Printed(t) => Render(env, opts, t, indent) case Elided(count) => ElideText(opts, indent, count)
  }

  /** Every item has its own text. */
  lemma {:induction false} TextsOfItems(env: Env, opts: Options, kids: seq<Tree>, indent: nat, run: nat)
    ensures |ItemTexts(env, opts, kids, indent, run)| == |Items(opts, kids, run)|
    ensures forall k :: 0 <= k < |Items(opts, kids, run)| ==>
              ItemTexts(env, opts, kids, indent, run)[k] == TextOf(env, opts, Items(opts, kids, run)[k], indent)
    decreases |kids|
  {
    if kids != [] {
      TextsOfItems(env, opts, kids[1..], indent, if opts.elideType && SameOf(kids[0]) then run + 1 else 0);
    }
  }

  /** How many children the items stand for. */
  function Total(items: seq<Item>): nat {
    if items == [] then 0 else (if items[0].Printed? then 1 else items[0].count) + Total(items[1..])
  }

  /** The children that are printed, in order. */
  function PrintedKids(items: seq<Item>): seq<Tree> {
    if items == [] then [] else (if items[0].Printed? then [items[0].t] else []) + PrintedKids(items[1..])
  }

  function Kept(opts: Options, kids: seq<Tree>): seq<Tree> {
    if kids == [] then [] else (if opts.elideType && SameOf(kids[0]) then [] else [kids[0]]) + Kept(opts, kids[1..])
  }

  lemma OneMoreItem(item: Item, rest: seq<Item>)
    ensures Total([item] + rest) == (if item.Printed? then 1 else item.count) + Total(rest)
    ensures PrintedKids([item] + rest) == (if item.Printed? then [item.t] else []) + PrintedKids(rest)
  {
    assert ([item] + rest)[1..] == rest;
  }

  /** Printed and left out children together are all children, and those printed are exactly those that
      differ, in order. */
  lemma {:induction false} ItemsAreAllKids(opts: Options, kids: seq<Tree>, run: nat)
    ensures Total(Items(opts, kids, run)) == run + |kids|
    ensures PrintedKids(Items(opts, kids, run)) == Kept(opts, kids)
    decreases |kids|
  {
    if kids == [] {
      if run > 0 {
        OneMoreItem(Elided(run), []);
        assert [Elided(run)] + [] == [Elided(run)];
      }
    } else if opts.elideType && SameOf(kids[0]) {
      ItemsAreAllKids(opts, kids[1..], run + 1);
    } else {
      var rest := Items(opts, kids[1..], 0);
      ItemsAreAllKids(opts, kids[1..], 0);
      OneMoreItem(Printed(kids[0]), rest);
      if run > 0 {
        OneMoreItem(Elided(run), [Printed(kids[0])] + rest);
        assert [Elided(run)] + [Printed(kids[0])] + rest == [Elided(run)] + ([Printed(kids[0])] + rest);
      } else {
        assert [] + [Printed(kids[0])] + rest == [Printed(kids[0])] + rest;
      }
    }
  }

  /** What the printing loop still puts out when `k` children are passed, `run` of which were left out since
      the last one printed. */
  function Remaining(env: Env, opts: Options, kids: seq<Tree>, k: nat, indent: nat, run: nat, allElided: bool): string
    requires k <= |kids|
    decreases |kids| - k
  {
    if k == |kids| then if run == 0 then "" else if allElided then "..." else ElideText(opts, indent, run)
    else if opts.elideType && SameOf(kids[k]) then Remaining(env, opts, kids, k + 1, indent, run + 1, allElided)
    else
      KidText(env, opts, kids, k, indent, run) +
      Remaining(env, opts, kids, k + 1, indent, 0, allElided && !opts.elideType)
  }

  /** What is put out for the `k`th child when it is printed. */
  function KidText(env: Env, opts: Options, kids: seq<Tree>, k: nat, indent: nat, run: nat): string
    requires k < |kids|
  {
    ElidedBefore(opts, indent, run) + Render(env, opts, kids[k], indent) + CommaAfter(k + 1 < |kids|)
  }

  function ElidedBefore(opts: Options, indent: nat, run: nat): string {
    if run > 0 then ElideText(opts, indent, run) + ", " else ""
  }

  function CommaAfter(more: bool): string {
    if more then ", " else ""
  }

  lemma JoinCons(first: string, rest: seq<string>)
    ensures Join([first] + rest) == first + if rest == [] then "" else ", " + Join(rest)
  {
    assert ([first] + rest)[1..] == rest;
  }

  lemma JoinPrinted(elided: seq<string>, first: string, rest: seq<string>)
    requires |elided| <= 1
    ensures Join(elided + [first] + rest) ==
            (if elided == [] then "" else elided[0] + ", ") + first + (if rest == [] then "" else ", ") + Join(rest)
  {
    JoinCons(first, rest);
    if elided == [] {
      assert elided + [first] + rest == [first] + rest;
    } else {
      JoinCons(elided[0], [first] + rest);
      assert elided + [first] + rest == [elided[0]] + ([first] + rest);
    }
  }

  /** It is the items joined by commas. */
  lemma {:induction false} RemainingIsJoin(env: Env, opts: Options, kids: seq<Tree>, k: nat, indent: nat, run: nat,
                                           allElided: bool)
    requires k <= |kids| && (run > 0 ==> opts.elideType)
    requires opts.elideType && allElided ==> exists j :: k <= j < |kids| && !SameOf(kids[j])
    ensures Remaining(env, opts, kids, k, indent, run, allElided) == Join(ItemTexts(env, opts, kids[k..], indent, run))
    decreases |kids| - k
  {
    if k < |kids| {
      assert kids[k..][0] == kids[k] && kids[k..][1..] == kids[k + 1..];
      if opts.elideType && SameOf(kids[k]) {
        RemainingIsJoin(env, opts, kids, k + 1, indent, run + 1, allElided);
      } else {
        RemainingIsJoin(env, opts, kids, k + 1, indent, 0, allElided && !opts.elideType);
        var rest := ItemTexts(env, opts, kids[k + 1..], indent, 0);
        SomeText(env, opts, kids[k + 1..], indent, 0);
        JoinPrinted(if run > 0 then [ElideText(opts, indent, run)] else [], Render(env, opts, kids[k], indent), rest);
      }
    }
  }

  /** If all children are the same, a single ellipsis remains. */
  lemma {:induction false} AllElidedRemains(env: Env, opts: Options, kids: seq<Tree>, k: nat, indent: nat)
    requires k <= |kids| && AllElided(opts, kids)
    ensures Remaining(env, opts, kids, k, indent, k, true) == "..."
    decreases |kids| - k
  {
    if k < |kids| {
      AllElidedRemains(env, opts, kids, k + 1, indent);
    }
  }

  /** What is printed between the brackets. */
  lemma ListText(env: Env, opts: Options, kids: seq<Tree>, indent: nat)
    ensures Remaining(env, opts, kids, 0, indent, 0, true) ==
            KidsText(env, opts, kids, indent)
  {
    assert kids[0..] == kids;
    if AllElided(opts, kids) {
      AllElidedRemains(env, opts, kids, 0, indent);
    } else if kids != [] {
      RemainingIsJoin(env, opts, kids, 0, indent, 0, true);
    }
  }

  lemma {:induction false} SomeText(env: Env, opts: Options, kids: seq<Tree>, indent: nat, run: nat)
    ensures ItemTexts(env, opts, kids, indent, run) == [] <==> kids == [] && run == 0
    decreases |kids|
  {
    if kids != [] {
      SomeText(env, opts, kids[1..], indent, if opts.elideType && SameOf(kids[0]) then run + 1 else 0);
    }
  }

  lemma Regroup(a: string, b: string, c: string)
    ensures a + b + c == a + (b + c)
  {
  }

  lemma Regroup3(a: string, b: string, c: string, d: string)
    ensures a + b + c + d == a + (b + c + d)
  {
  }

  lemma Regroup5(a: string, b: string, c: string, d: string, e: string, f: string)
    ensures a + b + c + d + e + f == a + (b + c + d + e + f)
  {
  }

  // ---------- Building ----------

  /** The nodes `before`, with `kids` added as the children of node `c`. */
  ghost function Grown(before: seq<Node>, c: nat, kids: seq<Tree>): seq<Node>
    requires c < |before|
  {
    if kids == [] then before
    else before[c := before[c].(child := |before|)] + LayoutAll(kids, |before|, c, 0)
  }

  /** The same with an empty node added as one more child. */
  ghost function GrownBy(before: seq<Node>, c: nat, kids: seq<Tree>, node: Node): seq<Node>
    requires c < |before|
  {
    before[c := before[c].(child := |before|)] + LayoutAll(kids, |before|, c, |before| + SizeAll(kids)) + [node]
  }

  lemma UpdateMiddle(head: seq<Node>, nodes: seq<Node>, tail: seq<Node>, i: nat, m: Node)
    requires i < |nodes|
    ensures (head + nodes + tail)[|head| + i := m] == head + nodes[i := m] + tail
  {
  }

  /** Linking the last of the children to a new node makes it one of them. */
  lemma LinkLast(before: seq<Node>, c: nat, kids: seq<Tree>, node: Node)
    requires c < |before| && kids != []
    ensures var i, flat := |before| + SizeAll(kids[..|kids| - 1]), Grown(before, c, kids) + [node];
      i < |flat| && flat[i := flat[i].(next := |before| + SizeAll(kids))] == GrownBy(before, c, kids, node)
  {
    var head, nodes := before[c := before[c].(child := |before|)], LayoutAll(kids, |before|, c, 0);
    var k := SizeAll(kids[..|kids| - 1]);
    LayoutAllNext(kids, |before|, c, 0, |before| + SizeAll(kids));
    UpdateMiddle(head, nodes, [node], k, nodes[k].(next := |before| + SizeAll(kids)));
  }

  /** What lies before the new child, and the new child. */
  lemma GrownByParts(before: seq<Node>, c: nat, kids: seq<Tree>, node: Node)
    requires c < |before|
    ensures var flat, n := GrownBy(before, c, kids, node), |before| + SizeAll(kids);
      && |flat| == n + 1 && flat[n] == node
      && flat[..n] ==
         before[c := before[c].(child := |before|)] + LayoutAll(kids, |before|, c, |before| + SizeAll(kids))
  {
  }

  class FlatTree {
    var flat: seq<Node>
    var currentNode: nat
    var nextFreeNode: nat
    var readNode: nat

    constructor ()
      ensures flat == [Node(Invalid, 0, 0, 0, false)] && currentNode == 0 && nextFreeNode == 1 && readNode == 0
    {
      flat := [Node(Invalid, 0, 0, 0, false)];
      currentNode, nextFreeNode, readNode := 0, 1, 0;
    }

    ghost predicate Writing()
      reads this
    {
      currentNode < |flat| && nextFreeNode == |flat|
    }

    method SetPlain(diff: Difference, same: bool)
      requires Writing() && flat[currentNode].kind.Invalid?
      modifies this`flat
      ensures flat == old(flat)[currentNode := old(flat[currentNode]).(kind := Plain(diff), same := same)]
    {
      flat := flat[currentNode := flat[currentNode].(kind := Plain(diff), same := same)];
    }

    method SetTemplate(template: nat, quals: string)
      requires Writing() && flat[currentNode].kind.Invalid?
      modifies this`flat
      ensures flat == old(flat)[currentNode := old(flat[currentNode]).(kind := Template(template, quals))]
    {
      flat := flat[currentNode := flat[currentNode].(kind := Template(template, quals))];
    }

    method Up()
      requires Writing() && !flat[currentNode].kind.Invalid? && flat[currentNode].parent < |flat|
      modifies this`currentNode
      ensures Writing() && currentNode == old(flat[currentNode]).parent
    {
      currentNode := flat[currentNode].parent;
    }

    /** Adds a child after those there are, and makes it the current node. */
    method AddNode(ghost before: seq<Node>, ghost kids: seq<Tree>)
      requires Writing() && flat[currentNode].kind.Template?
      requires currentNode < |before| && before[currentNode].child == 0 && flat == Grown(before, currentNode, kids)
      modifies this`flat, this`currentNode, this`nextFreeNode
      ensures Writing() && currentNode == old(|flat|)
      ensures flat == GrownBy(before, old(currentNode), kids, Node(Invalid, 0, 0, old(currentNode), false))
    {
      ghost var c := currentNode;
      flat := flat + [Node(Invalid, 0, 0, currentNode, false)];
      if flat[currentNode].child == 0 {
        assert kids == [];
        flat := flat[currentNode := flat[currentNode].(child := nextFreeNode)];
      } else {
        ghost var nodes := LayoutAll(kids, |before|, c, 0);
        ghost var head := before[c := before[c].(child := |before|)];
        assert kids != [] && flat == head + nodes + [Node(Invalid, 0, 0, c, false)];
        var i := flat[currentNode].child;
        ghost var k := 0;
        KidLink(kids, |before|, c, 0);
        ghost var all := flat;
        while flat[i].next != 0
          invariant flat == all && currentNode == c && nextFreeNode == old(nextFreeNode)
          invariant k < |kids| && i == Start(kids, |before|, k) < |before| + SizeAll(kids)
          invariant flat[i] == nodes[i - |before|]
          invariant flat[i].next == if k + 1 < |kids| then Start(kids, |before|, k + 1) else 0
          decreases |kids| - k
        {
          i := flat[i].next;
          k := k + 1;
          KidLink(kids, |before|, c, k);
        }
        assert kids[..k] == kids[..|kids| - 1];
        LinkLast(before, c, kids, Node(Invalid, 0, 0, c, false));
        flat := flat[i := flat[i].(next := nextFreeNode)];
      }
      currentNode := nextFreeNode;
      nextFreeNode := nextFreeNode + 1;
    }

    // Reading

    method StartTraverse()
      modifies this`readNode, this`currentNode, this`nextFreeNode
      ensures readNode == 0
    {
      readNode := 0;
      currentNode := nextFreeNode;
      nextFreeNode := 0;
    }

    method Parent()
      requires readNode < |flat|
      modifies this`readNode
      ensures readNode == old(flat[readNode].parent)
    {
      readNode := flat[readNode].parent;
    }

    method MoveToChild()
      requires readNode < |flat|
      modifies this`readNode
      ensures readNode == old(flat[readNode].child)
    {
      readNode := flat[readNode].child;
    }

    method AdvanceSibling() returns (moved: bool)
      requires readNode < |flat|
      modifies this`readNode
      ensures moved <==> old(flat[readNode].next) != 0
      ensures readNode == if moved then old(flat[readNode].next) else old(readNode)
    {
      if flat[readNode].next == 0 {
        return false;
      }
      readNode := flat[readNode].next;
      moved := true;
    }
  }

  // ---------- Building the tree of two specializations ----------

  /** The new child, once filled with tree `t`, makes the children one longer. */
  lemma {:induction false} OneMoreKid(before: seq<Node>, c: nat, kids: seq<Tree>, t: Tree, nodes: seq<Node>)
    requires c < |before|
    requires nodes == before[c := before[c].(child := |before|)] +
                      LayoutAll(kids, |before|, c, |before| + SizeAll(kids)) +
                      Layout(t, |before| + SizeAll(kids), c, 0)
    ensures nodes == Grown(before, c, kids + [t])
  {
    assert (kids + [t])[..|kids|] == kids && (kids + [t])[|kids|] == t;
    var head := before[c := before[c].(child := |before|)];
    var front := LayoutAll(kids, |before|, c, |before| + SizeAll(kids));
    var last := Layout(t, |before| + SizeAll(kids), c, 0);
    assert LayoutAll(kids + [t], |before|, c, 0) == front + last;
    assert head + front + last == head + (front + last);
  }

  /** The new node, filled with tree `t`, is one more child, and leads back to its parent. */
  lemma {:induction false} KidFilled(before: seq<Node>, c: nat, kids: seq<Tree>, t: Tree, empty: seq<Node>,
                                     filled: seq<Node>)
    requires c < |before| && empty == GrownBy(before, c, kids, Node(Invalid, 0, 0, c, false))
    requires |empty| > 0 && filled == empty[..|empty| - 1] + Layout(t, |empty| - 1, c, 0)
    ensures filled == Grown(before, c, kids + [t])
    ensures |empty| - 1 < |filled| && filled[|empty| - 1].parent == c && !filled[|empty| - 1].kind.Invalid?
    ensures c < |filled|
  {
    GrownByParts(before, c, kids, Node(Invalid, 0, 0, c, false));
    OneMoreKid(before, c, kids, t, filled);
    assert filled[|empty| - 1] == Layout(t, |empty| - 1, c, 0)[0];
  }

  /** Two iterators that have both passed `k` arguments. */
  ghost predicate SideBySide(a: TSTiterator, b: TSTiterator, k: nat)
    reads a.sugared, a.desugared, b.sugared, b.desugared
  {
    a.At(k) && b.At(k) && {a.sugared, a.desugared} !! {b.sugared, b.desugared}
  }

  method CurrentArguments(a: TSTiterator, b: TSTiterator, ghost k: nat)
    returns (f: Option<Argument>, t: Option<Argument>, fromEnd: bool, toEnd: bool)
    requires SideBySide(a, b, k)
    ensures f == ArgumentAt(a.spec, k) && t == ArgumentAt(b.spec, k)
    ensures fromEnd == (k >= |Flat(a.spec.args)|) && toEnd == (k >= |Flat(b.spec.args)|)
  {
    f := a.Current(k);
    t := b.Current(k);
    fromEnd, toEnd := a.IsEnd(), b.IsEnd();
  }

  method NextArguments(a: TSTiterator, b: TSTiterator, ghost k: nat)
    requires SideBySide(a, b, k)
    modifies a.sugared, a.desugared, b.sugared, b.desugared
    ensures SideBySide(a, b, k + 1)
  {
    a.Next(k);
    b.Next(k);
  }

  class TemplateDiff {
    const env: Env
    const printTree: bool
    const elideType: bool
    const tree: FlatTree
    var os: string

    constructor (env: Env, printTree: bool, elideType: bool)
      ensures this.env == env && this.printTree == printTree && this.elideType == elideType && os == ""
      ensures fresh(tree) && tree.Writing() && tree.flat == [Node(Invalid, 0, 0, 0, false)] && tree.currentNode == 0
    {
      this.env, this.printTree, this.elideType := env, printTree, elideType;
      tree := new FlatTree();
      os := "";
    }

    /** Adds the difference of every pair of arguments as a child of the current node. */
    method DiffTemplate(from: Spec, to: Spec)
      requires tree.Writing() && tree.flat[tree.currentNode].kind.Template? && tree.flat[tree.currentNode].child == 0
      modifies tree
      ensures tree.Writing() && tree.currentNode == old(tree.currentNode)
      ensures tree.flat == Grown(old(tree.flat), old(tree.currentNode), Kids(env, from, to, Longer(from, to)))
      decreases from, 4
    {
      var fromIter := new TSTiterator(from);
      var toIter := new TSTiterator(to);
      DiffAll(fromIter, toIter);
    }

    method DiffAll(fromIter: TSTiterator, toIter: TSTiterator)
      requires SideBySide(fromIter, toIter, 0)
      requires tree.Writing() && tree.flat[tree.currentNode].kind.Template? && tree.flat[tree.currentNode].child == 0
      modifies tree, fromIter.sugared, fromIter.desugared, toIter.sugared, toIter.desugared
      ensures tree.Writing() && tree.currentNode == old(tree.currentNode)
      ensures var kids := Kids(env, fromIter.spec, toIter.spec, Longer(fromIter.spec, toIter.spec));
        tree.flat == Grown(old(tree.flat), old(tree.currentNode), kids)
      decreases fromIter.spec, 3
    {
      ghost var before, c := tree.flat, tree.currentNode;
      var totalArgs := 0;
      var done := false;
      while !done
        invariant totalArgs <= Longer(fromIter.spec, toIter.spec) &&
                  (done ==> totalArgs == Longer(fromIter.spec, toIter.spec))
        invariant !done ==> SideBySide(fromIter, toIter, totalArgs)
        invariant tree.Writing() && tree.currentNode == c
        invariant tree.flat == Grown(before, c, Kids(env, fromIter.spec, toIter.spec, totalArgs))
        decreases Longer(fromIter.spec, toIter.spec) - totalArgs, !done
      {
        done := DiffNext(fromIter, toIter, totalArgs, before);
        if !done {
          totalArgs := totalArgs + 1;
        }
      }
    }

    /** Adds the difference of the next arguments and moves on, unless both lists have ended. */
    method DiffNext(fromIter: TSTiterator, toIter: TSTiterator, k: nat, ghost before: seq<Node>) returns (done: bool)
      requires SideBySide(fromIter, toIter, k) && tree.Writing() && tree.currentNode < |before|
      requires before[tree.currentNode].child == 0 && before[tree.currentNode].kind.Template?
      requires tree.flat == Grown(before, tree.currentNode, Kids(env, fromIter.spec, toIter.spec, k))
      modifies tree, fromIter.sugared, fromIter.desugared, toIter.sugared, toIter.desugared
      ensures done <==> k >= Longer(fromIter.spec, toIter.spec)
      ensures tree.Writing() && tree.currentNode == old(tree.currentNode)
      ensures done ==> tree.flat == old(tree.flat)
      ensures !done ==>
                && SideBySide(fromIter, toIter, k + 1)
                && tree.flat == Grown(before, tree.currentNode, Kids(env, fromIter.spec, toIter.spec, k + 1))
      decreases fromIter.spec, 2
    {
      var f, t, fromEnd, toEnd := CurrentArguments(fromIter, toIter, k);
      done := fromEnd && toEnd;
      if !done {
        AddDifference(fromIter.spec, toIter.spec, k, f, t, fromEnd, toEnd, before,
                      Kids(env, fromIter.spec, toIter.spec, k));
        NextArguments(fromIter, toIter, k);
      }
    }

    /** Adds the difference of the `k`th arguments after those before it. */
    method AddDifference(from: Spec, to: Spec, k: nat, f: Option<Argument>, t: Option<Argument>, fromEnd: bool,
                         toEnd: bool, ghost before: seq<Node>, ghost kids: seq<Tree>)
      requires f == ArgumentAt(from, k) && t == ArgumentAt(to, k)
      requires fromEnd == (k >= |Flat(from.args)|) && toEnd == (k >= |Flat(to.args)|)
      requires tree.Writing() && tree.currentNode < |before|
      requires before[tree.currentNode].child == 0 && before[tree.currentNode].kind.Template?
      requires tree.flat == Grown(before, tree.currentNode, kids)
      modifies tree
      ensures tree.Writing() && tree.currentNode == old(tree.currentNode)
      ensures tree.flat == Grown(before, tree.currentNode, kids + [KidAt(env, from, to, k)])
      decreases from, 1
    {
      ghost var c, kid := tree.currentNode, KidAt(env, from, to, k);
      ghost var empty := AddEmptyKid(before, kids);
      DiffArguments(from, to, k, f, t, fromEnd, toEnd);
      KidFilled(before, c, kids, kid, empty, tree.flat);
      tree.Up();
    }

    /** Adds an empty child, the last node, and makes it the current one. */
    method AddEmptyKid(ghost before: seq<Node>, ghost kids: seq<Tree>) returns (ghost empty: seq<Node>)
      requires tree.Writing() && tree.flat[tree.currentNode].kind.Template? && tree.currentNode < |before|
      requires before[tree.currentNode].child == 0 && tree.flat == Grown(before, tree.currentNode, kids)
      modifies tree
      ensures tree.Writing() && tree.flat == empty && tree.currentNode == |empty| - 1
      ensures empty == GrownBy(before, old(tree.currentNode), kids, Node(Invalid, 0, 0, old(tree.currentNode), false))
      ensures empty[|empty| - 1] == Node(Invalid, 0, 0, old(tree.currentNode), false)
    {
      ghost var c := tree.currentNode;
      tree.AddNode(before, kids);
      GrownByParts(before, c, kids, Node(Invalid, 0, 0, c, false));
      empty := tree.flat;
    }

    /** Fills the current node, the last one, with the difference of the `k`th arguments. */
    method DiffArguments(from: Spec, to: Spec, k: nat, f: Option<Argument>, t: Option<Argument>, fromEnd: bool,
                         toEnd: bool)
      requires f == ArgumentAt(from, k) && t == ArgumentAt(to, k)
      requires fromEnd == (k >= |Flat(from.args)|) && toEnd == (k >= |Flat(to.args)|)
      requires tree.Writing() && tree.currentNode == |tree.flat| - 1
      requires tree.flat[tree.currentNode].kind.Invalid? && tree.flat[tree.currentNode].child == 0 &&
               tree.flat[tree.currentNode].next == 0 && !tree.flat[tree.currentNode].same
      modifies tree
      ensures tree.Writing() && tree.currentNode == old(tree.currentNode)
      ensures tree.flat == old(tree.flat[..tree.currentNode]) +
                           Layout(KidAt(env, from, to, k), old(tree.currentNode),
                                  old(tree.flat[tree.currentNode]).parent, 0)
      decreases from, 0
    {
      var kind := KindAt(env, from.template, k);
      if Descends(env, kind, f, t) {
        var a, b := f.value.spec.value, t.value.spec.value;
        tree.SetTemplate(a.template, env.quals(f.value, t.value));
        DiffTemplate(a, b);
      } else {
        tree.SetPlain(Difference(kind, f, t, fromEnd && f.Some?, toEnd && t.Some?), IsSame(env, kind, f, t));
      }
    }

    /** Diffs two types and prints the result, if they are specializations of one template. */
    method Emit(from: Argument, to: Argument) returns (emitted: bool)
      requires tree.Writing() && tree.flat == [Node(Invalid, 0, 0, 0, false)] && tree.currentNode == 0
      modifies this`os, tree
      ensures emitted <==> from.spec.Some? && to.spec.Some? && from.spec.value.template == to.spec.value.template
      ensures emitted ==>
                var t := DiffOf(env, from.spec.value, to.spec.value, env.quals(from, to));
                tree.flat == Layout(t, 0, 0, 0) && os == old(os) + Render(env, Opts(), t, 1)
      ensures !emitted ==> os == old(os)
    {
      if from.spec.None? || to.spec.None? || from.spec.value.template != to.spec.value.template {
        return false;
      }
      ghost var t := DiffOf(env, from.spec.value, to.spec.value, env.quals(from, to));
      tree.SetTemplate(from.spec.value.template, env.quals(from, to));
      DiffTemplate(from.spec.value, to.spec.value);
      assert tree.flat == Layout(t, 0, 0, 0);
      tree.StartTraverse();
      assert tree.flat[0..|tree.flat|] == tree.flat;
      TreeToString(1, t, 0, 0);
      emitted := true;
    }

    // Printing

    function Opts(): Options {
      Options(printTree, elideType)
    }

    method PrintElideArgs(numElideArgs: nat, indent: nat)
      modifies this`os
      ensures os == old(os) + ElideText(Opts(), indent, numElideArgs)
    {
      if printTree {
        os := os + "\n" + Spaces(2 * indent);
      }
      if numElideArgs == 0 {
        return;
      }
      os := os + if numElideArgs == 1 then "[...]" else "[" + Digits(numElideArgs) + " * ...]";
    }

    /** Prints the node being read and what is below it; afterwards the same node is being read. */
    method TreeToString(indent: nat, ghost t: Tree, ghost parent: nat, ghost next: nat)
      requires LaidOut(tree.flat, t, tree.readNode, parent, next)
      modifies this`os, tree`readNode
      ensures tree.readNode == old(tree.readNode) && os == old(os) + Render(env, Opts(), t, indent)
      decreases t, 1
    {
      var node := tree.flat[tree.readNode];
      assert node == Layout(t, tree.readNode, parent, next)[0];
      var inner := indent;
      if printTree {
        os := os + ("\n" + Spaces(2 * indent));
        inner := indent + 1;
      }
      ghost var start := NewLine(Opts(), indent);
      assert os == old(os) + start;
      if node.kind.Plain? {
        os := os + env.text(node.kind.diff, node.same);
        Regroup(old(os), start, env.text(node.kind.diff, node.same));
      } else {
        TemplateToString(inner, t, parent, next);
        Regroup5(old(os), start, t.quals, env.name(t.template) + "<", KidsText(env, Opts(), t.kids, inner), ">");
      }
    }

    method TemplateToString(indent: nat, ghost t: Tree, ghost parent: nat, ghost next: nat)
      requires LaidOut(tree.flat, t, tree.readNode, parent, next) && t.TemplateTree?
      modifies this`os, tree`readNode
      ensures tree.readNode == old(tree.readNode)
      ensures os == old(os) + t.quals + (env.name(t.template) + "<") + KidsText(env, Opts(), t.kids, indent) + ">"
      decreases t, 0
    {
      var node := tree.flat[tree.readNode];
      assert node == Layout(t, tree.readNode, parent, next)[0];
      os := os + node.kind.quals;
      if node.child == 0 {
        os := os + (env.name(node.kind.template) + "<");
        os := os + ">";
        return;
      }
      os := os + (env.name(node.kind.template) + "<");
      KidsLaidOut(tree.flat, t, tree.readNode, parent, next);
      ghost var at := tree.readNode;
      tree.MoveToChild();
      PrintArguments(indent, t.kids, at + 1, at);
      ListText(env, Opts(), t.kids, indent);
      tree.Parent();
      os := os + ">";
    }

    /** Prints the `k`th child, with the ellipsis for those left out before it. */
    method PrintKid(indent: nat, numElideArgs: nat, ghost kids: seq<Tree>, ghost at: nat, ghost parent: nat,
                    ghost k: nat)
      requires k < |kids| && AllLaidOut(tree.flat, kids, at, parent) &&
               tree.readNode == Start(kids, at, k) < |tree.flat|
      requires numElideArgs > 0 ==> elideType
      modifies this`os, tree`readNode
      ensures tree.readNode == old(tree.readNode) && os == old(os) + KidText(env, Opts(), kids, k, indent, numElideArgs)
      decreases kids, 0
    {
      KidLaidOut(tree.flat, kids, at, parent, k);
      if elideType {
        PrintElidedBefore(numElideArgs, indent);
      }
      assert os == old(os) + ElidedBefore(Opts(), indent, numElideArgs);
      TreeToString(indent, kids[k], parent, if k + 1 < |kids| then Start(kids, at, k + 1) else 0);
      ghost var printed := os;
      if tree.flat[tree.readNode].next != 0 {
        os := os + ", ";
      }
      assert os == printed + CommaAfter(k + 1 < |kids|);
      Regroup3(old(os), ElidedBefore(Opts(), indent, numElideArgs), Render(env, Opts(), kids[k], indent),
               CommaAfter(k + 1 < |kids|));
    }

    method PrintElidedBefore(numElideArgs: nat, indent: nat)
      modifies this`os
      ensures os == old(os) + ElidedBefore(Opts(), indent, numElideArgs)
    {
      if numElideArgs > 0 {
        PrintElideArgs(numElideArgs, indent);
        os := os + ", ";
        Regroup(old(os), ElideText(Opts(), indent, numElideArgs), ", ");
      }
    }

    /** Prints the children from the one being read on; afterwards the last one is being read. */
    method PrintArguments(indent: nat, ghost kids: seq<Tree>, ghost at: nat, ghost parent: nat)
      requires kids != [] && AllLaidOut(tree.flat, kids, at, parent) && tree.readNode == at
      modifies this`os, tree`readNode
      ensures os == old(os) + Remaining(env, Opts(), kids, 0, indent, 0, true)
      ensures tree.readNode < |tree.flat| && tree.flat[tree.readNode].parent == parent
      decreases kids, 1
    {
      var numElideArgs, allArgsElided := 0, true;
      ghost var k: nat := 0;
      var more := true;
      KidLaidOut(tree.flat, kids, at, parent, k);
      assert kids[..0] == [];
      while more
        invariant AllLaidOut(tree.flat, kids, at, parent) && k <= |kids| && (more <==> k < |kids|)
        invariant (more ==> tree.readNode == Start(kids, at, k)) && (numElideArgs > 0 ==> elideType)
        invariant !more ==> tree.readNode < |tree.flat| && tree.flat[tree.readNode].parent == parent
        invariant os + Remaining(env, Opts(), kids, k, indent, numElideArgs, allArgsElided) ==
                  old(os) + Remaining(env, Opts(), kids, 0, indent, 0, true)
        decreases |kids| - k
      {
        KidLaidOut(tree.flat, kids, at, parent, k);
        if elideType && tree.flat[tree.readNode].same {
          numElideArgs := numElideArgs + 1;
        } else {
          ghost var before := os;
          PrintKid(indent, numElideArgs, kids, at, parent, k);
          Regroup(before, KidText(env, Opts(), kids, k, indent, numElideArgs),
            Remaining(env, Opts(), kids, k + 1, indent, 0, allArgsElided && !elideType));
          if elideType {
            allArgsElided, numElideArgs := false, 0;
          }
        }
        k := k + 1;
        more := tree.AdvanceSibling();
      }
      if numElideArgs > 0 {
        if allArgsElided {
          os := os + "...";
        } else {
          PrintElideArgs(numElideArgs, indent);
        }
      }
    }
  }

  /** Tree `t` lies in the flat tree from index `at` on. */
  ghost predicate LaidOut(flat: seq<Node>, t: Tree, at: nat, parent: nat, next: nat) {
    at + Size(t) <= |flat| && flat[at..at + Size(t)] == Layout(t, at, parent, next)
  }

  ghost predicate AllLaidOut(flat: seq<Node>, ts: seq<Tree>, at: nat, parent: nat) {
    at > 0 && at + SizeAll(ts) <= |flat| && flat[at..at + SizeAll(ts)] == LayoutAll(ts, at, parent, 0)
  }

  lemma {:induction false} KidsLaidOut(flat: seq<Node>, t: Tree, at: nat, parent: nat, next: nat)
    requires t.TemplateTree? && LaidOut(flat, t, at, parent, next)
    ensures AllLaidOut(flat, t.kids, at + 1, at)
  {
    assert flat[at + 1..at + Size(t)] == flat[at..at + Size(t)][1..];
  }

  lemma {:induction false} KidLaidOut(flat: seq<Node>, ts: seq<Tree>, at: nat, parent: nat, k: nat)
    requires AllLaidOut(flat, ts, at, parent) && k < |ts|
    ensures LaidOut(flat, ts[k], Start(ts, at, k), parent, if k + 1 < |ts| then Start(ts, at, k + 1) else 0)
    ensures var node := flat[Start(ts, at, k)];
      node.parent == parent && node.same == SameOf(ts[k]) &&
        node.next == if k + 1 < |ts| then Start(ts, at, k + 1) else 0
  {
    LayoutAllAt(ts, at, parent, 0, k);
    var i, j := SizeAll(ts[..k]), SizeAll(ts[..k + 1]);
    SliceOfSlice(flat, at, at + SizeAll(ts), i, j);
    assert flat[at + i] == flat[at + i..at + j][0];
  }
}
