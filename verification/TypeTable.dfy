/// Uniqued types with canonical nodes: two types are the same exactly when their canonical nodes are.

module TypeTable {

  datatype Quals = Quals(isConst: bool, isRestrict: bool, isVolatile: bool)

  const NONE: Quals := Quals(false, false, false)

  function Union(a: Quals, b: Quals): Quals {
    Quals(a.isConst || b.isConst, a.isRestrict || b.isRestrict, a.isVolatile || b.isVolatile)
  }

  /** A node of the table with the qualifiers written beside it. */
  datatype QualType = QualType(node: nat, quals: Quals)

  datatype SizeModifier = Normal | Static | Star

  datatype Extent = Extent(size: nat, modifier: SizeModifier, indexQuals: Quals)

  /** What a node is looked up by. A leaf is a builtin type or the type of a class declaration. */
  datatype Shape =
    | Leaf(decl: nat)
    | Pointer(to: QualType)
    | LValueReference(to: QualType, spelled: bool)
    | RValueReference(to: QualType)
    | ConstantArray(to: QualType, extent: Extent)
    | Typedef(decl: nat, to: QualType)
    | Paren(to: QualType)
  {
    predicate Sugar() {
      Typedef? || Paren?
    }

    predicate Reference() {
      LValueReference? || RValueReference?
    }
  }

  datatype TypeNode = TypeNode(shape: Shape, canonical: QualType)

  type Types = seq<TypeNode>

  /** Every node is built from earlier ones. */
  ghost predicate Grounded(types: Types) {
    forall i: nat :: i < |types| ==>
      && (types[i].shape.Leaf? || types[i].shape.to.node < i)
      && types[i].canonical.node <= i
  }

  function Canon(types: Types, q: QualType): QualType
    requires q.node < |types|
  {
    QualType(types[q.node].canonical.node, Union(types[q.node].canonical.quals, q.quals))
  }

  /** Whether the node of `q` is its own canonical type; qualifiers beside it do not matter. */
  predicate IsCanonical(types: Types, q: QualType)
    requires q.node < |types|
  {
    types[q.node].canonical == QualType(q.node, NONE)
  }

  predicate IsReference(types: Types, q: QualType)
    requires q.node < |types| && types[q.node].canonical.node < |types|
  {
    types[types[q.node].canonical.node].shape.Reference()
  }

  /** Sugar has the canonical type of what it stands for, and another node one of its own kind. */
  ghost predicate KindKept(types: Types, i: nat)
    requires Grounded(types) && i < |types|
  {
    var s, c := types[i].shape, types[i].canonical;
    if s.Sugar() then c == Canon(types, s.to)
    else !types[c.node].shape.Sugar() && (s.Reference() <==> types[c.node].shape.Reference())
  }

  ghost predicate Layered(types: Types) {
    Grounded(types) && forall i: nat {:trigger KindKept(types, i)} :: i < |types| ==> KindKept(types, i)
  }

  /** The reference type that a type which is a reference stands for, after removing sugar. */
  ghost function AsReference(types: Types, q: QualType): (r: nat)
    requires Layered(types) && q.node < |types| && IsReference(types, q)
    ensures r <= q.node && types[r].shape.Reference()
    decreases q.node
  {
    assert KindKept(types, q.node);
    if types[q.node].shape.Sugar() then AsReference(types, types[q.node].shape.to) else q.node
  }

  /** What a reference to a reference to ... finally refers to. */
  ghost function Pointee(types: Types, r: nat): (q: QualType)
    requires Layered(types) && r < |types| && types[r].shape.Reference()
    ensures q.node < r && !IsReference(types, q)
    decreases r
  {
    var to := types[r].shape.to;
    if IsReference(types, to) then Pointee(types, AsReference(types, to)) else to
  }

  ghost function Referencee(types: Types, q: QualType): (p: QualType)
    requires Layered(types) && q.node < |types|
    ensures p.node <= q.node && !IsReference(types, p)
  {
    if IsReference(types, q) then Pointee(types, AsReference(types, q)) else q
  }

  // ---------- Canonical nodes ----------

  ghost predicate Legal(types: Types, s: Shape) {
    s.Leaf? || s.to.node < |types|
  }

  /** A node of this shape is its own canonical type. */
  ghost predicate IsNormal(types: Types, s: Shape)
    requires Layered(types) && Legal(types, s)
  {
    match s
    case Leaf(_) => true
    case Pointer(to) => IsCanonical(types, to)
    case LValueReference(to, spelled) => spelled && !IsReference(types, to) && IsCanonical(types, to)
    case RValueReference(to) => !IsReference(types, to) && IsCanonical(types, to)
    case ConstantArray(to, _) => IsCanonical(types, to) && to.quals == NONE
    case _ => false
  }

  /** The shape of the canonical node. */
  ghost function NormalShape(types: Types, s: Shape): Shape
    requires Layered(types) && Legal(types, s) && !s.Sugar()
  {
    match s
    case Leaf(_) => s
    case Pointer(to) => Pointer(Canon(types, to))
    case LValueReference(to, _) => LValueReference(Canon(types, Referencee(types, to)), true)
    case RValueReference(to) => RValueReference(Canon(types, Referencee(types, to)))
    case ConstantArray(to, extent) => ConstantArray(QualType(Canon(types, to).node, NONE), extent)
  }

  /** The qualifiers of an array's elements are those of its canonical type. */
  ghost function NormalQuals(types: Types, s: Shape): Quals
    requires Layered(types) && Legal(types, s) && !s.Sugar()
  {
    if s.ConstantArray? then Canon(types, s.to).quals else NONE
  }

  /** The canonical node of a node is its own canonical type, and has the normal shape. */
  ghost predicate CanonicalNormal(types: Types, i: nat)
    requires Layered(types) && i < |types|
  {
    var s, c := types[i].shape, types[i].canonical;
    && IsCanonical(types, QualType(c.node, NONE))
    && (s.Sugar() || (types[c.node].shape == NormalShape(types, s) && c.quals == NormalQuals(types, s)))
  }

  ghost predicate CanonicalsNormal(types: Types)
    requires Layered(types)
  {
    forall i: nat {:trigger CanonicalNormal(types, i)} :: i < |types| ==> CanonicalNormal(types, i)
  }

  datatype Table = Table(types: Types, unique: map<Shape, nat>)

  const EMPTY: Table := Table([], map[])

  /** One node per shape. */
  ghost predicate Uniqued(tb: Table) {
    && (forall i: nat :: i < |tb.types| ==> tb.types[i].shape in tb.unique && tb.unique[tb.types[i].shape] == i)
    && (forall s :: s in tb.unique ==> tb.unique[s] < |tb.types| && tb.types[tb.unique[s]].shape == s)
  }

  ghost predicate Sound(tb: Table) {
    Uniqued(tb) && Layered(tb.types) && CanonicalsNormal(tb.types)
  }

  // ---------- The getters ----------

  function Append(tb: Table, s: Shape, canonical: QualType): Table {
    Table(tb.types + [TypeNode(s, canonical)], tb.unique[s := |tb.types|])
  }

  /** The table after the node of a normal shape was asked for. */
  function WithNormal(tb: Table, s: Shape): Table {
    if s in tb.unique then tb else Append(tb, s, QualType(|tb.types|, NONE))
  }

  /** The table after the node of any shape was asked for. */
  ghost function With(tb: Table, s: Shape): Table
    requires Sound(tb) && Legal(tb.types, s)
  {
    if s in tb.unique then tb
    else if s.Sugar() then Append(tb, s, Canon(tb.types, s.to))
    else if IsNormal(tb.types, s) then WithNormal(tb, s)
    else
      var n := NormalShape(tb.types, s);
      var tb1 := WithNormal(tb, n);
      Append(tb1, s, QualType(tb1.unique[n], NormalQuals(tb.types, s)))
  }

  lemma NormalIsFixed(tb: Table, s: Shape)
    requires Sound(tb) && Legal(tb.types, s) && !s.Sugar()
    ensures Legal(tb.types, NormalShape(tb.types, s)) && IsNormal(tb.types, NormalShape(tb.types, s))
    ensures IsNormal(tb.types, s) ==> NormalShape(tb.types, s) == s && NormalQuals(tb.types, s) == NONE
    ensures !IsNormal(tb.types, s) ==> NormalShape(tb.types, s) != s
  {
    if !s.Leaf? {
      assert CanonicalNormal(tb.types, s.to.node);
      assert CanonicalNormal(tb.types, Referencee(tb.types, s.to).node);
    }
  }

  lemma {:induction false} PointeeKept(types: Types, longer: Types, r: nat)
    requires Layered(types) && Layered(longer) && types <= longer
    requires r < |types| && types[r].shape.Reference()
    ensures Pointee(longer, r) == Pointee(types, r)
    decreases r
  {
    var to := types[r].shape.to;
    if IsReference(types, to) {
      AsReferenceKept(types, longer, to);
      PointeeKept(types, longer, AsReference(types, to));
    }
  }

  lemma {:induction false} AsReferenceKept(types: Types, longer: Types, q: QualType)
    requires Layered(types) && Layered(longer) && types <= longer
    requires q.node < |types| && IsReference(types, q)
    ensures AsReference(longer, q) == AsReference(types, q)
    decreases q.node
  {
    assert KindKept(types, q.node);
    if types[q.node].shape.Sugar() {
      AsReferenceKept(types, longer, types[q.node].shape.to);
    }
  }

  lemma NormalShapeKept(types: Types, longer: Types, s: Shape)
    requires Layered(types) && Layered(longer) && types <= longer
    requires Legal(types, s) && !s.Sugar()
    ensures NormalShape(longer, s) == NormalShape(types, s) && NormalQuals(longer, s) == NormalQuals(types, s)
  {
    if s.Reference() && IsReference(types, s.to) {
      AsReferenceKept(types, longer, s.to);
      PointeeKept(types, longer, AsReference(types, s.to));
    }
  }

  /** What the canonical type of a new node must be. */
  ghost predicate Fits(tb: Table, s: Shape, canonical: QualType)
    requires Sound(tb) && Legal(tb.types, s)
  {
    && canonical.node <= |tb.types|
    && if s.Sugar() then canonical == Canon(tb.types, s.to)
       else
         && canonical.quals == NormalQuals(tb.types, s)
         && if canonical.node == |tb.types| then NormalShape(tb.types, s) == s && canonical.quals == NONE
            else
              && tb.types[canonical.node].shape == NormalShape(tb.types, s)
              && IsCanonical(tb.types, QualType(canonical.node, NONE))
  }

  lemma AppendLayered(tb: Table, s: Shape, canonical: QualType)
    requires Sound(tb) && Legal(tb.types, s) && Fits(tb, s, canonical)
    ensures Layered(Append(tb, s, canonical).types)
  {
    var longer := Append(tb, s, canonical).types;
    assert Grounded(longer);
    forall i: nat | i < |longer|
      ensures KindKept(longer, i)
    {
      assert i < |tb.types| ==> KindKept(tb.types, i);
    }
  }

  /** A new node with the right canonical type keeps the table sound. */
  lemma AppendKeeps(tb: Table, s: Shape, canonical: QualType)
    requires Sound(tb) && Legal(tb.types, s) && s !in tb.unique && Fits(tb, s, canonical)
    ensures Sound(Append(tb, s, canonical))
  {
    var t := Append(tb, s, canonical);
    AppendLayered(tb, s, canonical);
    forall i: nat | i < |t.types|
      ensures CanonicalNormal(t.types, i)
    {
      NormalAt(tb, t, s, canonical, i);
    }
  }

  lemma NormalAt(tb: Table, t: Table, s: Shape, canonical: QualType, i: nat)
    requires Sound(tb) && Legal(tb.types, s) && Fits(tb, s, canonical) && t == Append(tb, s, canonical) &&
             Layered(t.types)
    requires i < |t.types|
    ensures CanonicalNormal(t.types, i)
  {
    if i < |tb.types| {
      assert CanonicalNormal(tb.types, i);
    }
    if !t.types[i].shape.Sugar() {
      NormalShapeKept(tb.types, t.types, t.types[i].shape);
    } else if i == |tb.types| {
      assert CanonicalNormal(tb.types, s.to.node);
    }
  }

  lemma WithNormalKeeps(tb: Table, s: Shape)
    requires Sound(tb) && Legal(tb.types, s) && !s.Sugar() && IsNormal(tb.types, s)
    ensures var t := WithNormal(tb, s);
      && Sound(t) && tb.types <= t.types && s in t.unique
      && t.types[t.unique[s]].canonical == QualType(t.unique[s], NONE)
  {
    NormalIsFixed(tb, s);
    if s in tb.unique {
      assert tb.types[tb.unique[s]].shape == s;
      var c := tb.types[tb.unique[s]].canonical;
      assert CanonicalNormal(tb.types, tb.unique[s]);
      assert tb.types[c.node].shape == s;
    } else {
      AppendKeeps(tb, s, QualType(|tb.types|, NONE));
    }
  }

  /** Asking for a type keeps the table sound and every node in it, and finds or adds its node. */
  lemma WithKeeps(tb: Table, s: Shape)
    requires Sound(tb) && Legal(tb.types, s)
    ensures var t := With(tb, s); Sound(t) && tb.types <= t.types && s in t.unique
  {
    if s !in tb.unique {
      if s.Sugar() {
        AppendKeeps(tb, s, Canon(tb.types, s.to));
      } else {
        NormalIsFixed(tb, s);
        var n := NormalShape(tb.types, s);
        WithNormalKeeps(tb, n);
        if !IsNormal(tb.types, s) {
          var t := WithNormal(tb, n);
          NormalShapeKept(tb.types, t.types, s);
          AppendKeeps(t, s, QualType(t.unique[n], NormalQuals(tb.types, s)));
        }
      }
    }
  }

  /** Looking a shape up again after its canonical shape was asked for still finds nothing. */
  lemma NotInTheMap(tb: Table, s: Shape)
    requires Sound(tb) && Legal(tb.types, s) && !s.Sugar() && s !in tb.unique && !IsNormal(tb.types, s)
    ensures var n := NormalShape(tb.types, s);
      && Legal(tb.types, n) && IsNormal(tb.types, n)
      && With(tb, n) == WithNormal(tb, n) && s !in With(tb, n).unique
      && Sound(With(tb, n)) && n in With(tb, n).unique
      && With(tb, s) == Append(With(tb, n), s, QualType(With(tb, n).unique[n], NormalQuals(tb.types, s)))
  {
    NormalIsFixed(tb, s);
    WithNormalKeeps(tb, NormalShape(tb.types, s));
  }

  // ---------- Structural equality ----------

  /** Types without sugar, with references collapsed as section 8.3.2 ([dcl.ref]) of ISO/IEC 14882:2011
      says and the qualifiers of array elements moved to the array. */
  datatype Term =
    | LeafTerm(decl: nat)
    | PointerTerm(to: QualTerm)
    | ReferenceTerm(isLValue: bool, to: QualTerm)
    | ArrayTerm(element: Term, extent: Extent)

  datatype QualTerm = QualTerm(term: Term, quals: Quals)

  function Qualified(t: QualTerm, quals: Quals): QualTerm {
    QualTerm(t.term, Union(t.quals, quals))
  }

  function ReferenceTo(isLValue: bool, t: QualTerm): Term {
    if t.term.ReferenceTerm? then ReferenceTerm(isLValue || t.term.isLValue, t.term.to) else ReferenceTerm(isLValue, t)
  }

  ghost function Meaning(types: Types, i: nat): QualTerm
    requires Grounded(types) && i < |types|
    decreases i
  {
    match types[i].shape
    case Leaf(decl) => QualTerm(LeafTerm(decl), NONE)
    case Pointer(to) => QualTerm(PointerTerm(Qualified(Meaning(types, to.node), to.quals)), NONE)
    case LValueReference(to, _) => QualTerm(ReferenceTo(true, Qualified(Meaning(types, to.node), to.quals)), NONE)
    case RValueReference(to) => QualTerm(ReferenceTo(false, Qualified(Meaning(types, to.node), to.quals)), NONE)
    case ConstantArray(to, extent) =>
      var element := Qualified(Meaning(types, to.node), to.quals);
      QualTerm(ArrayTerm(element.term, extent), element.quals)
    case Typedef(_, to) => Qualified(Meaning(types, to.node), to.quals)
    case Paren(to) => Qualified(Meaning(types, to.node), to.quals)
  }

  ghost function MeaningOf(types: Types, q: QualType): QualTerm
    requires Grounded(types) && q.node < |types|
  {
    Qualified(Meaning(types, q.node), q.quals)
  }

  /** Node `i` is an rvalue reference formed over an lvalue reference. */
  ghost predicate RValueOverLValue(types: Types, i: nat)
    requires Grounded(types) && i < |types|
  {
    && types[i].shape.RValueReference?
    && types[types[types[i].shape.to.node].canonical.node].shape.LValueReference?
  }

  /** No such node is among the first `n`. */
  ghost predicate NoneBelow(types: Types, n: nat)
    requires Grounded(types) && n <= |types|
  {
    forall i: nat :: i < n ==> !RValueOverLValue(types, i)
  }

  lemma {:induction false} ReferenceMeaning(types: Types, q: QualType)
    requires Layered(types) && q.node < |types|
    ensures IsReference(types, q) <==> Meaning(types, q.node).term.ReferenceTerm?
    ensures IsReference(types, q) ==> Meaning(types, q.node).term.to == MeaningOf(types, Referencee(types, q))
    decreases q.node
  {
    var s := types[q.node].shape;
    assert KindKept(types, q.node);
    if s.Sugar() || s.Reference() {
      ReferenceMeaning(types, s.to);
    }
  }

  lemma ReferenceCanonicalMeaning(tb: Table, i: nat, p: QualType)
    requires Sound(tb) && i < |tb.types| && tb.types[i].shape.Reference() &&
             p == Referencee(tb.types, tb.types[i].shape.to)
    requires Meaning(tb.types, p.node) == MeaningOf(tb.types, tb.types[p.node].canonical)
    ensures Meaning(tb.types, i).term.ReferenceTerm? && Meaning(tb.types, i).term.to == MeaningOf(tb.types, p)
    ensures Meaning(tb.types, i).quals == NONE
    ensures tb.types[i].shape.LValueReference? ==> Meaning(tb.types, i).term.isLValue
    ensures MeaningOf(tb.types, tb.types[i].canonical) ==
            QualTerm(ReferenceTerm(tb.types[i].shape.LValueReference?, MeaningOf(tb.types, p)), NONE)
  {
    assert CanonicalNormal(tb.types, i);
    ReferenceMeaning(tb.types, tb.types[i].shape.to);
    ReferenceMeaning(tb.types, p);
  }

  /** The canonical type means the same as the type. */
  lemma {:induction false} CanonicalMeaning(tb: Table, n: nat, i: nat)
    requires Sound(tb) && i < n <= |tb.types| && NoneBelow(tb.types, n)
    ensures Meaning(tb.types, i) == MeaningOf(tb.types, tb.types[i].canonical)
    decreases i
  {
    var s := tb.types[i].shape;
    assert CanonicalNormal(tb.types, i);
    if s.Reference() {
      var p := Referencee(tb.types, s.to);
      CanonicalMeaning(tb, n, p.node);
      ReferenceCanonicalMeaning(tb, i, p);
      if s.RValueReference? {
        CanonicalMeaning(tb, n, s.to.node);
        RValueMeaning(tb, i);
      }
    } else if !s.Leaf? {
      CanonicalMeaning(tb, n, s.to.node);
      OtherCanonicalMeaning(tb, i);
    }
  }

  lemma OtherCanonicalMeaning(tb: Table, i: nat)
    requires Sound(tb) && i < |tb.types| && !tb.types[i].shape.Reference() && !tb.types[i].shape.Leaf?
    requires var to := tb.types[i].shape.to;
      Meaning(tb.types, to.node) == MeaningOf(tb.types, tb.types[to.node].canonical)
    ensures Meaning(tb.types, i) == MeaningOf(tb.types, tb.types[i].canonical)
  {
    var s, c := tb.types[i].shape, tb.types[i].canonical;
    assert KindKept(tb.types, i) && CanonicalNormal(tb.types, i);
    if s.Pointer? {
      assert tb.types[c.node].shape == Pointer(Canon(tb.types, s.to));
    } else if s.ConstantArray? {
      assert tb.types[c.node].shape == ConstantArray(QualType(Canon(tb.types, s.to).node, NONE), s.extent);
    }
  }

  lemma CanonicalIsNormal(tb: Table, c: nat)
    requires Sound(tb) && c < |tb.types| && IsCanonical(tb.types, QualType(c, NONE))
    ensures !tb.types[c].shape.Sugar() && IsNormal(tb.types, tb.types[c].shape)
  {
    assert KindKept(tb.types, c) && CanonicalNormal(tb.types, c);
    NormalIsFixed(tb, tb.types[c].shape);
  }

  lemma RValueMeaning(tb: Table, i: nat)
    requires Sound(tb) && i < |tb.types| && tb.types[i].shape.RValueReference? && !RValueOverLValue(tb.types, i)
    requires var to := tb.types[i].shape.to;
      Meaning(tb.types, to.node) == MeaningOf(tb.types, tb.types[to.node].canonical)
    ensures Meaning(tb.types, i).term.ReferenceTerm? && !Meaning(tb.types, i).term.isLValue
  {
    var to := tb.types[i].shape.to;
    assert CanonicalNormal(tb.types, to.node);
    ReferenceMeaning(tb.types, to);
    if IsReference(tb.types, to) {
      var c := tb.types[to.node].canonical.node;
      CanonicalIsNormal(tb, c);
      ReferenceMeaning(tb.types, tb.types[c].shape.to);
    }
  }

  /** Canonical nodes with the same meaning are the same node. */
  lemma {:induction false} CanonicalNodesUnique(tb: Table, a: nat, b: nat)
    requires Sound(tb) && a < |tb.types| && b < |tb.types|
    requires IsCanonical(tb.types, QualType(a, NONE)) && IsCanonical(tb.types, QualType(b, NONE))
    requires Meaning(tb.types, a).term == Meaning(tb.types, b).term
    ensures a == b
    decreases a
  {
    var s, t := tb.types[a].shape, tb.types[b].shape;
    CanonicalShape(tb, a);
    CanonicalShape(tb, b);
    if !s.Leaf? && !t.Leaf? {
      CanonicalNodesUnique(tb, s.to.node, t.to.node);
    }
    assert s == t;
  }

  /** The shape of a canonical node and its meaning determine one another. */
  lemma CanonicalShape(tb: Table, a: nat)
    requires Sound(tb) && a < |tb.types| && IsCanonical(tb.types, QualType(a, NONE))
    ensures Meaning(tb.types, a).quals == NONE
    ensures var s := tb.types[a].shape;
      && !s.Sugar() && IsNormal(tb.types, s)
      && (s.Leaf? || (IsCanonical(tb.types, QualType(s.to.node, NONE)) && Meaning(tb.types, s.to.node).quals == NONE))
      && (match s
          case Leaf(decl) => Meaning(tb.types, a).term == LeafTerm(decl)
          case Pointer(to) => Meaning(tb.types, a).term == PointerTerm(MeaningOf(tb.types, to))
          case LValueReference(to, spelled) =>
            spelled && Meaning(tb.types, a).term == ReferenceTerm(true, MeaningOf(tb.types, to))
          case RValueReference(to) => Meaning(tb.types, a).term == ReferenceTerm(false, MeaningOf(tb.types, to))
          case ConstantArray(to, extent) =>
            to.quals == NONE && Meaning(tb.types, a).term == ArrayTerm(Meaning(tb.types, to.node).term, extent)
          case _ => false)
  {
    var s := tb.types[a].shape;
    CanonicalIsNormal(tb, a);
    if !s.Leaf? {
      assert CanonicalNormal(tb.types, s.to.node);
      ReferenceMeaning(tb.types, s.to);
    }
  }

  /** Two types have the same canonical type exactly when they mean the same. */
  lemma SameCanonicalIffSameMeaning(tb: Table, n: nat, a: QualType, b: QualType)
    requires Sound(tb) && a.node < n <= |tb.types| && b.node < n && NoneBelow(tb.types, n)
    ensures Canon(tb.types, a) == Canon(tb.types, b) <==> MeaningOf(tb.types, a) == MeaningOf(tb.types, b)
  {
    var types := tb.types;
    assert CanonicalNormal(types, a.node) && CanonicalNormal(types, b.node);
    CanonicalMeaning(tb, n, a.node);
    CanonicalMeaning(tb, n, b.node);
    CanonicalShape(tb, types[a.node].canonical.node);
    CanonicalShape(tb, types[b.node].canonical.node);
    if MeaningOf(types, a) == MeaningOf(types, b) {
      CanonicalNodesUnique(tb, types[a.node].canonical.node, types[b.node].canonical.node);
    }
  }

  /** Whether two types have the same canonical type is whether they are structurally equal. */
  ghost predicate CanonicalsDecideFor(types: Types, a: QualType, b: QualType)
    requires Grounded(types) && a.node < |types| && b.node < |types|
  {
    Canon(types, a) == Canon(types, b) <==> MeaningOf(types, a) == MeaningOf(types, b)
  }

  /** Canonical types decide structural equality throughout the table. */
  ghost predicate CanonicalsDecide(types: Types)
    requires Grounded(types)
  {
    forall a: QualType, b: QualType {:trigger CanonicalsDecideFor(types, a, b)} ::
      a.node < |types| && b.node < |types| ==> CanonicalsDecideFor(types, a, b)
  }

  /** They do exactly when no rvalue reference was formed over an lvalue reference: such a reference is given
      the canonical type of an rvalue reference, while the language makes it an lvalue reference. */
  lemma {:induction false} CanonicalsDecideExactlyWhen(tb: Table)
    requires Sound(tb)
    ensures CanonicalsDecide(tb.types) <==> NoneBelow(tb.types, |tb.types|)
  {
    if NoneBelow(tb.types, |tb.types|) {
      forall a: QualType, b: QualType | a.node < |tb.types| && b.node < |tb.types|
        ensures CanonicalsDecideFor(tb.types, a, b)
      {
        SameCanonicalIffSameMeaning(tb, |tb.types|, a, b);
      }
    } else {
      var i := FirstBad(tb.types, |tb.types|);
      BadNodeMisjudged(tb, i);
      assert !CanonicalsDecideFor(tb.types, QualType(i, NONE),
                                  QualType(tb.types[tb.types[i].shape.to.node].canonical.node, NONE));
    }
  }

  lemma {:induction false} FirstBad(types: Types, n: nat) returns (i: nat)
    requires Grounded(types) && n <= |types| && !NoneBelow(types, n)
    ensures i < n && RValueOverLValue(types, i) && NoneBelow(types, i)
    decreases n
  {
    if NoneBelow(types, n - 1) {
      i := n - 1;
    } else {
      i := FirstBad(types, n - 1);
    }
  }

  lemma BadNodeMisjudged(tb: Table, i: nat)
    requires Sound(tb) && i < |tb.types| && RValueOverLValue(tb.types, i) && NoneBelow(tb.types, i)
    ensures var a, b := QualType(i, NONE), QualType(tb.types[tb.types[i].shape.to.node].canonical.node, NONE);
      Canon(tb.types, a) != Canon(tb.types, b) && MeaningOf(tb.types, a) == MeaningOf(tb.types, b)
  {
    var to := tb.types[i].shape.to;
    assert CanonicalNormal(tb.types, to.node) && CanonicalNormal(tb.types, i);
    CanonicalMeaning(tb, i, to.node);
    CanonicalShape(tb, tb.types[to.node].canonical.node);
    assert tb.types[tb.types[i].canonical.node].shape.RValueReference?;
  }

  // ---------- Runs of getter calls ----------

  /** The table after a run of requests; none can be made for a type over a node that does not exist. */
  ghost function Run(shapes: seq<Shape>): (tb: Table)
    ensures Sound(tb)
  {
    if shapes == [] then EMPTY
    else
      var before, s := Run(shapes[..|shapes| - 1]), shapes[|shapes| - 1];
      if Legal(before.types, s) then
        WithKeeps(before, s);
        With(before, s)
      else before
  }

  /** After any run, canonical types decide structural equality exactly when no rvalue reference was formed
      over an lvalue reference. */
  lemma {:induction false} AfterAnyRun(shapes: seq<Shape>)
    ensures CanonicalsDecide(Run(shapes).types) <==> NoneBelow(Run(shapes).types, |Run(shapes).types|)
  {
    CanonicalsDecideExactlyWhen(Run(shapes));
  }

  lemma RunOneMore(shapes: seq<Shape>, s: Shape)
    requires Legal(Run(shapes).types, s)
    ensures Run(shapes + [s]) == With(Run(shapes), s)
  {
    assert (shapes + [s])[..|shapes|] == shapes;
  }

  /** `T& &&` is the smallest failure: it comes out different from `T&`. */
  lemma RValueOverLValueFails(a: Shape, b: Shape, c: Shape)
    requires a == Leaf(0) && b == LValueReference(QualType(0, NONE), true) && c == RValueReference(QualType(1, NONE))
    ensures var t := Run([a] + [b] + [c]).types;
      && |t| == 4
      && Canon(t, QualType(1, NONE)) != Canon(t, QualType(3, NONE))
      && MeaningOf(t, QualType(1, NONE)) == MeaningOf(t, QualType(3, NONE))
  {
    FirstTwoNodes(a, b);
    RunOneMore([a] + [b], c);
    ThirdAndFourth(Run([a] + [b]), a, b, c);
    FourNodes(Run([a] + [b] + [c]).types, a, b, c);
  }

  lemma FirstNode(a: Shape)
    requires a == Leaf(0)
    ensures Run([a]).types == [TypeNode(a, QualType(0, NONE))]
  {
    assert [a][..0] == [] && Legal(EMPTY.types, a);
    assert a !in EMPTY.unique && IsNormal(EMPTY.types, a);
    assert With(EMPTY, a) == Append(EMPTY, a, QualType(0, NONE));
  }

  lemma FirstTwoNodes(a: Shape, b: Shape)
    requires a == Leaf(0) && b == LValueReference(QualType(0, NONE), true)
    ensures Run([a] + [b]).types == [TypeNode(a, QualType(0, NONE)), TypeNode(b, QualType(1, NONE))]
  {
    FirstNode(a);
    RunOneMore([a], b);
    SecondNode(Run([a]), a, b);
  }

  lemma SecondNode(tb: Table, a: Shape, b: Shape)
    requires a == Leaf(0) && b == LValueReference(QualType(0, NONE), true)
    requires Sound(tb) && tb.types == [TypeNode(a, QualType(0, NONE))]
    ensures With(tb, b).types == tb.types + [TypeNode(b, QualType(1, NONE))]
  {
  }

  lemma ThirdAndFourth(tb: Table, a: Shape, b: Shape, c: Shape)
    requires a == Leaf(0) && b == LValueReference(QualType(0, NONE), true) && c == RValueReference(QualType(1, NONE))
    requires Sound(tb) && tb.types == [TypeNode(a, QualType(0, NONE)), TypeNode(b, QualType(1, NONE))]
    ensures With(tb, c).types ==
            tb.types + [TypeNode(RValueReference(QualType(0, NONE)), QualType(2, NONE)), TypeNode(c, QualType(2, NONE))]
  {
    assert Referencee(tb.types, QualType(1, NONE)) == QualType(0, NONE);
    assert NormalShape(tb.types, c) == RValueReference(QualType(0, NONE));
  }

  lemma FourNodes(t: Types, a: Shape, b: Shape, c: Shape)
    requires a == Leaf(0) && b == LValueReference(QualType(0, NONE), true) && c == RValueReference(QualType(1, NONE))
    requires t == [TypeNode(a, QualType(0, NONE)), TypeNode(b, QualType(1, NONE)),
                   TypeNode(RValueReference(QualType(0, NONE)), QualType(2, NONE)), TypeNode(c, QualType(2, NONE))]
    requires Grounded(t)
    ensures MeaningOf(t, QualType(1, NONE)) == MeaningOf(t, QualType(3, NONE))
  {
    assert Meaning(t, 0) == QualTerm(LeafTerm(0), NONE);
    assert Meaning(t, 1) == QualTerm(ReferenceTerm(true, Meaning(t, 0)), NONE);
  }

  // ---------- The getters as the program runs them ----------

  /** The state in which a getter makes the node for `s`: the canonical node has been found or made, unless
      the new node is to be its own. */
  ghost predicate ReadyToMake(before: Table, now: Table, s: Shape, canonical: QualType) {
    && Sound(before) && Legal(before.types, s) && s !in before.unique
    && if s.Sugar() then now == before && canonical == Canon(before.types, s.to)
       else if IsNormal(before.types, s) then now == before && canonical == QualType(|before.types|, NONE)
       else
         var n := NormalShape(before.types, s);
         && Sound(before) && Legal(before.types, n) && now == With(before, n) && n in now.unique
         && canonical == QualType(now.unique[n], NormalQuals(before.types, s))
  }

  function Truncated(size: nat, modulus: nat): (r: nat)
    requires modulus > 0
    ensures r < modulus && (size < modulus ==> r == size)
  {
    size % modulus
  }

  class ASTContext {
    const sizeModulus: nat
    var types: Types
    var unique: map<Shape, nat>

    constructor (sizeModulus: nat)
      requires sizeModulus > 0
      ensures Valid() && Value() == EMPTY && this.sizeModulus == sizeModulus
    {
      this.sizeModulus := sizeModulus;
      types, unique := [], map[];
    }

    function Value(): Table
      reads this
    {
      Table(types, unique)
    }

    ghost predicate Valid()
      reads this
    {
      Sound(Value()) && sizeModulus > 0
    }

    /** The node found or made for shape `s` from the table `before`. */
    twostate predicate Made(s: Shape, q: QualType)
      requires old(Valid()) && Legal(old(types), s)
      reads this
    {
      Valid() && Value() == With(old(Value()), s) && s in unique && q == QualType(unique[s], NONE)
    }

    method New(s: Shape, canonical: QualType, ghost before: Table) returns (q: QualType)
      requires ReadyToMake(before, Value(), s, canonical) && sizeModulus > 0
      modifies this`types, this`unique
      ensures Valid() && Value() == With(before, s) && s in unique && q == QualType(unique[s], NONE)
    {
      WithKeeps(before, s);
      if !s.Sugar() && !IsNormal(before.types, s) {
        NotInTheMap(before, s);
      }
      q := QualType(|types|, NONE);
      types := types + [TypeNode(s, canonical)];
      unique := unique[s := q.node];
    }

    method GetLeafType(decl: nat) returns (q: QualType)
      requires Valid()
      modifies this`types, this`unique
      ensures Made(Leaf(decl), q)
    {
      if Leaf(decl) in unique {
        return QualType(unique[Leaf(decl)], NONE);
      }
      q := New(Leaf(decl), QualType(|types|, NONE), Value());
    }

    method GetPointerType(t: QualType) returns (q: QualType)
      requires Valid() && t.node < |types|
      modifies this`types, this`unique
      ensures Made(Pointer(t), q)
      decreases !IsCanonical(types, t)
    {
      var s := Pointer(t);
      ghost var before := Value();
      if s in unique {
        return QualType(unique[s], NONE);
      }
      var canonical := QualType(|types|, NONE);
      if !IsCanonical(types, t) {
        NotInTheMap(Value(), s);
        canonical := GetPointerType(Canon(types, t));
        assert s !in unique;
      }
      q := New(s, canonical, before);
    }

    /** Removes sugar down to the reference type. */
    method GetAsReference(t: QualType) returns (r: nat)
      requires Layered(types) && t.node < |types| && IsReference(types, t)
      ensures r == AsReference(types, t)
    {
      r := t.node;
      while types[r].shape.Sugar()
        invariant r < |types| && IsReference(types, QualType(r, NONE))
        invariant AsReference(types, QualType(r, NONE)) == AsReference(types, t)
        decreases r
      {
        assert KindKept(types, r);
        r := types[r].shape.to.node;
      }
    }

    /** Follows references to references. */
    method GetPointeeType(ref: nat) returns (q: QualType)
      requires Layered(types) && ref < |types| && types[ref].shape.Reference()
      ensures q == Pointee(types, ref)
    {
      var r: nat := ref;
      while IsReference(types, types[r].shape.to)
        invariant r < |types| && types[r].shape.Reference() && Pointee(types, r) == Pointee(types, ref)
        decreases r
      {
        r := GetAsReference(types[r].shape.to);
      }
      q := types[r].shape.to;
    }

    method GetReferencee(t: QualType) returns (q: QualType)
      requires Layered(types) && t.node < |types|
      ensures q == Referencee(types, t)
    {
      if IsReference(types, t) {
        var inner := GetAsReference(t);
        q := GetPointeeType(inner);
      } else {
        q := t;
      }
    }

    method GetLValueReferenceType(t: QualType, spelledAsLValue: bool) returns (q: QualType)
      requires Valid() && t.node < |types|
      modifies this`types, this`unique
      ensures Made(LValueReference(t, spelledAsLValue), q)
      decreases !spelledAsLValue || IsReference(types, t) || !IsCanonical(types, t)
    {
      var s := LValueReference(t, spelledAsLValue);
      ghost var before := Value();
      if s in unique {
        return QualType(unique[s], NONE);
      }
      var canonical := QualType(|types|, NONE);
      if !spelledAsLValue || IsReference(types, t) || !IsCanonical(types, t) {
        NotInTheMap(Value(), s);
        var pointee := GetReferencee(t);
        canonical := GetLValueReferenceType(Canon(types, pointee), true);
        assert s !in unique;
      }
      q := New(s, canonical, before);
    }

    method GetRValueReferenceType(t: QualType) returns (q: QualType)
      requires Valid() && t.node < |types|
      modifies this`types, this`unique
      ensures Made(RValueReference(t), q)
      decreases IsReference(types, t) || !IsCanonical(types, t)
    {
      var s := RValueReference(t);
      ghost var before := Value();
      if s in unique {
        return QualType(unique[s], NONE);
      }
      var canonical := QualType(|types|, NONE);
      if IsReference(types, t) || !IsCanonical(types, t) {
        NotInTheMap(Value(), s);
        var pointee := GetReferencee(t);
        canonical := GetRValueReferenceType(Canon(types, pointee));
        assert s !in unique;
      }
      q := New(s, canonical, before);
    }

    /** Array sizes are kept modulo the target's pointer width. */
    method GetConstantArrayType(element: QualType, size: nat, modifier: SizeModifier, indexQuals: Quals)
      returns (q: QualType)
      requires Valid() && element.node < |types|
      modifies this`types, this`unique
      ensures Made(ConstantArray(element, Extent(Truncated(size, sizeModulus), modifier, indexQuals)), q)
      decreases !IsCanonical(types, element) || element.quals != NONE
    {
      var size := Truncated(size, sizeModulus);
      var s := ConstantArray(element, Extent(size, modifier, indexQuals));
      ghost var before := Value();
      if s in unique {
        return QualType(unique[s], NONE);
      }
      var canonical := QualType(|types|, NONE);
      if !IsCanonical(types, element) || element.quals != NONE {
        NotInTheMap(Value(), s);
        var split := Canon(types, element);
        assert ConstantArray(QualType(split.node, NONE), s.extent) == NormalShape(types, s);
        var plain := GetConstantArrayType(QualType(split.node, NONE), size, modifier, indexQuals);
        canonical := QualType(plain.node, Union(plain.quals, split.quals));
        assert s !in unique;
      }
      q := New(s, canonical, before);
    }

    method GetTypedefType(decl: nat, underlying: QualType) returns (q: QualType)
      requires Valid() && underlying.node < |types|
      modifies this`types, this`unique
      ensures Made(Typedef(decl, underlying), q)
    {
      var s := Typedef(decl, underlying);
      ghost var before := Value();
      if s in unique {
        return QualType(unique[s], NONE);
      }
      q := New(s, Canon(types, underlying), before);
    }

    method GetParenType(inner: QualType) returns (q: QualType)
      requires Valid() && inner.node < |types|
      modifies this`types, this`unique
      ensures Made(Paren(inner), q)
    {
      var s := Paren(inner);
      ghost var before := Value();
      if s in unique {
        return QualType(unique[s], NONE);
      }
      var canonical := inner;
      if !IsCanonical(types, inner) {
        canonical := Canon(types, inner);
      }
      q := New(s, canonical, before);
    }
  }
}
