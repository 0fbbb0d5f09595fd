/// Unique object representations: which types have no padding at any level.

module ObjectRepresentation {
  import opened Prelude

  /** A type of the program with its layout. Sizes are in characters; of an integer of `size` characters
      `bits` bits hold its value, which are fewer for the types `_ExtInt(bits)`. */
  datatype Type =
    | Integral(size: nat, bits: nat)
    | Pointer(size: nat)
    | MemberPointer(size: nat, hasPadding: bool)
    | OtherScalar(size: nat)
    | Reference(size: nat)
    | Array(element: Type, count: nat)
    | Class(rec: Record)

  /** A structure, class or union; only a C++ class has bases. */
  datatype Record = Record(
    size: nat, isUnion: bool, isCxx: bool, isDynamic: bool, isInvalid: bool, isTriviallyCopyable: bool,
    bases: seq<Base>, fields: seq<Field>)

  /** Offsets of bases are in characters, those of fields in bits. */
  datatype Base = Base(rec: Record, offset: nat)

  datatype Field = Member(ty: Type, offset: nat) | BitField(ty: Type, offset: nat, width: nat, named: bool)

  /** The size of `count` things of size `n`, one after the other. */
  function Times(count: nat, n: nat): nat {
    if count == 0 then 0 else Times(count - 1, n) + n
  }

  function SizeOf(t: Type): nat {
    match t
    case Array(element, count) => Times(count, SizeOf(element))
    case Class(rec) => rec.size
    case _ => t.size
  }

  function BitsOf(t: Type): nat {
    8 * SizeOf(t)
  }

  /** How many bits of a scalar hold its value, from the first on. */
  function ValueWidth(t: Type): (w: nat)
    ensures w <= BitsOf(t)
  {
    if t.Integral? && t.bits < BitsOf(t) then t.bits else BitsOf(t)
  }

  function BaseElement(t: Type): (e: Type)
    ensures e == t || e < t
    ensures t.Array? ==> e < t
  {
    if t.Array? then BaseElement(t.element) else t
  }

  /** No members but bit-fields of width zero, no virtual functions or bases, and no base that has any. */
  predicate IsEmptyClass(rec: Record)
    decreases rec
  {
    && !rec.isDynamic
    && (forall i :: 0 <= i < |rec.fields| ==> rec.fields[i].BitField? && rec.fields[i].width == 0)
    && (forall i :: 0 <= i < |rec.bases| ==> IsEmptyClass(rec.bases[i].rec))
  }

  predicate IsStructEmpty(rec: Record) {
    rec.fields == [] && (rec.isCxx ==> IsEmptyClass(rec))
  }

  // ---------- The question ----------

  /** A part of an object: the bits from `offset` up to but not including `offset + bits`. */
  datatype Part = Part(offset: nat, bits: nat)

  function InsertByOffset(parts: seq<Part>, p: Part): seq<Part> {
    if parts == [] || parts[|parts| - 1].offset <= p.offset then parts + [p]
    else InsertByOffset(parts[..|parts| - 1], p) + [parts[|parts| - 1]]
  }

  function SortByOffset(parts: seq<Part>): seq<Part> {
    if parts == [] then [] else InsertByOffset(SortByOffset(parts[..|parts| - 1]), parts[|parts| - 1])
  }

  /** Where the first `n` parts end, if each begins where the one before it ends. */
  function ChainEnd(parts: seq<Part>, n: nat): Option<nat>
    requires n <= |parts|
  {
    if n == 0 then Some(0)
    else
      var before := ChainEnd(parts, n - 1);
      if before.None? || parts[n - 1].offset != before.value then None
      else Some(parts[n - 1].offset + parts[n - 1].bits)
  }

  /** The parts that the first `n` bases fill, if none of them has a gap; empty bases are passed over. */
  function BaseParts(rec: Record, n: nat): Option<seq<Part>>
    requires n <= |rec.bases|
    decreases rec, n
  {
    if n == 0 then Some([])
    else
      var before, base := BaseParts(rec, n - 1), rec.bases[n - 1];
      if before.None? || IsStructEmpty(base.rec) then before
      else
        var bits := StructBits(base.rec);
        if bits.None? then None else Some(before.value + [Part(8 * base.offset, bits.value)])
  }

  function BasesEnd(rec: Record): Option<nat>
    decreases rec, |rec.bases| + 1
  {
    if !rec.isCxx then Some(0)
    else if rec.isDynamic then None
    else
      var parts := BaseParts(rec, |rec.bases|);
      if parts.None? then None
      else
        var sorted := SortByOffset(parts.value);
        ChainEnd(sorted, |sorted|)
  }

  function FieldBits(f: Field): Option<nat> {
    if f.Member? then Some(BitsOf(f.ty)) else if f.width > BitsOf(f.ty) then None else Some(f.width)
  }

  /** Where the first `n` fields end, if there is no gap up to there. */
  function FieldsEnd(rec: Record, n: nat): Option<nat>
    requires n <= |rec.fields|
    decreases rec, |rec.bases| + 2 + n
  {
    if n == 0 then BasesEnd(rec)
    else
      var before, f := FieldsEnd(rec, n - 1), rec.fields[n - 1];
      if before.None? || (!f.ty.Reference? && !HasUnique(f.ty)) then None
      else
        var bits := FieldBits(f);
        if bits.None? || f.offset != before.value then None else Some(f.offset + bits.value)
  }

  function StructBits(rec: Record): Option<nat>
    decreases rec, |rec.bases| + |rec.fields| + 3
  {
    FieldsEnd(rec, |rec.fields|)
  }

  predicate UnionIsUnique(rec: Record)
    decreases rec, 0
  {
    && rec.fields != []
    && forall i :: 0 <= i < |rec.fields| ==> HasUnique(rec.fields[i].ty) && SizeOf(rec.fields[i].ty) == rec.size
  }

  predicate HasUnique(t: Type)
    decreases t
  {
    match t
    case Array(_, _) => HasUnique(BaseElement(t))
    case Integral(_, _) => true
    case Pointer(_) => true
    case MemberPointer(_, hasPadding) => !hasPadding
    case Class(rec) =>
      && rec.isTriviallyCopyable && !rec.isInvalid
      && if rec.isUnion then UnionIsUnique(rec) else StructBits(rec) == Some(8 * rec.size)
    case _ => false
  }

  // ---------- What it means ----------

  /** Which member of the union at a path is active. */
  type Active = seq<nat> -> nat

  /** The members of a union that can be active: unnamed bit-fields cannot. */
  function Members(fields: seq<Field>): (ms: seq<Field>)
    ensures forall m :: m in ms ==> m in fields && (m.Member? || m.named)
    ensures forall m :: m in fields && (m.Member? || m.named) ==> m in ms
  {
    if fields == [] then []
    else
      var front, f := Members(fields[..|fields| - 1]), fields[|fields| - 1];
      assert fields == fields[..|fields| - 1] + [f];
      if f.BitField? && !f.named then front else front + [f]
  }

  function Hit(offset: int, bits: nat, b: int): nat {
    if offset <= b < offset + bits then 1 else 0
  }

  const ANY: Type -> bool := t => true

  function BasesOf(rec: Record): seq<Base> {
    if rec.isCxx then rec.bases else []
  }

  /** How many scalar leaves of an object, of the types that `of` selects, lie over bit `b` of it. */
  function Leaves(of: Type -> bool, t: Type, path: seq<nat>, active: Active, b: int): nat
    decreases t, 0
  {
    match t
    case Array(_, count) => ArrayLeaves(of, t, count, path, active, b)
    case Class(rec) =>
      if rec.isUnion then UnionLeaves(of, rec, path, active, b) else StructLeaves(of, rec, path, active, b)
    case _ => if of(t) then Hit(0, ValueWidth(t), b) else 0
  }

  function ArrayLeaves(of: Type -> bool, t: Type, n: nat, path: seq<nat>, active: Active, b: int): nat
    requires t.Array?
    decreases t.element, n + 1
  {
    if n == 0 then 0
    else
      ArrayLeaves(of, t, n - 1, path, active, b) +
      Leaves(of, t.element, path + [n - 1], active, b - Times(n - 1, BitsOf(t.element)))
  }

  function UnionLeaves(of: Type -> bool, rec: Record, path: seq<nat>, active: Active, b: int): nat
    decreases rec, 0
  {
    var ms := Members(rec.fields);
    if ms == [] then 0
    else
      var k := active(path) % |ms|;
      assert ms[k] in rec.fields;
      FieldLeaf(of, ms[k], path + [k], active, b)
  }

  /** The bits of a bit-field that exceed the value of its type are padding. */
  function ValueBits(f: Field): nat
    requires f.BitField?
  {
    if f.width > ValueWidth(f.ty) then ValueWidth(f.ty) else f.width
  }

  function FieldLeaf(of: Type -> bool, f: Field, path: seq<nat>, active: Active, b: int): nat
    decreases f, 0
  {
    if f.Member? then Leaves(of, f.ty, path, active, b)
    else if f.named && of(f.ty) then Hit(0, ValueBits(f), b)
    else 0
  }

  function StructLeaves(of: Type -> bool, rec: Record, path: seq<nat>, active: Active, b: int): nat
    decreases rec, |rec.bases| + |rec.fields| + 1
  {
    BaseLeaves(of, rec, |BasesOf(rec)|, path, active, b) + FieldLeaves(of, rec, |rec.fields|, path, active, b)
  }

  function BaseLeaves(of: Type -> bool, rec: Record, n: nat, path: seq<nat>, active: Active, b: int): nat
    requires n <= |BasesOf(rec)|
    decreases rec, n
  {
    if n == 0 then 0
    else
      BaseLeaves(of, rec, n - 1, path, active, b) +
      StructLeaves(of, rec.bases[n - 1].rec, path + [n - 1], active, b - 8 * rec.bases[n - 1].offset)
  }

  function FieldLeaves(of: Type -> bool, rec: Record, n: nat, path: seq<nat>, active: Active, b: int): nat
    requires n <= |rec.fields|
    decreases rec, n
  {
    if n == 0 then 0
    else
      FieldLeaves(of, rec, n - 1, path, active, b) +
      FieldLeaf(of, rec.fields[n - 1], path + [|rec.bases| + n - 1], active, b - rec.fields[n - 1].offset)
  }

  /** No unnamed bit-field takes up bits, no bit-field of a union is narrower than the union, and no integer or
      bit-field is wider than its value. */
  predicate NoHiddenBits(t: Type)
    decreases t, 0
  {
    match t
    case Array(element, count) => count == 0 || NoHiddenBits(element)
    case Class(rec) => if rec.isUnion then NoHiddenBitsUnion(rec) else NoHiddenBitsStruct(rec)
    case _ => ValueWidth(t) == BitsOf(t)
  }

  predicate NoHiddenBitsUnion(rec: Record)
    decreases rec, 0
  {
    && (rec.size > 0 ==> Members(rec.fields) != [])
    && forall i :: 0 <= i < |rec.fields| ==>
         var f := rec.fields[i];
         if f.Member? then NoHiddenBits(f.ty) else f.named ==> ValueBits(f) >= 8 * rec.size
  }

  predicate NoHiddenBitsStruct(rec: Record)
    decreases rec, 0
  {
    && (forall i :: 0 <= i < |BasesOf(rec)| ==> IsStructEmpty(rec.bases[i].rec) || NoHiddenBitsStruct(rec.bases[i].rec))
    && (forall i :: 0 <= i < |rec.fields| ==>
          var f := rec.fields[i];
          if f.Member? then NoHiddenBits(f.ty) else f.width == 0 || (f.named && f.width <= ValueWidth(f.ty)))
  }

  // ---------- Bases in the order of their offsets ----------

  ghost function Hits(parts: seq<Part>, b: int): nat {
    if parts == [] then 0
    else Hits(parts[..|parts| - 1], b) + Hit(parts[|parts| - 1].offset, parts[|parts| - 1].bits, b)
  }

  lemma HitsLast(parts: seq<Part>, p: Part, b: int)
    ensures Hits(parts + [p], b) == Hits(parts, b) + Hit(p.offset, p.bits, b)
  {
    assert (parts + [p])[..|parts|] == parts;
  }

  lemma {:induction false} InsertHits(parts: seq<Part>, p: Part, b: int)
    ensures Hits(InsertByOffset(parts, p), b) == Hits(parts, b) + Hit(p.offset, p.bits, b)
    decreases |parts|
  {
    HitsLast(parts, p, b);
    if parts != [] && parts[|parts| - 1].offset > p.offset {
      var front, last := parts[..|parts| - 1], parts[|parts| - 1];
      InsertHits(front, p, b);
      HitsLast(InsertByOffset(front, p), last, b);
    }
  }

  lemma {:induction false} SortHits(parts: seq<Part>, b: int)
    ensures Hits(SortByOffset(parts), b) == Hits(parts, b)
    decreases |parts|
  {
    if parts != [] {
      SortHits(parts[..|parts| - 1], b);
      InsertHits(SortByOffset(parts[..|parts| - 1]), parts[|parts| - 1], b);
    }
  }

  /** Parts that each begin where the one before ends hit every bit up to the end exactly once. */
  lemma {:induction false} ChainHits(parts: seq<Part>, n: nat, b: int)
    requires n <= |parts| && ChainEnd(parts, n).Some?
    ensures Hits(parts[..n], b) == Hit(0, ChainEnd(parts, n).value, b)
    decreases n
  {
    if n > 0 {
      ChainHits(parts, n - 1, b);
      assert parts[..n] == parts[..n - 1] + [parts[n - 1]];
      HitsLast(parts[..n - 1], parts[n - 1], b);
    }
  }

  lemma BasesHits(rec: Record, b: int)
    requires rec.isCxx && BasesEnd(rec).Some?
    ensures BaseParts(rec, |rec.bases|).Some?
    ensures Hits(BaseParts(rec, |rec.bases|).value, b) == Hit(0, BasesEnd(rec).value, b)
  {
    var parts := BaseParts(rec, |rec.bases|).value;
    SortHits(parts, b);
    var sorted := SortByOffset(parts);
    ChainHits(sorted, |sorted|, b);
    assert sorted[..|sorted|] == sorted;
  }

  lemma {:induction false} EmptyHasNoLeaves(of: Type -> bool, rec: Record, path: seq<nat>, active: Active, b: int)
    requires IsEmptyClass(rec) || IsStructEmpty(rec)
    ensures StructLeaves(of, rec, path, active, b) == 0
    decreases rec, |rec.bases| + |rec.fields| + 1
  {
    EmptyBases(of, rec, |BasesOf(rec)|, path, active, b);
    EmptyFields(of, rec, |rec.fields|, path, active, b);
  }

  lemma {:induction false} EmptyBases(of: Type -> bool, rec: Record, n: nat, path: seq<nat>, active: Active, b: int)
    requires n <= |BasesOf(rec)| && (IsEmptyClass(rec) || IsStructEmpty(rec))
    ensures BaseLeaves(of, rec, n, path, active, b) == 0
    decreases rec, n
  {
    if n > 0 {
      EmptyBases(of, rec, n - 1, path, active, b);
      EmptyHasNoLeaves(of, rec.bases[n - 1].rec, path + [n - 1], active, b - 8 * rec.bases[n - 1].offset);
    }
  }

  lemma {:induction false} EmptyFields(of: Type -> bool, rec: Record, n: nat, path: seq<nat>, active: Active, b: int)
    requires n <= |rec.fields| && (IsEmptyClass(rec) || IsStructEmpty(rec))
    ensures FieldLeaves(of, rec, n, path, active, b) == 0
    decreases n
  {
    if n > 0 {
      EmptyFields(of, rec, n - 1, path, active, b);
    }
  }

  // ---------- No bit is covered twice, and none is left out unless it is hidden ----------

  lemma {:induction false} ElementIsUnique(t: Type)
    requires t.Array? && HasUnique(t)
    ensures HasUnique(t.element)
    decreases t
  {
    assert HasUnique(BaseElement(t));
    if t.element.Array? {
      assert BaseElement(t) == BaseElement(t.element);
    } else {
      assert BaseElement(t) == BaseElement(t.element) == t.element;
    }
  }

  lemma {:induction false} TimesEight(count: nat, n: nat)
    ensures Times(count, 8 * n) == 8 * Times(count, n)
    decreases count
  {
    if count > 0 {
      TimesEight(count - 1, n);
    }
  }

  lemma {:induction false} LeavesBound(t: Type, path: seq<nat>, active: Active, b: int)
    requires HasUnique(t) || t.Reference?
    ensures Leaves(ANY, t, path, active, b) <= Hit(0, BitsOf(t), b)
    ensures NoHiddenBits(t) ==> Leaves(ANY, t, path, active, b) == Hit(0, BitsOf(t), b)
    decreases t, 0
  {
    match t {
      case Array(element, count) =>
        ElementIsUnique(t);
        ArrayBound(t, count, path, active, b);
        TimesEight(count, SizeOf(element));
      case Class(rec) =>
        if rec.isUnion {
          UnionBound(rec, path, active, b);
        } else {
          StructBound(rec, path, active, b);
        }
      case _ =>
    }
  }

  lemma {:induction false} ArrayBound(t: Type, n: nat, path: seq<nat>, active: Active, b: int)
    requires t.Array? && HasUnique(t.element)
    ensures ArrayLeaves(ANY, t, n, path, active, b) <= Hit(0, Times(n, BitsOf(t.element)), b)
    ensures NoHiddenBits(t.element) ==>
            ArrayLeaves(ANY, t, n, path, active, b) == Hit(0, Times(n, BitsOf(t.element)), b)
    decreases t.element, n + 1
  {
    if n > 0 {
      ArrayBound(t, n - 1, path, active, b);
      LeavesBound(t.element, path + [n - 1], active, b - Times(n - 1, BitsOf(t.element)));
    }
  }

  lemma {:induction false} UnionBound(rec: Record, path: seq<nat>, active: Active, b: int)
    requires UnionIsUnique(rec)
    ensures UnionLeaves(ANY, rec, path, active, b) <= Hit(0, 8 * rec.size, b)
    ensures NoHiddenBitsUnion(rec) ==> UnionLeaves(ANY, rec, path, active, b) == Hit(0, 8 * rec.size, b)
    decreases rec, 0
  {
    var ms := Members(rec.fields);
    if ms != [] {
      var k := active(path) % |ms|;
      assert ms[k] in rec.fields;
      var i :| 0 <= i < |rec.fields| && rec.fields[i] == ms[k];
      if ms[k].Member? {
        LeavesBound(ms[k].ty, path + [k], active, b);
      }
    }
  }

  lemma {:induction false} StructBound(rec: Record, path: seq<nat>, active: Active, b: int)
    requires StructBits(rec).Some?
    ensures StructLeaves(ANY, rec, path, active, b) <= Hit(0, StructBits(rec).value, b)
    ensures NoHiddenBitsStruct(rec) ==> StructLeaves(ANY, rec, path, active, b) == Hit(0, StructBits(rec).value, b)
    decreases rec, |rec.bases| + |rec.fields| + 1
  {
    FieldsBound(rec, |rec.fields|, path, active, b);
    if rec.isCxx {
      BasesHits(rec, b);
      BasesBound(rec, |rec.bases|, path, active, b);
    }
  }

  /** What the last of `n` bases may fill. */
  ghost function BaseHit(rec: Record, n: nat, b: int): nat
    requires 0 < n <= |BasesOf(rec)| && BaseParts(rec, n).Some?
  {
    var base := rec.bases[n - 1];
    if IsStructEmpty(base.rec) then 0 else Hit(8 * base.offset, StructBits(base.rec).value, b)
  }

  lemma PartsStep(rec: Record, n: nat, b: int)
    requires 0 < n <= |BasesOf(rec)| && BaseParts(rec, n).Some?
    ensures BaseParts(rec, n - 1).Some?
    ensures Hits(BaseParts(rec, n).value, b) == Hits(BaseParts(rec, n - 1).value, b) + BaseHit(rec, n, b)
  {
    var base := rec.bases[n - 1];
    if !IsStructEmpty(base.rec) {
      HitsLast(BaseParts(rec, n - 1).value, Part(8 * base.offset, StructBits(base.rec).value), b);
    }
  }

  lemma BaseLeavesStep(of: Type -> bool, rec: Record, n: nat, path: seq<nat>, active: Active, b: int)
    requires 0 < n <= |BasesOf(rec)|
    ensures BaseLeaves(of, rec, n, path, active, b) ==
            BaseLeaves(of, rec, n - 1, path, active, b) +
            StructLeaves(of, rec.bases[n - 1].rec, path + [n - 1], active, b - 8 * rec.bases[n - 1].offset)
  {
  }

  lemma {:induction false} BasesBound(rec: Record, n: nat, path: seq<nat>, active: Active, b: int)
    requires n <= |BasesOf(rec)| && BaseParts(rec, n).Some?
    ensures BaseLeaves(ANY, rec, n, path, active, b) <= Hits(BaseParts(rec, n).value, b)
    ensures NoHiddenBitsStruct(rec) ==> BaseLeaves(ANY, rec, n, path, active, b) == Hits(BaseParts(rec, n).value, b)
    decreases rec, n, 1
  {
    if n > 0 {
      PartsStep(rec, n, b);
      BasesBound(rec, n - 1, path, active, b);
      BaseBound(rec, n, path, active, b);
      BaseLeavesStep(ANY, rec, n, path, active, b);
    }
  }

  lemma {:induction false} BaseBound(rec: Record, n: nat, path: seq<nat>, active: Active, b: int)
    requires 0 < n <= |BasesOf(rec)| && BaseParts(rec, n).Some?
    ensures var base := rec.bases[n - 1];
      var leaves := StructLeaves(ANY, base.rec, path + [n - 1], active, b - 8 * base.offset);
      leaves <= BaseHit(rec, n, b) && (NoHiddenBitsStruct(rec) ==> leaves == BaseHit(rec, n, b))
    decreases rec, n, 0
  {
    var base := rec.bases[n - 1];
    if IsStructEmpty(base.rec) {
      EmptyHasNoLeaves(ANY, base.rec, path + [n - 1], active, b - 8 * base.offset);
    } else {
      StructBound(base.rec, path + [n - 1], active, b - 8 * base.offset);
    }
  }

  lemma {:induction false} FieldsBound(rec: Record, n: nat, path: seq<nat>, active: Active, b: int)
    requires n <= |rec.fields| && FieldsEnd(rec, n).Some?
    ensures BasesEnd(rec).Some? && BasesEnd(rec).value <= FieldsEnd(rec, n).value
    ensures var from := BasesEnd(rec).value;
      FieldLeaves(ANY, rec, n, path, active, b) <= Hit(from, FieldsEnd(rec, n).value - from, b)
    ensures var from := BasesEnd(rec).value;
      NoHiddenBitsStruct(rec) ==>
        FieldLeaves(ANY, rec, n, path, active, b) == Hit(from, FieldsEnd(rec, n).value - from, b)
    decreases rec, n
  {
    if n > 0 {
      var f := rec.fields[n - 1];
      FieldsBound(rec, n - 1, path, active, b);
      if f.Member? {
        LeavesBound(f.ty, path + [|rec.bases| + n - 1], active, b - f.offset);
      }
    }
  }

  // ---------- A hidden bit is left out ----------

  /** The two choices of active members agree below depth `depth`. */
  ghost predicate Agree(a: Active, c: Active, depth: nat) {
    forall p: seq<nat> :: |p| >= depth ==> a(p) == c(p)
  }

  lemma {:induction false} LeavesLocal(of: Type -> bool, t: Type, path: seq<nat>, a: Active, c: Active, b: int)
    requires Agree(a, c, |path|)
    ensures Leaves(of, t, path, a, b) == Leaves(of, t, path, c, b)
    decreases t, 0
  {
    match t {
      case Array(element, count) => ArrayLocal(of, t, count, path, a, c, b);
      case Class(rec) =>
        if rec.isUnion {
          UnionLocal(of, rec, path, a, c, b);
        } else {
          StructLocal(of, rec, path, a, c, b);
        }
      case _ =>
    }
  }

  lemma {:induction false} ArrayLocal(of: Type -> bool, t: Type, n: nat, path: seq<nat>, a: Active, c: Active, b: int)
    requires t.Array? && Agree(a, c, |path|)
    ensures ArrayLeaves(of, t, n, path, a, b) == ArrayLeaves(of, t, n, path, c, b)
    decreases t.element, n + 1
  {
    if n > 0 {
      ArrayLocal(of, t, n - 1, path, a, c, b);
      LeavesLocal(of, t.element, path + [n - 1], a, c, b - Times(n - 1, BitsOf(t.element)));
    }
  }

  lemma {:induction false} UnionLocal(of: Type -> bool, rec: Record, path: seq<nat>, a: Active, c: Active, b: int)
    requires Agree(a, c, |path|)
    ensures UnionLeaves(of, rec, path, a, b) == UnionLeaves(of, rec, path, c, b)
    decreases rec, 0
  {
    var ms := Members(rec.fields);
    if ms != [] {
      var k := a(path) % |ms|;
      assert ms[k] in rec.fields;
      FieldLocal(of, ms[k], path + [k], a, c, b);
    }
  }

  lemma {:induction false} FieldLocal(of: Type -> bool, f: Field, path: seq<nat>, a: Active, c: Active, b: int)
    requires Agree(a, c, |path|)
    ensures FieldLeaf(of, f, path, a, b) == FieldLeaf(of, f, path, c, b)
    decreases f, 0
  {
    if f.Member? {
      LeavesLocal(of, f.ty, path, a, c, b);
    }
  }

  lemma {:induction false} StructLocal(of: Type -> bool, rec: Record, path: seq<nat>, a: Active, c: Active, b: int)
    requires Agree(a, c, |path|)
    ensures StructLeaves(of, rec, path, a, b) == StructLeaves(of, rec, path, c, b)
    decreases rec, |rec.bases| + |rec.fields| + 1
  {
    BasesLocal(of, rec, |BasesOf(rec)|, path, a, c, b);
    FieldsLocal(of, rec, |rec.fields|, path, a, c, b);
  }

  lemma {:induction false} BasesLocal(of: Type -> bool, rec: Record, n: nat, path: seq<nat>,
                                      a: Active, c: Active, b: int)
    requires n <= |BasesOf(rec)| && Agree(a, c, |path|)
    ensures BaseLeaves(of, rec, n, path, a, b) == BaseLeaves(of, rec, n, path, c, b)
    decreases rec, n
  {
    if n > 0 {
      BasesLocal(of, rec, n - 1, path, a, c, b);
      StructLocal(of, rec.bases[n - 1].rec, path + [n - 1], a, c, b - 8 * rec.bases[n - 1].offset);
    }
  }

  lemma {:induction false} FieldsLocal(of: Type -> bool, rec: Record, n: nat, path: seq<nat>,
                                       a: Active, c: Active, b: int)
    requires n <= |rec.fields| && Agree(a, c, |path|)
    ensures FieldLeaves(of, rec, n, path, a, b) == FieldLeaves(of, rec, n, path, c, b)
    decreases rec, n
  {
    if n > 0 {
      FieldsLocal(of, rec, n - 1, path, a, c, b);
      FieldLocal(of, rec.fields[n - 1], path + [|rec.bases| + n - 1], a, c, b - rec.fields[n - 1].offset);
    }
  }

  /** Some bit of a type with hidden bits lies under no leaf. */
  lemma {:induction false} LeavesGap(t: Type, path: seq<nat>) returns (active: Active, b: int)
    requires HasUnique(t) && !NoHiddenBits(t)
    ensures 0 <= b < BitsOf(t) && Leaves(ANY, t, path, active, b) == 0
    decreases t, 0
  {
    match t {
      case Array(element, count) =>
        ElementIsUnique(t);
        active, b := LeavesGap(element, path + [0]);
        TimesEight(count, SizeOf(element));
        ArrayGap(t, count, path, active, b);
      case Class(rec) =>
        if rec.isUnion {
          active, b := UnionGap(rec, path);
        } else {
          active, b := StructGap(rec, path);
        }
      case Integral(_, _) => active, b := p => 0, ValueWidth(t);
    }
  }

  lemma {:induction false} ArrayGap(t: Type, n: nat, path: seq<nat>, active: Active, b: int)
    requires t.Array? && HasUnique(t.element) && 0 <= b < BitsOf(t.element)
    requires Leaves(ANY, t.element, path + [0], active, b) == 0
    ensures ArrayLeaves(ANY, t, n, path, active, b) == 0
    decreases n
  {
    if n > 0 {
      ArrayGap(t, n - 1, path, active, b);
      if n > 1 {
        LeavesBound(t.element, path + [n - 1], active, b - Times(n - 1, BitsOf(t.element)));
      }
    }
  }

  lemma {:induction false} UnionGap(rec: Record, path: seq<nat>) returns (active: Active, b: int)
    requires UnionIsUnique(rec) && !NoHiddenBitsUnion(rec)
    ensures 0 <= b < 8 * rec.size && UnionLeaves(ANY, rec, path, active, b) == 0
    decreases rec, 0
  {
    var ms := Members(rec.fields);
    if rec.size > 0 && ms == [] {
      active, b := p => 0, 0;
    } else {
      var k := HiddenMember(rec, ms);
      SmallModulo(k, |ms|);
      if ms[k].Member? {
        var inner: Active;
        inner, b := LeavesGap(ms[k].ty, path + [k]);
        active := p => if p == path then k else inner(p);
        LeavesLocal(ANY, ms[k].ty, path + [k], inner, active, b);
      } else {
        active, b := p => k, ValueBits(ms[k]);
      }
    }
  }

  lemma SmallModulo(k: nat, n: nat)
    requires k < n
    ensures k % n == k
  {
  }

  lemma HiddenMember(rec: Record, ms: seq<Field>) returns (k: nat)
    requires UnionIsUnique(rec) && !NoHiddenBitsUnion(rec) && ms == Members(rec.fields) && (rec.size > 0 ==> ms != [])
    ensures k < |ms| && ms[k] in rec.fields
    ensures if ms[k].Member? then !NoHiddenBits(ms[k].ty) else ms[k].named && ValueBits(ms[k]) < 8 * rec.size
  {
    var i :| 0 <= i < |rec.fields| &&
      var f := rec.fields[i];
      if f.Member? then !NoHiddenBits(f.ty) else f.named && ValueBits(f) < 8 * rec.size;
    assert rec.fields[i] in ms;
    k :| k < |ms| && ms[k] == rec.fields[i];
  }

  lemma {:induction false} StructGap(rec: Record, path: seq<nat>) returns (active: Active, b: int)
    requires StructBits(rec).Some? && !NoHiddenBitsStruct(rec)
    ensures 0 <= b < StructBits(rec).value && StructLeaves(ANY, rec, path, active, b) == 0
    decreases rec, |rec.bases| + |rec.fields| + 1
  {
    FieldsEndSome(rec, |rec.fields|, 0);
    if i: nat :| i < |BasesOf(rec)| && !IsStructEmpty(rec.bases[i].rec) && !NoHiddenBitsStruct(rec.bases[i].rec) {
      BasePartsSome(rec, |rec.bases|, i + 1);
      active, b := StructGap(rec.bases[i].rec, path + [i]);
      b := b + 8 * rec.bases[i].offset;
      GapInBase(rec, i, path, active, b);
    } else {
      var i := HiddenField(rec);
      var f := rec.fields[i];
      FieldsEndSome(rec, |rec.fields|, i + 1);
      if f.Member? {
        active, b := LeavesGap(f.ty, path + [|rec.bases| + i]);
        b := b + f.offset;
      } else {
        active, b := p => 0, f.offset + if f.named then ValueBits(f) else 0;
      }
      GapInField(rec, i, path, active, b);
    }
  }

  lemma HiddenField(rec: Record) returns (i: nat)
    requires !NoHiddenBitsStruct(rec)
    requires forall i :: 0 <= i < |BasesOf(rec)| ==>
             IsStructEmpty(rec.bases[i].rec) || NoHiddenBitsStruct(rec.bases[i].rec)
    ensures i < |rec.fields|
    ensures var f := rec.fields[i];
      if f.Member? then !NoHiddenBits(f.ty) else f.width > if f.named then ValueBits(f) else 0
  {
    i :| i < |rec.fields| &&
      var f := rec.fields[i];
      if f.Member? then !NoHiddenBits(f.ty) else f.width > 0 && !(f.named && f.width <= ValueWidth(f.ty));
  }

  lemma GapInBase(rec: Record, i: nat, path: seq<nat>, active: Active, b: int)
    requires i < |BasesOf(rec)| && StructBits(rec).Some? && BasesEnd(rec).Some? && !IsStructEmpty(rec.bases[i].rec)
    requires BaseParts(rec, i + 1).Some? && BaseHit(rec, i + 1, b) == 1
    requires StructLeaves(ANY, rec.bases[i].rec, path + [i], active, b - 8 * rec.bases[i].offset) == 0
    ensures 0 <= b < StructBits(rec).value && StructLeaves(ANY, rec, path, active, b) == 0
  {
    BasesHits(rec, b);
    BasesGap(rec, |rec.bases|, i, path, active, b);
    FieldsBound(rec, |rec.fields|, path, active, b);
  }

  lemma GapInField(rec: Record, i: nat, path: seq<nat>, active: Active, b: int)
    requires i < |rec.fields| && StructBits(rec).Some? && BasesEnd(rec).Some? && FieldBits(rec.fields[i]).Some?
    requires Hit(rec.fields[i].offset, FieldBits(rec.fields[i]).value, b) == 1
    requires FieldLeaf(ANY, rec.fields[i], path + [|rec.bases| + i], active, b - rec.fields[i].offset) == 0
    ensures 0 <= b < StructBits(rec).value && StructLeaves(ANY, rec, path, active, b) == 0
  {
    FieldsGap(rec, |rec.fields|, i, path, active, b);
    if rec.isCxx {
      BasesHits(rec, b);
      BasesBound(rec, |rec.bases|, path, active, b);
    }
  }

  lemma {:induction false} BasePartsSome(rec: Record, n: nat, m: nat)
    requires m <= n <= |rec.bases| && BaseParts(rec, n).Some?
    ensures BaseParts(rec, m).Some?
    decreases n
  {
    if m < n {
      BasePartsSome(rec, n - 1, m);
    }
  }

  lemma {:induction false} FieldsEndSome(rec: Record, n: nat, m: nat)
    requires m <= n <= |rec.fields| && FieldsEnd(rec, n).Some?
    ensures FieldsEnd(rec, m).Some?
    decreases n
  {
    if m < n {
      FieldsEndSome(rec, n - 1, m);
    }
  }

  lemma GapStays(rec: Record, n: nat, path: seq<nat>, active: Active, b: int)
    requires 0 < n <= |BasesOf(rec)| && BaseParts(rec, n).Some? && BaseParts(rec, n - 1).Some?
    requires BaseLeaves(ANY, rec, n - 1, path, active, b) < Hits(BaseParts(rec, n - 1).value, b)
    ensures BaseLeaves(ANY, rec, n, path, active, b) < Hits(BaseParts(rec, n).value, b)
  {
    PartsStep(rec, n, b);
    BaseBound(rec, n, path, active, b);
    BaseLeavesStep(ANY, rec, n, path, active, b);
  }

  lemma GapHere(rec: Record, n: nat, path: seq<nat>, active: Active, b: int)
    requires 0 < n <= |BasesOf(rec)| && BaseParts(rec, n).Some? && BaseHit(rec, n, b) == 1
    requires StructLeaves(ANY, rec.bases[n - 1].rec, path + [n - 1], active, b - 8 * rec.bases[n - 1].offset) == 0
    ensures BaseLeaves(ANY, rec, n, path, active, b) < Hits(BaseParts(rec, n).value, b)
  {
    PartsStep(rec, n, b);
    BasesBound(rec, n - 1, path, active, b);
    BaseLeavesStep(ANY, rec, n, path, active, b);
  }

  lemma {:induction false} BasesGap(rec: Record, n: nat, i: nat, path: seq<nat>, active: Active, b: int)
    requires i < n <= |BasesOf(rec)| && BaseParts(rec, n).Some? && BaseParts(rec, i + 1).Some? &&
             BaseHit(rec, i + 1, b) == 1
    requires StructLeaves(ANY, rec.bases[i].rec, path + [i], active, b - 8 * rec.bases[i].offset) == 0
    ensures BaseLeaves(ANY, rec, n, path, active, b) < Hits(BaseParts(rec, n).value, b)
    decreases n
  {
    if n - 1 == i {
      GapHere(rec, n, path, active, b);
    } else {
      PartsStep(rec, n, b);
      BasesGap(rec, n - 1, i, path, active, b);
      GapStays(rec, n, path, active, b);
    }
  }

  lemma {:induction false} FieldsGap(rec: Record, n: nat, i: nat, path: seq<nat>, active: Active, b: int)
    requires i < n <= |rec.fields| && FieldsEnd(rec, n).Some? && FieldBits(rec.fields[i]).Some?
    requires Hit(rec.fields[i].offset, FieldBits(rec.fields[i]).value, b) == 1
    requires FieldLeaf(ANY, rec.fields[i], path + [|rec.bases| + i], active, b - rec.fields[i].offset) == 0
    ensures BasesEnd(rec).Some? && BasesEnd(rec).value <= FieldsEnd(rec, n).value
    ensures var from := BasesEnd(rec).value;
      FieldLeaves(ANY, rec, n, path, active, b) < Hit(from, FieldsEnd(rec, n).value - from, b)
    decreases n
  {
    var f := rec.fields[n - 1];
    FieldsBound(rec, n - 1, path, active, b);
    if n - 1 != i {
      FieldsGap(rec, n - 1, i, path, active, b);
      if f.Member? {
        LeavesBound(f.ty, path + [|rec.bases| + n - 1], active, b - f.offset);
      }
    }
  }

  /** Every bit of an object of type `t` lies under exactly one scalar leaf, and no leaf reaches outside,
      whichever members of its unions are active. */
  ghost predicate NoPadding(t: Type) {
    forall active: Active, b: int :: Leaves(ANY, t, [], active, b) == Hit(0, BitsOf(t), b)
  }

  /** The answer "unique" means that there is no padding exactly when no bits are hidden in unnamed bit-fields,
      beside the bit-field members of a union or beside the value of an integer. */
  lemma {:induction false} UniqueMeansNoPadding(t: Type)
    requires HasUnique(t)
    ensures NoPadding(t) <==> NoHiddenBits(t)
  {
    if NoHiddenBits(t) {
      forall active: Active, b: int
        ensures Leaves(ANY, t, [], active, b) == Hit(0, BitsOf(t), b)
      {
        LeavesBound(t, [], active, b);
      }
    } else {
      var active, b := LeavesGap(t, []);
      assert Leaves(ANY, t, [], active, b) != Hit(0, BitsOf(t), b);
    }
  }

  /** Even then no bit lies under two leaves. */
  lemma {:induction false} UniqueMeansNoOverlap(t: Type, active: Active, b: int)
    requires HasUnique(t)
    ensures Leaves(ANY, t, [], active, b) <= Hit(0, BitsOf(t), b)
  {
    LeavesBound(t, [], active, b);
  }

  /** `struct { int a; int : 32; }` is accepted, although half of it is padding. */
  lemma UnnamedBitFieldIsAccepted(i: Type, rec: Record)
    requires i == Integral(4, 32)
    requires rec == Record(8, false, false, false, false, true, [], [Member(i, 0), BitField(i, 32, 32, false)])
    ensures HasUnique(Class(rec)) && !NoPadding(Class(rec))
  {
    assert FieldsEnd(rec, 0) == Some(0);
    assert FieldsEnd(rec, 1) == Some(32);
    assert FieldsEnd(rec, 2) == Some(64);
    assert !NoHiddenBitsStruct(rec) by {
      assert !rec.fields[1].Member?;
    }
    UniqueMeansNoPadding(Class(rec));
  }

  /** `union { int a : 3; }` is accepted, although its only member leaves 29 of 32 bits unused. */
  lemma NarrowUnionMemberIsAccepted(i: Type, rec: Record)
    requires i == Integral(4, 32) && rec == Record(4, true, true, false, false, true, [], [BitField(i, 0, 3, true)])
    ensures HasUnique(Class(rec)) && !NoPadding(Class(rec))
  {
    assert !NoHiddenBitsUnion(rec) by {
      assert !rec.fields[0].Member?;
    }
    UniqueMeansNoPadding(Class(rec));
  }

  /** `_ExtInt(17)` takes up 32 bits and is accepted, although 15 of them are padding. */
  lemma ExtIntIsAccepted(t: Type)
    requires t == Integral(4, 17)
    ensures HasUnique(t) && !NoPadding(t)
  {
    UniqueMeansNoPadding(t);
  }

  // ---------- The question as the program answers it ----------

  method UnionHasUniqueObjectRepresentations(rec: Record) returns (r: bool)
    ensures r <==> UnionIsUnique(rec)
    decreases rec, 0
  {
    var i := 0;
    while i < |rec.fields|
      invariant 0 <= i <= |rec.fields|
      invariant forall k :: 0 <= k < i ==> HasUnique(rec.fields[k].ty) && SizeOf(rec.fields[k].ty) == rec.size
    {
      var f := rec.fields[i];
      var unique := HasUniqueObjectRepresentations(f.ty);
      if !unique {
        return false;
      }
      if SizeOf(f.ty) != rec.size {
        return false;
      }
      i := i + 1;
    }
    r := rec.fields != [];
  }

  method CollectBases(rec: Record) returns (parts: Option<seq<Part>>)
    ensures parts == BaseParts(rec, |rec.bases|)
    decreases rec, 0
  {
    var found := [];
    var i := 0;
    while i < |rec.bases|
      invariant 0 <= i <= |rec.bases| && BaseParts(rec, i) == Some(found)
    {
      var base := rec.bases[i];
      if !IsStructEmpty(base.rec) {
        var bits := StructHasUniqueObjectRepresentations(base.rec);
        if bits.None? {
          NoPartsAfter(rec, i + 1, |rec.bases|);
          return None;
        }
        found := found + [Part(8 * base.offset, bits.value)];
      }
      i := i + 1;
    }
    parts := Some(found);
  }

  method FollowBases(sorted: seq<Part>) returns (end: Option<nat>)
    ensures end == ChainEnd(sorted, |sorted|)
  {
    var curOffset := 0;
    var i := 0;
    while i < |sorted|
      invariant 0 <= i <= |sorted| && ChainEnd(sorted, i) == Some(curOffset)
    {
      if sorted[i].offset != curOffset {
        NoChainAfter(sorted, i + 1, |sorted|);
        return None;
      }
      curOffset := sorted[i].offset + sorted[i].bits;
      i := i + 1;
    }
    end := Some(curOffset);
  }

  method StructHasUniqueObjectRepresentations(rec: Record) returns (r: Option<nat>)
    ensures r == StructBits(rec)
    decreases rec, 1
  {
    var curOffset := 0;
    if rec.isCxx {
      if rec.isDynamic {
        NoEndAfter(rec, 0, |rec.fields|);
        return None;
      }
      var parts := CollectBases(rec);
      if parts.None? {
        NoEndAfter(rec, 0, |rec.fields|);
        return None;
      }
      var end := FollowBases(SortByOffset(parts.value));
      if end.None? {
        NoEndAfter(rec, 0, |rec.fields|);
        return None;
      }
      curOffset := end.value;
    }
    var i := 0;
    while i < |rec.fields|
      invariant 0 <= i <= |rec.fields| && FieldsEnd(rec, i) == Some(curOffset)
    {
      var f := rec.fields[i];
      var unique := f.ty.Reference?;
      if !unique {
        unique := HasUniqueObjectRepresentations(f.ty);
      }
      if !unique {
        NoEndAfter(rec, i + 1, |rec.fields|);
        return None;
      }
      var fieldBits := BitsOf(f.ty);
      if f.BitField? {
        if f.width > fieldBits {
          NoEndAfter(rec, i + 1, |rec.fields|);
          return None;
        }
        fieldBits := f.width;
      }
      if f.offset != curOffset {
        NoEndAfter(rec, i + 1, |rec.fields|);
        return None;
      }
      curOffset := fieldBits + f.offset;
      i := i + 1;
    }
    r := Some(curOffset);
  }

  lemma {:induction false} NoEndAfter(rec: Record, n: nat, m: nat)
    requires n <= m <= |rec.fields| && FieldsEnd(rec, n).None?
    ensures FieldsEnd(rec, m).None?
    decreases m
  {
    if n < m {
      NoEndAfter(rec, n, m - 1);
    }
  }

  lemma {:induction false} NoPartsAfter(rec: Record, n: nat, m: nat)
    requires n <= m <= |rec.bases| && BaseParts(rec, n).None?
    ensures BaseParts(rec, m).None?
    decreases m
  {
    if n < m {
      NoPartsAfter(rec, n, m - 1);
    }
  }

  lemma {:induction false} NoChainAfter(parts: seq<Part>, n: nat, m: nat)
    requires n <= m <= |parts| && ChainEnd(parts, n).None?
    ensures ChainEnd(parts, m).None?
    decreases m
  {
    if n < m {
      NoChainAfter(parts, n, m - 1);
    }
  }

  method HasUniqueObjectRepresentations(t: Type) returns (r: bool)
    ensures r <==> HasUnique(t)
    decreases t, 0
  {
    match t {
      case Array(_, _) =>
        r := HasUniqueObjectRepresentations(BaseElement(t));
      case Integral(_, _) =>
        r := true;
      case Pointer(_) =>
        r := true;
      case MemberPointer(_, hasPadding) =>
        r := !hasPadding;
      case Class(rec) =>
        if !rec.isTriviallyCopyable || rec.isInvalid {
          r := false;
        } else if rec.isUnion {
          r := UnionHasUniqueObjectRepresentations(rec);
        } else {
          var bits := StructHasUniqueObjectRepresentations(rec);
          r := bits == Some(8 * rec.size);
        }
      case _ =>
        r := false;
    }
  }
}
