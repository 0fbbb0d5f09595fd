/// Which types have unique object representations, said by their scalars and by how they are laid out.

module AcceptedTypes {
  import opened Prelude
  import opened ObjectRepresentation

  /** Scalars that are neither integers nor pointers nor references nor member pointers without padding. */
  const UNFIT: Type -> bool := (t: Type) => t.OtherScalar? || (t.MemberPointer? && t.hasPadding)

  // ---------- No scalar of an accepted type is unfit ----------

  /** No bit of an accepted type lies under an unfit scalar, at whatever depth and whichever members are active. */
  lemma {:induction false} NoUnfitLeaves(t: Type, path: seq<nat>, active: Active, b: int)
    requires HasUnique(t) || t.Reference?
    ensures Leaves(UNFIT, t, path, active, b) == 0
    decreases t, 0
  {
    match t {
      case Array(element, count) =>
        ElementIsUnique(t);
        NoUnfitElements(t, count, path, active, b);
      case Class(rec) =>
        if rec.isUnion {
          NoUnfitMember(rec, path, active, b);
        } else {
          NoUnfitParts(rec, path, active, b);
        }
      case _ =>
    }
  }

  lemma {:induction false} NoUnfitElements(t: Type, n: nat, path: seq<nat>, active: Active, b: int)
    requires t.Array? && HasUnique(t.element)
    ensures ArrayLeaves(UNFIT, t, n, path, active, b) == 0
    decreases t.element, n + 1
  {
    if n > 0 {
      NoUnfitElements(t, n - 1, path, active, b);
      NoUnfitLeaves(t.element, path + [n - 1], active, b - Times(n - 1, BitsOf(t.element)));
    }
  }

  lemma {:induction false} NoUnfitMember(rec: Record, path: seq<nat>, active: Active, b: int)
    requires UnionIsUnique(rec)
    ensures UnionLeaves(UNFIT, rec, path, active, b) == 0
    decreases rec, 0
  {
    var ms := Members(rec.fields);
    if ms != [] {
      var k := active(path) % |ms|;
      assert ms[k] in rec.fields;
      var i :| 0 <= i < |rec.fields| && rec.fields[i] == ms[k];
      if ms[k].Member? {
        NoUnfitLeaves(ms[k].ty, path + [k], active, b);
      }
    }
  }

  lemma {:induction false} NoUnfitParts(rec: Record, path: seq<nat>, active: Active, b: int)
    requires StructBits(rec).Some?
    ensures StructLeaves(UNFIT, rec, path, active, b) == 0
    decreases rec, |rec.bases| + |rec.fields| + 1
  {
    NoUnfitFields(rec, |rec.fields|, path, active, b);
    if rec.isCxx {
      NoUnfitBases(rec, |rec.bases|, path, active, b);
    }
  }

  lemma {:induction false} NoUnfitBases(rec: Record, n: nat, path: seq<nat>, active: Active, b: int)
    requires n <= |BasesOf(rec)| && BaseParts(rec, n).Some?
    ensures BaseLeaves(UNFIT, rec, n, path, active, b) == 0
    decreases rec, n
  {
    if n > 0 {
      var base := rec.bases[n - 1];
      NoUnfitBases(rec, n - 1, path, active, b);
      if IsStructEmpty(base.rec) {
        EmptyHasNoLeaves(UNFIT, base.rec, path + [n - 1], active, b - 8 * base.offset);
      } else {
        NoUnfitParts(base.rec, path + [n - 1], active, b - 8 * base.offset);
      }
    }
  }

  lemma {:induction false} NoUnfitFields(rec: Record, n: nat, path: seq<nat>, active: Active, b: int)
    requires n <= |rec.fields| && FieldsEnd(rec, n).Some?
    ensures FieldLeaves(UNFIT, rec, n, path, active, b) == 0
    ensures BasesEnd(rec).Some?
    decreases rec, n
  {
    if n > 0 {
      var f := rec.fields[n - 1];
      NoUnfitFields(rec, n - 1, path, active, b);
      if f.Member? {
        NoUnfitLeaves(f.ty, path + [|rec.bases| + n - 1], active, b - f.offset);
      }
    }
  }

  // ---------- Layout ----------

  /** Where the last of some parts ends. */
  function EndOf(parts: seq<Part>): nat {
    if parts == [] then 0
    else
      var before, last := EndOf(parts[..|parts| - 1]), parts[|parts| - 1];
      if before < last.offset + last.bits then last.offset + last.bits else before
  }

  /** Of two parts the one that begins first ends before the other begins; if they begin together the first of them
      is empty. */
  predicate Beside(p: Part, q: Part) {
    if p.offset <= q.offset then p.offset + p.bits <= q.offset else q.offset + q.bits <= p.offset
  }

  ghost predicate Apart(parts: seq<Part>) {
    forall i, j {:trigger Beside(parts[i], parts[j])} :: 0 <= i < j < |parts| ==> Beside(parts[i], parts[j])
  }

  /** The parts that the first `n` bases reach over; classes without members are passed over. */
  function BaseSpans(rec: Record, n: nat): seq<Part>
    requires n <= |BasesOf(rec)|
    decreases rec, n
  {
    if n == 0 then []
    else
      var base := rec.bases[n - 1];
      BaseSpans(rec, n - 1) + if IsStructEmpty(base.rec) then [] else [Part(8 * base.offset, Extent(base.rec))]
  }

  function FieldWidth(f: Field): nat {
    if f.Member? then BitsOf(f.ty) else f.width
  }

  /** Where the first `n` fields of a structure end. */
  function Reach(rec: Record, n: nat): nat
    requires n <= |rec.fields|
    decreases rec, |rec.bases| + 1
  {
    if n == 0 then EndOf(BaseSpans(rec, |BasesOf(rec)|))
    else rec.fields[n - 1].offset + FieldWidth(rec.fields[n - 1])
  }

  /** Where the last field of a structure ends. */
  function Extent(rec: Record): nat
    decreases rec, |rec.bases| + 2
  {
    Reach(rec, |rec.fields|)
  }

  /** Classes are valid and trivially copyable at every level, structures are laid out in order within their size,
      and no member of a union is larger than the union. */
  ghost predicate Orderly(t: Type)
    decreases t, 0
  {
    match t
    case Array(element, _) => Orderly(element)
    case Class(rec) =>
      && rec.isTriviallyCopyable && !rec.isInvalid
      && if rec.isUnion then OrderlyUnion(rec) else OrderlyStruct(rec) && Extent(rec) <= 8 * rec.size
    case _ => true
  }

  /** The type of an unnamed bit-field has the size of the union too. */
  ghost predicate OrderlyUnion(rec: Record)
    decreases rec, 0
  {
    forall i :: 0 <= i < |rec.fields| ==>
      var f := rec.fields[i];
      && (f.Member? ==> Orderly(f.ty))
      && SizeOf(f.ty) <= rec.size
      && (f.BitField? && !f.named ==> SizeOf(f.ty) == rec.size)
  }

  /** No hidden pointers; bases beside one another; and each field after what is before it. */
  ghost predicate OrderlyStruct(rec: Record)
    decreases rec, 0
  {
    && (rec.isCxx ==> !rec.isDynamic)
    && Apart(BaseSpans(rec, |BasesOf(rec)|))
    && (forall i :: 0 <= i < |BasesOf(rec)| ==> IsStructEmpty(rec.bases[i].rec) || OrderlyStruct(rec.bases[i].rec))
    && (forall i :: 0 <= i < |rec.fields| ==> OrderlyField(rec, i))
  }

  ghost predicate OrderlyField(rec: Record, i: nat)
    requires i < |rec.fields|
    decreases rec, 0, 0
  {
    var f := rec.fields[i];
    Reach(rec, i) <= f.offset && (f.Member? ==> f.ty.Reference? || Orderly(f.ty))
  }

  /** What is true of every type: scalars take up storage, arrays have elements, references occur only as members of
      structures, bit-fields are integers, and a union has members or takes up storage. */
  ghost predicate WellTyped(t: Type)
    decreases t, 0
  {
    match t
    case Array(element, count) => count > 0 && WellTyped(element)
    case Class(rec) => if rec.isUnion then WellTypedUnion(rec) else WellTypedStruct(rec)
    case Reference(_) => false
    case _ => t.size > 0
  }

  ghost predicate WellTypedUnion(rec: Record)
    decreases rec, 0
  {
    && (rec.fields != [] || rec.size > 0)
    && forall i :: 0 <= i < |rec.fields| ==>
         var f := rec.fields[i]; if f.Member? then WellTyped(f.ty) else f.ty.Integral?
  }

  ghost predicate WellTypedStruct(rec: Record)
    decreases rec, 0
  {
    && (forall i :: 0 <= i < |BasesOf(rec)| ==> WellTypedStruct(rec.bases[i].rec))
    && forall i :: 0 <= i < |rec.fields| ==>
         var f := rec.fields[i]; if f.Member? then f.ty.Reference? || WellTyped(f.ty) else f.ty.Integral?
  }

  // ---------- Parts in the order of their offsets ----------

  ghost predicate InOrder(parts: seq<Part>) {
    forall i, j :: 0 <= i < j < |parts| ==> parts[i].offset + parts[i].bits <= parts[j].offset
  }

  ghost predicate AllBefore(parts: seq<Part>, at: nat) {
    forall q :: q in parts ==> q.offset + q.bits <= at
  }

  ghost predicate AllBeside(parts: seq<Part>, p: Part) {
    forall q :: q in parts ==> Beside(q, p)
  }

  lemma AllBesideLast(parts: seq<Part>, last: Part, p: Part)
    ensures AllBeside(parts + [last], p) <==> AllBeside(parts, p) && Beside(last, p)
  {
    assert last in parts + [last];
  }

  lemma InsertBefore(parts: seq<Part>, p: Part, at: nat)
    ensures AllBefore(InsertByOffset(parts, p), at) <==> AllBefore(parts, at) && p.offset + p.bits <= at
  {
    InsertKeepsAll(parts, p);
  }

  lemma EndOfLast(parts: seq<Part>, p: Part)
    ensures EndOf(parts + [p]) ==
            if EndOf(parts) < p.offset + p.bits then p.offset + p.bits else EndOf(parts)
  {
    assert (parts + [p])[..|parts|] == parts;
  }

  lemma {:induction false} EndOfBounds(parts: seq<Part>)
    ensures forall p :: p in parts ==> p.offset + p.bits <= EndOf(parts)
    ensures EndOf(parts) > 0 ==> exists p :: p in parts && p.offset + p.bits == EndOf(parts)
    decreases |parts|
  {
    if parts != [] {
      var front, last := parts[..|parts| - 1], parts[|parts| - 1];
      EndOfBounds(front);
      assert parts == front + [last];
      EndOfLast(front, last);
    }
  }

  lemma SameEnd(a: seq<Part>, c: seq<Part>)
    requires forall p :: p in a <==> p in c
    ensures EndOf(a) == EndOf(c)
  {
    EndOfBounds(a);
    EndOfBounds(c);
  }

  lemma {:induction false} InsertKeepsAll(parts: seq<Part>, p: Part)
    ensures forall q :: q in InsertByOffset(parts, p) <==> q in parts || q == p
    decreases |parts|
  {
    if parts != [] && parts[|parts| - 1].offset > p.offset {
      var front, last := parts[..|parts| - 1], parts[|parts| - 1];
      InsertKeepsAll(front, p);
      assert parts == front + [last];
    }
  }

  lemma {:induction false} InsertInOrder(parts: seq<Part>, p: Part)
    ensures InOrder(InsertByOffset(parts, p)) <==> InOrder(parts) && AllBeside(parts, p)
    decreases |parts|
  {
    if parts != [] {
      var front, last := parts[..|parts| - 1], parts[|parts| - 1];
      assert parts == front + [last];
      InOrderLast(front, last);
      AllBesideLast(front, last, p);
      if last.offset <= p.offset {
        InOrderLast(parts, p);
        if InOrder(parts) {
          assert AllBeside(parts, p) <==> AllBefore(parts, p.offset);
        }
      } else {
        InsertInOrder(front, p);
        InsertBefore(front, p, last.offset);
        InOrderLast(InsertByOffset(front, p), last);
      }
    }
  }

  lemma InOrderLast(parts: seq<Part>, p: Part)
    ensures InOrder(parts + [p]) <==>
            InOrder(parts) && AllBefore(parts, p.offset)
  {
    var longer := parts + [p];
    if InOrder(longer) {
      forall i, j | 0 <= i < j < |parts|
        ensures parts[i].offset + parts[i].bits <= parts[j].offset
      {
        assert longer[i] == parts[i] && longer[j] == parts[j];
      }
      forall q | q in parts
        ensures q.offset + q.bits <= p.offset
      {
        var i :| 0 <= i < |parts| && parts[i] == q;
        assert longer[i] == q && longer[|parts|] == p;
      }
    }
  }

  lemma ApartLast(parts: seq<Part>, p: Part)
    ensures Apart(parts + [p]) <==> Apart(parts) && AllBeside(parts, p)
  {
    var longer := parts + [p];
    if Apart(longer) {
      forall i, j | 0 <= i < j < |parts|
        ensures Beside(parts[i], parts[j])
      {
        assert Beside(longer[i], longer[j]);
      }
      forall q | q in parts
        ensures Beside(q, p)
      {
        var i :| 0 <= i < |parts| && parts[i] == q;
        assert Beside(longer[i], longer[|parts|]);
      }
    }
  }

  /** Parts are beside one another exactly when sorting puts each after the end of the one before. */
  lemma {:induction false} SortInOrder(parts: seq<Part>)
    ensures InOrder(SortByOffset(parts)) <==> Apart(parts)
    ensures forall p :: p in SortByOffset(parts) <==> p in parts
    decreases |parts|
  {
    if parts != [] {
      var front, last := parts[..|parts| - 1], parts[|parts| - 1];
      assert parts == front + [last];
      SortInOrder(front);
      InsertInOrder(SortByOffset(front), last);
      InsertKeepsAll(SortByOffset(front), last);
      assert AllBeside(SortByOffset(front), last) <==> AllBeside(front, last);
      ApartLast(front, last);
    }
  }

  lemma {:induction false} ChainInOrder(parts: seq<Part>, n: nat)
    requires n <= |parts| && ChainEnd(parts, n).Some?
    ensures InOrder(parts[..n]) && EndOf(parts[..n]) == ChainEnd(parts, n).value
    decreases n
  {
    if n > 0 {
      ChainInOrder(parts, n - 1);
      assert parts[..n] == parts[..n - 1] + [parts[n - 1]];
      EndOfBounds(parts[..n - 1]);
      InOrderLast(parts[..n - 1], parts[n - 1]);
      EndOfLast(parts[..n - 1], parts[n - 1]);
    }
  }

  lemma {:induction false} NotHit(parts: seq<Part>, b: int)
    requires forall p :: p in parts ==> Hit(p.offset, p.bits, b) == 0
    ensures Hits(parts, b) == 0
    decreases |parts|
  {
    if parts != [] {
      NotHit(parts[..|parts| - 1], b);
    }
  }

  ghost predicate Covered(parts: seq<Part>) {
    forall b :: 0 <= b < EndOf(parts) ==> Hits(parts, b) > 0
  }

  /** Parts in order that hit every bit up to their end abut one another. */
  lemma {:induction false} CoveredChain(parts: seq<Part>, n: nat)
    requires n <= |parts| && InOrder(parts) && Covered(parts)
    ensures ChainEnd(parts, n) == Some(EndOf(parts[..n]))
    decreases n
  {
    if n > 0 {
      CoveredChain(parts, n - 1);
      NoGapInCovered(parts, n - 1);
      assert parts[..n] == parts[..n - 1] + [parts[n - 1]];
      EndOfLast(parts[..n - 1], parts[n - 1]);
    }
  }

  lemma NoGapInCovered(parts: seq<Part>, n: nat)
    requires n < |parts| && InOrder(parts) && Covered(parts)
    ensures EndOf(parts[..n]) == parts[n].offset
  {
    GapIsNotHit(parts, n);
  }

  /** In parts in order, a gap before part `n` is not hit. */
  lemma GapIsNotHit(parts: seq<Part>, n: nat)
    requires n < |parts| && InOrder(parts)
    ensures EndOf(parts[..n]) <= parts[n].offset <= EndOf(parts)
    ensures EndOf(parts[..n]) < parts[n].offset ==> Hits(parts, EndOf(parts[..n])) == 0
  {
    var before := parts[..n];
    EndOfBounds(before);
    EndOfBounds(parts);
    assert parts[n] in parts;
    if EndOf(before) < parts[n].offset {
      forall q | q in parts
        ensures Hit(q.offset, q.bits, EndOf(before)) == 0
      {
        var i :| 0 <= i < |parts| && parts[i] == q;
        assert i < n ==> before[i] == q;
      }
      NotHit(parts, EndOf(before));
    }
  }

  // ---------- Leaves stay within what their type takes up ----------

  lemma {:induction false} LeavesWithin(t: Type, path: seq<nat>, active: Active, b: int)
    requires (Orderly(t) || t.Reference?) && !(0 <= b < BitsOf(t))
    ensures Leaves(ANY, t, path, active, b) == 0
    decreases t, 0
  {
    match t {
      case Array(element, count) =>
        TimesEight(count, SizeOf(element));
        ElementsWithin(t, count, path, active, b);
      case Class(rec) =>
        if rec.isUnion {
          MemberWithin(rec, path, active, b);
        } else {
          StructWithin(rec, path, active, b);
        }
      case _ =>
    }
  }

  lemma {:induction false} ElementsWithin(t: Type, n: nat, path: seq<nat>, active: Active, b: int)
    requires t.Array? && Orderly(t.element) && !(0 <= b < Times(n, BitsOf(t.element)))
    ensures ArrayLeaves(ANY, t, n, path, active, b) == 0
    decreases t.element, n + 1
  {
    if n > 0 {
      ElementsWithin(t, n - 1, path, active, b);
      LeavesWithin(t.element, path + [n - 1], active, b - Times(n - 1, BitsOf(t.element)));
    }
  }

  lemma {:induction false} MemberWithin(rec: Record, path: seq<nat>, active: Active, b: int)
    requires OrderlyUnion(rec) && !(0 <= b < 8 * rec.size)
    ensures UnionLeaves(ANY, rec, path, active, b) == 0
    decreases rec, 0
  {
    var ms := Members(rec.fields);
    if ms != [] {
      var k := active(path) % |ms|;
      assert ms[k] in rec.fields;
      var i :| 0 <= i < |rec.fields| && rec.fields[i] == ms[k];
      if ms[k].Member? {
        LeavesWithin(ms[k].ty, path + [k], active, b);
      }
    }
  }

  lemma {:induction false} StructWithin(rec: Record, path: seq<nat>, active: Active, b: int)
    requires OrderlyStruct(rec) && !(0 <= b < Extent(rec))
    ensures StructLeaves(ANY, rec, path, active, b) == 0
    decreases rec, |rec.bases| + |rec.fields| + 1
  {
    FieldsWithin(rec, |rec.fields|, path, active, b);
    ReachGrows(rec, 0, |rec.fields|);
    HitsBelowEnd(BaseSpans(rec, |BasesOf(rec)|), b);
    OutsideSpans(rec, |BasesOf(rec)|, b);
    BasesWithin(rec, |BasesOf(rec)|, path, active, b);
  }

  lemma {:induction false} HitsBelowEnd(parts: seq<Part>, b: int)
    requires !(0 <= b < EndOf(parts))
    ensures Hits(parts, b) == 0
  {
    EndOfBounds(parts);
    NotHit(parts, b);
  }

  /** What the last of `n` bases reaches over. */
  ghost function SpanHit(rec: Record, n: nat, b: int): nat
    requires 0 < n <= |BasesOf(rec)|
  {
    var base := rec.bases[n - 1];
    if IsStructEmpty(base.rec) then 0 else Hit(8 * base.offset, Extent(base.rec), b)
  }

  /** None of the first `n` bases reaches over bit `b`. */
  ghost predicate Outside(rec: Record, n: nat, b: int)
    requires n <= |BasesOf(rec)|
  {
    forall i :: 0 < i <= n ==> SpanHit(rec, i, b) == 0
  }

  lemma {:induction false} OutsideSpans(rec: Record, n: nat, b: int)
    requires n <= |BasesOf(rec)|
    ensures Outside(rec, n, b) <==> Hits(BaseSpans(rec, n), b) == 0
    decreases n
  {
    if n > 0 {
      OutsideSpans(rec, n - 1, b);
      SpansStep(rec, n, b);
      OutsideStep(rec, n, b);
    }
  }

  lemma OutsideStep(rec: Record, n: nat, b: int)
    requires 0 < n <= |BasesOf(rec)|
    ensures Outside(rec, n, b) <==> Outside(rec, n - 1, b) && SpanHit(rec, n, b) == 0
  {
  }

  lemma SpansStep(rec: Record, n: nat, b: int)
    requires 0 < n <= |BasesOf(rec)|
    ensures Hits(BaseSpans(rec, n), b) ==
            Hits(BaseSpans(rec, n - 1), b) + SpanHit(rec, n, b)
  {
    var base := rec.bases[n - 1];
    if IsStructEmpty(base.rec) {
      assert BaseSpans(rec, n) == BaseSpans(rec, n - 1);
    } else {
      HitsLast(BaseSpans(rec, n - 1), Part(8 * base.offset, Extent(base.rec)), b);
    }
  }

  lemma {:induction false} BasesWithin(rec: Record, n: nat, path: seq<nat>, active: Active, b: int)
    requires n <= |BasesOf(rec)| && OrderlyStruct(rec) && Outside(rec, n, b)
    ensures BaseLeaves(ANY, rec, n, path, active, b) == 0
    decreases rec, n, 1
  {
    if n > 0 {
      BasesWithin(rec, n - 1, path, active, b);
      BaseWithin(rec, n, path, active, b);
      BaseLeavesStep(ANY, rec, n, path, active, b);
    }
  }

  lemma {:induction false} BaseWithin(rec: Record, n: nat, path: seq<nat>, active: Active, b: int)
    requires 0 < n <= |BasesOf(rec)| && OrderlyStruct(rec) && SpanHit(rec, n, b) == 0
    ensures StructLeaves(ANY, rec.bases[n - 1].rec, path + [n - 1], active, b - 8 * rec.bases[n - 1].offset) == 0
    decreases rec, n, 0
  {
    var base := rec.bases[n - 1];
    if IsStructEmpty(base.rec) {
      EmptyHasNoLeaves(ANY, base.rec, path + [n - 1], active, b - 8 * base.offset);
    } else {
      StructWithin(base.rec, path + [n - 1], active, b - 8 * base.offset);
    }
  }

  lemma {:induction false} ReachGrows(rec: Record, m: nat, n: nat)
    requires m <= n <= |rec.fields| && OrderlyStruct(rec)
    ensures Reach(rec, m) <= Reach(rec, n)
    decreases n
  {
    if m < n {
      ReachGrows(rec, m, n - 1);
      assert OrderlyField(rec, n - 1);
    }
  }

  lemma {:induction false} FieldsWithin(rec: Record, n: nat, path: seq<nat>, active: Active, b: int)
    requires n <= |rec.fields| && OrderlyStruct(rec) && !(Reach(rec, 0) <= b < Reach(rec, n))
    ensures FieldLeaves(ANY, rec, n, path, active, b) == 0
    decreases rec, n
  {
    if n > 0 {
      var f := rec.fields[n - 1];
      ReachGrows(rec, 0, n - 1);
      assert OrderlyField(rec, n - 1);
      FieldsWithin(rec, n - 1, path, active, b);
      FieldWithin(f, path + [|rec.bases| + n - 1], active, b - f.offset);
    }
  }

  lemma {:induction false} FieldWithin(f: Field, path: seq<nat>, active: Active, b: int)
    requires (f.Member? ==> f.ty.Reference? || Orderly(f.ty)) && !(0 <= b < FieldWidth(f))
    ensures FieldLeaf(ANY, f, path, active, b) == 0
    decreases f, 0
  {
    if f.Member? {
      LeavesWithin(f.ty, path, active, b);
    }
  }

  // ---------- Accepted types are laid out in order ----------

  lemma {:induction false} AcceptedIsOrderly(t: Type)
    requires HasUnique(t)
    ensures Orderly(t)
    decreases t, 0
  {
    match t {
      case Array(element, _) =>
        ElementIsUnique(t);
        AcceptedIsOrderly(element);
      case Class(rec) =>
        if rec.isUnion {
          forall i | 0 <= i < |rec.fields| && rec.fields[i].Member?
            ensures Orderly(rec.fields[i].ty)
          {
            AcceptedIsOrderly(rec.fields[i].ty);
          }
        } else {
          AcceptedStruct(rec);
        }
      case _ =>
    }
  }

  lemma {:induction false} AcceptedStruct(rec: Record)
    requires StructBits(rec).Some?
    ensures OrderlyStruct(rec) && Extent(rec) == StructBits(rec).value
    decreases rec, |rec.bases| + |rec.fields| + 1
  {
    AcceptedFields(rec, |rec.fields|);
    AcceptedBases(rec);
  }

  lemma {:induction false} AcceptedFields(rec: Record, n: nat)
    requires n <= |rec.fields| && FieldsEnd(rec, n).Some?
    ensures BasesEnd(rec).Some? && Reach(rec, n) == FieldsEnd(rec, n).value
    ensures forall i :: 0 <= i < n ==> OrderlyField(rec, i)
    decreases rec, n, 1
  {
    if n == 0 {
      AcceptedBases(rec);
    } else {
      var f := rec.fields[n - 1];
      AcceptedFields(rec, n - 1);
      if f.Member? && !f.ty.Reference? {
        AcceptedIsOrderly(f.ty);
      }
    }
  }

  lemma {:induction false} AcceptedBases(rec: Record)
    requires BasesEnd(rec).Some?
    ensures (rec.isCxx ==> !rec.isDynamic) && Apart(BaseSpans(rec, |BasesOf(rec)|))
    ensures Reach(rec, 0) == BasesEnd(rec).value
    ensures forall i :: 0 <= i < |BasesOf(rec)| ==> IsStructEmpty(rec.bases[i].rec) || OrderlyStruct(rec.bases[i].rec)
    decreases rec, 0, 0, |rec.bases| + 1
  {
    if rec.isCxx {
      var parts := BaseParts(rec, |rec.bases|).value;
      var sorted := SortByOffset(parts);
      AcceptedParts(rec, |rec.bases|);
      ChainInOrder(sorted, |sorted|);
      assert sorted[..|sorted|] == sorted;
      SortInOrder(parts);
      SameEnd(sorted, parts);
    }
  }

  lemma {:induction false} AcceptedParts(rec: Record, n: nat)
    requires n <= |BasesOf(rec)| && BaseParts(rec, n).Some?
    ensures BaseSpans(rec, n) == BaseParts(rec, n).value
    ensures forall i :: 0 <= i < n ==> IsStructEmpty(rec.bases[i].rec) || OrderlyStruct(rec.bases[i].rec)
    decreases rec, 0, 0, n
  {
    if n > 0 {
      AcceptedParts(rec, n - 1);
      if !IsStructEmpty(rec.bases[n - 1].rec) {
        AcceptedStruct(rec.bases[n - 1].rec);
      }
    }
  }

  // ---------- A type without padding and unfit scalars that is laid out in order is accepted ----------

  /** Bit `b` lies under exactly one scalar if it is within `bits`, otherwise under none, and that one is fit. */
  ghost predicate Once(all: nat, unfit: nat, bits: nat, b: int) {
    all == Hit(0, bits, b) && unfit == 0
  }

  ghost predicate SolidAt(t: Type, path: seq<nat>, active: Active, b: int) {
    Once(Leaves(ANY, t, path, active, b), Leaves(UNFIT, t, path, active, b), BitsOf(t), b)
  }

  /** Every bit of an object lies under exactly one scalar, and a fit one, whichever members are active. */
  ghost predicate Solid(t: Type, path: seq<nat>) {
    forall active: Active, b: int :: SolidAt(t, path, active, b)
  }

  ghost predicate SolidFieldAt(f: Field, bits: nat, path: seq<nat>, active: Active, b: int) {
    Once(FieldLeaf(ANY, f, path, active, b), FieldLeaf(UNFIT, f, path, active, b), bits, b)
  }

  ghost predicate SolidField(f: Field, bits: nat, path: seq<nat>) {
    forall active: Active, b: int :: SolidFieldAt(f, bits, path, active, b)
  }

  ghost predicate SolidUnionAt(rec: Record, path: seq<nat>, active: Active, b: int) {
    Once(UnionLeaves(ANY, rec, path, active, b), UnionLeaves(UNFIT, rec, path, active, b), 8 * rec.size, b)
  }

  ghost predicate SolidUnion(rec: Record, path: seq<nat>) {
    forall active: Active, b: int :: SolidUnionAt(rec, path, active, b)
  }

  /** The same for the bases and the first `n` fields of a structure. */
  ghost predicate SolidUpToAt(rec: Record, n: nat, path: seq<nat>, active: Active, b: int)
    requires n <= |rec.fields|
  {
    var m := |BasesOf(rec)|;
    Once(BaseLeaves(ANY, rec, m, path, active, b) + FieldLeaves(ANY, rec, n, path, active, b),
         BaseLeaves(UNFIT, rec, m, path, active, b) + FieldLeaves(UNFIT, rec, n, path, active, b), Reach(rec, n), b)
  }

  ghost predicate SolidUpTo(rec: Record, n: nat, path: seq<nat>)
    requires n <= |rec.fields|
  {
    forall active: Active, b: int :: SolidUpToAt(rec, n, path, active, b)
  }

  lemma FieldLeavesStep(of: Type -> bool, rec: Record, n: nat, path: seq<nat>, active: Active, b: int)
    requires 0 < n <= |rec.fields|
    ensures FieldLeaves(of, rec, n, path, active, b) ==
            FieldLeaves(of, rec, n - 1, path, active, b) +
            FieldLeaf(of, rec.fields[n - 1], path + [|rec.bases| + n - 1], active, b - rec.fields[n - 1].offset)
  {
  }

  /** The last of `n` fields begins where what is before it ends. */
  lemma NoGapBefore(rec: Record, n: nat, path: seq<nat>)
    requires 0 < n <= |rec.fields| && OrderlyStruct(rec) && SolidUpTo(rec, n, path)
    ensures rec.fields[n - 1].offset == Reach(rec, n - 1)
  {
    var f, end := rec.fields[n - 1], Reach(rec, n - 1);
    var active: Active := p => 0;
    assert OrderlyField(rec, n - 1);
    if end < f.offset {
      assert SolidUpToAt(rec, n, path, active, end);
      UpToWithin(rec, n - 1, path, active, end);
      FieldLeavesStep(ANY, rec, n, path, active, end);
      FieldWithin(f, path + [|rec.bases| + n - 1], active, end - f.offset);
      assert false;
    }
  }

  lemma UpToWithin(rec: Record, n: nat, path: seq<nat>, active: Active, b: int)
    requires n <= |rec.fields| && OrderlyStruct(rec) && !(0 <= b < Reach(rec, n))
    ensures BaseLeaves(ANY, rec, |BasesOf(rec)|, path, active, b) == 0
    ensures FieldLeaves(ANY, rec, n, path, active, b) == 0
  {
    ReachGrows(rec, 0, n);
    FieldsWithin(rec, n, path, active, b);
    HitsBelowEnd(BaseSpans(rec, |BasesOf(rec)|), b);
    OutsideSpans(rec, |BasesOf(rec)|, b);
    BasesWithin(rec, |BasesOf(rec)|, path, active, b);
  }

  lemma PeelFieldAt(rec: Record, n: nat, path: seq<nat>, active: Active, b: int)
    requires 0 < n <= |rec.fields| && OrderlyStruct(rec) && SolidUpToAt(rec, n, path, active, b)
    requires rec.fields[n - 1].offset == Reach(rec, n - 1)
    ensures SolidUpToAt(rec, n - 1, path, active, b)
    ensures var f := rec.fields[n - 1];
      SolidFieldAt(f, FieldWidth(f), path + [|rec.bases| + n - 1], active, b - f.offset)
  {
    var f := rec.fields[n - 1];
    assert OrderlyField(rec, n - 1);
    FieldLeavesStep(ANY, rec, n, path, active, b);
    FieldLeavesStep(UNFIT, rec, n, path, active, b);
    if b < 0 || b >= f.offset {
      UpToWithin(rec, n - 1, path, active, b);
    } else {
      FieldWithin(f, path + [|rec.bases| + n - 1], active, b - f.offset);
    }
  }

  lemma PeelField(rec: Record, n: nat, path: seq<nat>)
    requires 0 < n <= |rec.fields| && OrderlyStruct(rec) && SolidUpTo(rec, n, path)
    ensures rec.fields[n - 1].offset == Reach(rec, n - 1)
    ensures SolidUpTo(rec, n - 1, path)
    ensures SolidField(rec.fields[n - 1], FieldWidth(rec.fields[n - 1]), path + [|rec.bases| + n - 1])
  {
    var f, m, inner := rec.fields[n - 1], n - 1, path + [|rec.bases| + n - 1];
    NoGapBefore(rec, n, path);
    forall active: Active, b: int
      ensures SolidUpToAt(rec, m, path, active, b)
    {
      assert SolidUpToAt(rec, n, path, active, b);
      PeelFieldAt(rec, n, path, active, b);
    }
    forall active: Active, b: int
      ensures SolidFieldAt(f, FieldWidth(f), inner, active, b)
    {
      assert SolidUpToAt(rec, n, path, active, b + f.offset);
      PeelFieldAt(rec, n, path, active, b + f.offset);
    }
  }

  lemma {:induction false} SolidIsAccepted(t: Type, path: seq<nat>)
    requires Orderly(t) && WellTyped(t) && Solid(t, path)
    ensures HasUnique(t)
    decreases t, 0
  {
    match t {
      case Array(element, _) =>
        SolidElement(t, path);
        SolidIsAccepted(element, path + [0]);
        ElementDecides(t);
      case Class(rec) =>
        if rec.isUnion {
          forall active: Active, b: int
            ensures SolidUnionAt(rec, path, active, b)
          {
            assert SolidAt(t, path, active, b);
          }
          SolidUnionIsAccepted(rec, path);
        } else {
          SolidClass(rec, path);
          SolidStructIsAccepted(rec, path);
        }
      case _ => ScalarIsFit(t, path);
    }
  }

  lemma ScalarIsFit(t: Type, path: seq<nat>)
    requires !t.Array? && !t.Class? && WellTyped(t) && Solid(t, path)
    ensures !UNFIT(t)
  {
    var active: Active := p => 0;
    assert SolidAt(t, path, active, 0);
  }

  lemma {:induction false} ElementDecides(t: Type)
    requires t.Array? && HasUnique(t.element)
    ensures HasUnique(t)
  {
    if t.element.Array? {
      assert BaseElement(t) == BaseElement(t.element);
    } else {
      assert BaseElement(t) == t.element;
    }
  }

  lemma {:induction false} FirstElement(of: Type -> bool, t: Type, n: nat, path: seq<nat>, active: Active, b: int)
    requires t.Array? && n > 0
    ensures Leaves(of, t.element, path + [0], active, b) <= ArrayLeaves(of, t, n, path, active, b)
    decreases n
  {
    if n > 1 {
      FirstElement(of, t, n - 1, path, active, b);
    }
  }

  lemma {:induction false} FirstElementAlone(t: Type, n: nat, path: seq<nat>, active: Active, b: int)
    requires t.Array? && n > 0 && Orderly(t.element) && b < BitsOf(t.element)
    ensures Leaves(ANY, t.element, path + [0], active, b) == ArrayLeaves(ANY, t, n, path, active, b)
    decreases n
  {
    if n > 1 {
      FirstElementAlone(t, n - 1, path, active, b);
      LeavesWithin(t.element, path + [n - 1], active, b - Times(n - 1, BitsOf(t.element)));
    }
  }

  lemma SolidElement(t: Type, path: seq<nat>)
    requires t.Array? && t.count > 0 && Orderly(t.element) && Solid(t, path)
    ensures Solid(t.element, path + [0])
  {
    TimesEight(t.count, SizeOf(t.element));
    forall active: Active, b: int
      ensures SolidAt(t.element, path + [0], active, b)
    {
      assert SolidAt(t, path, active, b);
      FirstElement(UNFIT, t, t.count, path, active, b);
      if b < BitsOf(t.element) {
        FirstElementAlone(t, t.count, path, active, b);
      } else {
        LeavesWithin(t.element, path + [0], active, b);
      }
    }
  }

  lemma SolidClass(rec: Record, path: seq<nat>)
    requires !rec.isUnion && OrderlyStruct(rec) && Extent(rec) <= 8 * rec.size && Solid(Class(rec), path)
    ensures Extent(rec) == 8 * rec.size && SolidUpTo(rec, |rec.fields|, path)
  {
    var active: Active := p => 0;
    if Extent(rec) < 8 * rec.size {
      assert SolidAt(Class(rec), path, active, Extent(rec));
      StructWithin(rec, path, active, Extent(rec));
      assert false;
    }
    forall active: Active, b: int
      ensures SolidUpToAt(rec, |rec.fields|, path, active, b)
    {
      assert SolidAt(Class(rec), path, active, b);
      ClassLeaves(ANY, rec, path, active, b);
      ClassLeaves(UNFIT, rec, path, active, b);
    }
  }

  lemma ClassLeaves(of: Type -> bool, rec: Record, path: seq<nat>, active: Active, b: int)
    requires !rec.isUnion
    ensures Leaves(of, Class(rec), path, active, b) ==
            BaseLeaves(of, rec, |BasesOf(rec)|, path, active, b) +
            FieldLeaves(of, rec, |rec.fields|, path, active, b)
  {
    assert Leaves(of, Class(rec), path, active, b) == StructLeaves(of, rec, path, active, b);
  }

  lemma {:induction false} SolidStructIsAccepted(rec: Record, path: seq<nat>)
    requires OrderlyStruct(rec) && WellTypedStruct(rec) && SolidUpTo(rec, |rec.fields|, path)
    ensures StructBits(rec) == Some(Extent(rec))
    decreases rec, |rec.bases| + |rec.fields| + 1
  {
    SolidFieldsAreAccepted(rec, |rec.fields|, path);
  }

  lemma {:induction false} SolidFieldsAreAccepted(rec: Record, n: nat, path: seq<nat>)
    requires n <= |rec.fields| && OrderlyStruct(rec) && WellTypedStruct(rec) && SolidUpTo(rec, n, path)
    ensures FieldsEnd(rec, n) == Some(Reach(rec, n))
    decreases rec, n, 1
  {
    if n == 0 {
      SolidBasesAreAccepted(rec, path);
    } else {
      PeelField(rec, n, path);
      SolidFieldsAreAccepted(rec, n - 1, path);
      SolidFieldIsAccepted(rec, n, path + [|rec.bases| + n - 1]);
    }
  }

  lemma {:induction false} SolidFieldIsAccepted(rec: Record, n: nat, path: seq<nat>)
    requires 0 < n <= |rec.fields| && OrderlyStruct(rec) && WellTypedStruct(rec)
    requires SolidField(rec.fields[n - 1], FieldWidth(rec.fields[n - 1]), path)
    ensures var f := rec.fields[n - 1];
      (f.ty.Reference? || HasUnique(f.ty)) && FieldBits(f) == Some(FieldWidth(f))
    decreases rec, n, 0
  {
    var f := rec.fields[n - 1];
    assert OrderlyField(rec, n - 1);
    if f.BitField? {
      var value := if f.named then ValueBits(f) else 0;
      assert SolidFieldAt(f, f.width, path, p => 0, value);
    } else if !f.ty.Reference? {
      forall active: Active, b: int
        ensures SolidAt(f.ty, path, active, b)
      {
        assert SolidFieldAt(f, BitsOf(f.ty), path, active, b);
      }
      SolidIsAccepted(f.ty, path);
    }
  }

  lemma {:induction false} SolidBasesAreAccepted(rec: Record, path: seq<nat>)
    requires OrderlyStruct(rec) && WellTypedStruct(rec) && SolidUpTo(rec, 0, path)
    ensures BasesEnd(rec) == Some(Reach(rec, 0))
    decreases rec, 0, 0, 2
  {
    if rec.isCxx {
      SolidPartsAreAccepted(rec, path);
      SpansCovered(rec, path, BaseSpans(rec, |rec.bases|));
      ChainOfSpans(BaseSpans(rec, |rec.bases|));
    }
  }

  lemma SpansCovered(rec: Record, path: seq<nat>, spans: seq<Part>)
    requires OrderlyStruct(rec) && SolidUpTo(rec, 0, path) && spans == BaseSpans(rec, |BasesOf(rec)|)
    ensures Covered(spans)
  {
    var active: Active := p => 0;
    forall b | 0 <= b < EndOf(spans)
      ensures Hits(spans, b) > 0
    {
      assert SolidUpToAt(rec, 0, path, active, b);
      OutsideSpans(rec, |BasesOf(rec)|, b);
      if Hits(spans, b) == 0 {
        BasesWithin(rec, |BasesOf(rec)|, path, active, b);
      }
    }
  }

  lemma ChainOfSpans(spans: seq<Part>)
    requires Apart(spans) && Covered(spans)
    ensures ChainEnd(SortByOffset(spans), |SortByOffset(spans)|) == Some(EndOf(spans))
  {
    var sorted := SortByOffset(spans);
    SortInOrder(spans);
    SameEnd(sorted, spans);
    forall b | 0 <= b < EndOf(sorted)
      ensures Hits(sorted, b) > 0
    {
      SortHits(spans, b);
    }
    CoveredChain(sorted, |sorted|);
    assert sorted[..|sorted|] == sorted;
  }

  lemma {:induction false} SolidPartsAreAccepted(rec: Record, path: seq<nat>)
    requires OrderlyStruct(rec) && WellTypedStruct(rec) && SolidUpTo(rec, 0, path)
    ensures BaseParts(rec, |BasesOf(rec)|) == Some(BaseSpans(rec, |BasesOf(rec)|))
    decreases rec, 0, 0, 1
  {
    forall i: nat | i < |BasesOf(rec)|
      ensures PartIsSpan(rec, i)
    {
      SolidPartIsAccepted(rec, i, path);
    }
    PartsAreSpans(rec, |BasesOf(rec)|);
  }

  ghost predicate PartIsSpan(rec: Record, i: nat)
    requires i < |BasesOf(rec)|
  {
    IsStructEmpty(rec.bases[i].rec) || StructBits(rec.bases[i].rec) == Some(Extent(rec.bases[i].rec))
  }

  lemma {:induction false} PartsAreSpans(rec: Record, n: nat)
    requires n <= |BasesOf(rec)| && forall i: nat :: i < n ==> PartIsSpan(rec, i)
    ensures BaseParts(rec, n) == Some(BaseSpans(rec, n))
    decreases n
  {
    if n > 0 {
      PartsAreSpans(rec, n - 1);
      OneMorePart(rec, n);
    }
  }

  lemma {:induction false} SolidPartIsAccepted(rec: Record, i: nat, path: seq<nat>)
    requires i < |BasesOf(rec)| && OrderlyStruct(rec) && WellTypedStruct(rec) && SolidUpTo(rec, 0, path)
    ensures PartIsSpan(rec, i)
    decreases rec, 0, 0, 0
  {
    if !IsStructEmpty(rec.bases[i].rec) {
      SolidBase(rec, i, path);
      SolidStructIsAccepted(rec.bases[i].rec, path + [i]);
    }
  }

  lemma OneMorePart(rec: Record, n: nat)
    requires 0 < n <= |BasesOf(rec)| && BaseParts(rec, n - 1) == Some(BaseSpans(rec, n - 1))
    requires PartIsSpan(rec, n - 1)
    ensures BaseParts(rec, n) == Some(BaseSpans(rec, n))
  {
    if IsStructEmpty(rec.bases[n - 1].rec) {
      assert BaseSpans(rec, n) == BaseSpans(rec, n - 1);
    }
  }

  lemma {:induction false} BaseIncluded(of: Type -> bool, rec: Record, n: nat, i: nat, path: seq<nat>,
                                        active: Active, b: int)
    requires i < n <= |BasesOf(rec)|
    ensures StructLeaves(of, rec.bases[i].rec, path + [i], active, b - 8 * rec.bases[i].offset) <=
            BaseLeaves(of, rec, n, path, active, b)
    decreases n
  {
    BaseLeavesStep(of, rec, n, path, active, b);
    if i < n - 1 {
      BaseIncluded(of, rec, n - 1, i, path, active, b);
    }
  }

  lemma {:induction false} SpanAmong(rec: Record, n: nat, i: nat)
    requires i < n <= |BasesOf(rec)| && !IsStructEmpty(rec.bases[i].rec)
    ensures Part(8 * rec.bases[i].offset, Extent(rec.bases[i].rec)) in BaseSpans(rec, n)
    decreases n
  {
    if i < n - 1 {
      SpanAmong(rec, n - 1, i);
    }
  }

  /** Of the first `n` bases only base `i` can reach over bit `b`. */
  ghost predicate OnlyIn(rec: Record, n: nat, i: nat, b: int)
    requires n <= |BasesOf(rec)|
  {
    forall j :: 0 < j <= n && j != i + 1 ==> SpanHit(rec, j, b) == 0
  }

  lemma SpansDisjoint(rec: Record, n: nat, i: nat, b: int)
    requires i < n < |BasesOf(rec)| && Apart(BaseSpans(rec, n + 1))
    ensures SpanHit(rec, i + 1, b) == 0 || SpanHit(rec, n + 1, b) == 0
  {
    if !IsStructEmpty(rec.bases[i].rec) && !IsStructEmpty(rec.bases[n].rec) {
      SpanAmong(rec, n, i);
      ApartLast(BaseSpans(rec, n), Part(8 * rec.bases[n].offset, Extent(rec.bases[n].rec)));
    }
  }

  lemma ApartBefore(rec: Record, n: nat)
    requires 0 < n <= |BasesOf(rec)| && Apart(BaseSpans(rec, n))
    ensures Apart(BaseSpans(rec, n - 1))
  {
    var base := rec.bases[n - 1];
    if IsStructEmpty(base.rec) {
      assert BaseSpans(rec, n) == BaseSpans(rec, n - 1);
    } else {
      ApartLast(BaseSpans(rec, n - 1), Part(8 * base.offset, Extent(base.rec)));
    }
  }

  lemma {:induction false} ApartOnlyIn(rec: Record, n: nat, i: nat, b: int)
    requires i < n <= |BasesOf(rec)| && Apart(BaseSpans(rec, n)) && SpanHit(rec, i + 1, b) == 1
    ensures OnlyIn(rec, n, i, b)
    decreases n
  {
    if i < n - 1 {
      ApartBefore(rec, n);
      ApartOnlyIn(rec, n - 1, i, b);
      SpansDisjoint(rec, n - 1, i, b);
    } else {
      forall j | 0 < j <= n && j != i + 1
        ensures SpanHit(rec, j, b) == 0
      {
        SpansDisjoint(rec, n - 1, j - 1, b);
      }
    }
  }

  lemma {:induction false} BaseAlone(rec: Record, n: nat, i: nat, path: seq<nat>, active: Active, b: int)
    requires i < n <= |BasesOf(rec)| && OrderlyStruct(rec) && OnlyIn(rec, n, i, b)
    ensures BaseLeaves(ANY, rec, n, path, active, b) ==
            StructLeaves(ANY, rec.bases[i].rec, path + [i], active, b - 8 * rec.bases[i].offset)
    decreases n
  {
    BaseLeavesStep(ANY, rec, n, path, active, b);
    if i < n - 1 {
      BaseWithin(rec, n, path, active, b);
      BaseAlone(rec, n - 1, i, path, active, b);
    } else {
      BasesWithin(rec, n - 1, path, active, b);
    }
  }

  lemma SpanWithin(rec: Record, i: nat, b: int)
    requires i < |BasesOf(rec)| && SpanHit(rec, i + 1, b) == 1
    ensures 0 <= b < Reach(rec, 0)
  {
    SpanAmong(rec, |BasesOf(rec)|, i);
    EndOfBounds(BaseSpans(rec, |BasesOf(rec)|));
  }

  /** Where base `i` reaches over a bit, its leaves are all there are of bases; elsewhere it has none. */
  ghost predicate AloneAt(rec: Record, i: nat, path: seq<nat>, active: Active, b: int)
    requires i < |BasesOf(rec)|
  {
    var leaves := StructLeaves(ANY, rec.bases[i].rec, path + [i], active, b - 8 * rec.bases[i].offset);
    if SpanHit(rec, i + 1, b) == 1
    then 0 <= b < Reach(rec, 0) && leaves == BaseLeaves(ANY, rec, |BasesOf(rec)|, path, active, b)
    else leaves == 0
  }

  lemma BaseIsAlone(rec: Record, i: nat, path: seq<nat>, active: Active, b: int)
    requires i < |BasesOf(rec)| && OrderlyStruct(rec)
    ensures AloneAt(rec, i, path, active, b)
  {
    if SpanHit(rec, i + 1, b) == 1 {
      SpanWithin(rec, i, b);
      ApartOnlyIn(rec, |BasesOf(rec)|, i, b);
      BaseAlone(rec, |BasesOf(rec)|, i, path, active, b);
    } else {
      BaseWithin(rec, i + 1, path, active, b);
    }
  }

  lemma BasesOnce(rec: Record, path: seq<nat>, active: Active, b: int)
    requires SolidUpToAt(rec, 0, path, active, b)
    ensures Once(BaseLeaves(ANY, rec, |BasesOf(rec)|, path, active, b),
                 BaseLeaves(UNFIT, rec, |BasesOf(rec)|, path, active, b), Reach(rec, 0), b)
  {
  }

  lemma StructOnce(rec: Record, path: seq<nat>, active: Active, offset: nat, all: nat, unfit: nat, reach: nat, b: int)
    requires Once(all, unfit, reach, b + offset)
    requires var hit := Hit(offset, Extent(rec), b + offset);
      && (hit == 1 ==> 0 <= b + offset < reach)
      && StructLeaves(ANY, rec, path, active, b) == if hit == 1 then all else 0
    requires StructLeaves(UNFIT, rec, path, active, b) <= unfit
    ensures SolidUpToAt(rec, |rec.fields|, path, active, b)
  {
  }

  lemma SolidBaseAt(rec: Record, i: nat, path: seq<nat>, active: Active, b: int, outer: int)
    requires i < |BasesOf(rec)| && !IsStructEmpty(rec.bases[i].rec) && outer == b + 8 * rec.bases[i].offset
    requires SolidUpToAt(rec, 0, path, active, outer) && AloneAt(rec, i, path, active, outer)
    ensures SolidUpToAt(rec.bases[i].rec, |rec.bases[i].rec.fields|, path + [i], active, b)
  {
    var base, n := rec.bases[i], |BasesOf(rec)|;
    BasesOnce(rec, path, active, outer);
    BaseIncluded(UNFIT, rec, n, i, path, active, outer);
    StructOnce(base.rec, path + [i], active, 8 * base.offset, BaseLeaves(ANY, rec, n, path, active, outer),
               BaseLeaves(UNFIT, rec, n, path, active, outer), Reach(rec, 0), b);
  }

  lemma SolidBaseIfAlone(rec: Record, i: nat, path: seq<nat>)
    requires i < |BasesOf(rec)| && !IsStructEmpty(rec.bases[i].rec) && SolidUpTo(rec, 0, path)
    requires forall active: Active, b: int :: AloneAt(rec, i, path, active, b)
    ensures SolidUpTo(rec.bases[i].rec, |rec.bases[i].rec.fields|, path + [i])
  {
    var base, inner := rec.bases[i].rec, path + [i];
    forall active: Active, b: int
      ensures SolidUpToAt(base, |base.fields|, inner, active, b)
    {
      var outer := b + 8 * rec.bases[i].offset;
      assert SolidUpToAt(rec, 0, path, active, outer) && AloneAt(rec, i, path, active, outer);
      SolidBaseAt(rec, i, path, active, b, outer);
    }
  }

  lemma SolidBase(rec: Record, i: nat, path: seq<nat>)
    requires i < |BasesOf(rec)| && OrderlyStruct(rec) && !IsStructEmpty(rec.bases[i].rec) && SolidUpTo(rec, 0, path)
    ensures SolidUpTo(rec.bases[i].rec, |rec.bases[i].rec.fields|, path + [i])
  {
    forall active: Active, b: int
      ensures AloneAt(rec, i, path, active, b)
    {
      BaseIsAlone(rec, i, path, active, b);
    }
    SolidBaseIfAlone(rec, i, path);
  }

  lemma {:induction false} SolidUnionIsAccepted(rec: Record, path: seq<nat>)
    requires OrderlyUnion(rec) && WellTypedUnion(rec) && SolidUnion(rec, path)
    ensures UnionIsUnique(rec)
    decreases rec, 0
  {
    UnionHasMembers(rec, path);
    forall i | 0 <= i < |rec.fields|
      ensures HasUnique(rec.fields[i].ty) && SizeOf(rec.fields[i].ty) == rec.size
    {
      var f := rec.fields[i];
      if f.Member? || f.named {
        var k := SolidMember(rec, f, path);
        FillsUnion(f, rec.size, path + [k]);
        if f.Member? {
          forall active: Active, b: int
            ensures SolidAt(f.ty, path + [k], active, b)
          {
            assert SolidFieldAt(f, 8 * rec.size, path + [k], active, b);
          }
          SolidIsAccepted(f.ty, path + [k]);
        }
      }
    }
  }

  lemma UnionHasMembers(rec: Record, path: seq<nat>)
    requires WellTypedUnion(rec) && SolidUnion(rec, path)
    ensures rec.fields != []
  {
    var active: Active := p => 0;
    assert SolidUnionAt(rec, path, active, 0);
  }

  lemma FillsUnion(f: Field, size: nat, path: seq<nat>)
    requires SolidField(f, 8 * size, path) && SizeOf(f.ty) <= size
    requires if f.Member? then Orderly(f.ty) else f.named
    ensures SizeOf(f.ty) == size
  {
    var active: Active := p => 0;
    assert SolidFieldAt(f, 8 * size, path, active, BitsOf(f.ty));
    if f.Member? {
      LeavesWithin(f.ty, path, active, BitsOf(f.ty));
    }
  }

  /** Whatever is said of every choice of active members is also said of those that make `f` active. */
  lemma SolidMember(rec: Record, f: Field, path: seq<nat>) returns (k: nat)
    requires f in rec.fields && (f.Member? || f.named) && SolidUnion(rec, path)
    ensures SolidField(f, 8 * rec.size, path + [k])
  {
    var ms := Members(rec.fields);
    k :| 0 <= k < |ms| && ms[k] == f;
    SmallModulo(k, |ms|);
    forall inner: Active, b: int
      ensures SolidFieldAt(f, 8 * rec.size, path + [k], inner, b)
    {
      var active: Active := p => if p == path then k else inner(p);
      assert SolidUnionAt(rec, path, active, b);
      FieldLocal(ANY, f, path + [k], inner, active, b);
      FieldLocal(UNFIT, f, path + [k], inner, active, b);
    }
  }

  // ---------- Exactly when ----------

  /** No bit lies under a scalar that is unfit. */
  ghost predicate NoUnfit(t: Type) {
    forall active: Active, b: int :: Leaves(UNFIT, t, [], active, b) == 0
  }

  /** A type is accepted, and has no hidden bits, exactly when every bit of it lies under exactly one scalar, that is
      never an unfit one, and the type is laid out in order. */
  lemma {:induction false} AcceptedExactlyWhen(t: Type)
    requires WellTyped(t)
    ensures HasUnique(t) && NoHiddenBits(t) <==> NoPadding(t) && NoUnfit(t) && Orderly(t)
  {
    if HasUnique(t) && NoHiddenBits(t) {
      UniqueMeansNoPadding(t);
      AcceptedIsOrderly(t);
      forall active: Active, b: int
        ensures Leaves(UNFIT, t, [], active, b) == 0
      {
        NoUnfitLeaves(t, [], active, b);
      }
    }
    if NoPadding(t) && NoUnfit(t) && Orderly(t) {
      forall active: Active, b: int
        ensures SolidAt(t, [], active, b)
      {
        assert Leaves(ANY, t, [], active, b) == Hit(0, BitsOf(t), b) && Leaves(UNFIT, t, [], active, b) == 0;
      }
      SolidIsAccepted(t, []);
      UniqueMeansNoPadding(t);
    }
  }

  // ---------- Each part of the layout matters ----------

  /** `union { int a; char : 8; }` is rejected, although nothing in it is padding. */
  lemma UnnamedBitFieldInUnionIsRejected(i: Type, rec: Record)
    requires i == Integral(4, 32)
    requires rec ==
             Record(4, true, false, false, false, true, [], [Member(i, 0), BitField(Integral(1, 8), 0, 8, false)])
    ensures WellTyped(Class(rec)) && NoPadding(Class(rec)) && NoUnfit(Class(rec)) && !HasUnique(Class(rec))
  {
    assert SizeOf(rec.fields[1].ty) == 1;
    var ms := Members(rec.fields);
    assert rec.fields[..1] == [rec.fields[0]] && rec.fields[..1][..0] == [];
    assert Members(rec.fields[..1]) == [rec.fields[0]];
    assert ms == [rec.fields[0]];
    forall active: Active, b: int, of: Type -> bool
      ensures Leaves(of, Class(rec), [], active, b) == if of(i) then Hit(0, 32, b) else 0
    {
      var k := active([]) % |ms|;
      assert Leaves(of, Class(rec), [], active, b) == UnionLeaves(of, rec, [], active, b);
      assert ms[k] == rec.fields[0];
      assert UnionLeaves(of, rec, [], active, b) == FieldLeaf(of, rec.fields[0], [] + [k], active, b);
      assert FieldLeaf(of, rec.fields[0], [] + [k], active, b) == Leaves(of, i, [] + [k], active, b);
    }
    assert !UNFIT(i) && ANY(i);
  }

  /** `struct E {}; struct { [[no_unique_address]] E e; int a; }`, where both members begin at offset 0, is rejected
      for the same reason: the layout is not in order. */
  lemma OverlappingMemberIsRejected(i: Type, e: Record, rec: Record)
    requires i == Integral(4, 32) && e == Record(1, false, true, false, false, true, [], [])
    requires rec == Record(4, false, true, false, false, true, [], [Member(Class(e), 0), Member(i, 0)])
    ensures WellTyped(Class(rec)) && NoPadding(Class(rec)) && NoUnfit(Class(rec)) && !HasUnique(Class(rec))
  {
    assert Reach(rec, 1) == 8;
    assert !OrderlyField(rec, 1);
    forall active: Active, b: int, of: Type -> bool
      ensures Leaves(of, Class(rec), [], active, b) == if of(i) then Hit(0, 32, b) else 0
    {
      ClassLeaves(of, rec, [], active, b);
      FieldLeavesStep(of, rec, 2, [], active, b);
      FieldLeavesStep(of, rec, 1, [], active, b);
      assert FieldLeaf(of, rec.fields[1], [] + [1], active, b) == Leaves(of, i, [] + [1], active, b);
      EmptyHasNoLeaves(of, e, [] + [0], active, b);
      assert FieldLeaf(of, rec.fields[0], [] + [0], active, b) == Leaves(of, Class(e), [] + [0], active, b);
      assert Leaves(of, Class(e), [] + [0], active, b) == StructLeaves(of, e, [] + [0], active, b);
    }
    assert !UNFIT(i) && ANY(i);
    AcceptedExactlyWhen(Class(rec));
    if HasUnique(Class(rec)) {
      AcceptedIsOrderly(Class(rec));
    }
  }

  /** `struct A { int a; }; struct E {}; struct : A, E {}` is accepted, although both bases begin at offset 0. */
  lemma EmptyBaseIsAccepted(a: Record, e: Record, rec: Record)
    requires a == Record(4, false, true, false, false, true, [], [Member(Integral(4, 32), 0)])
    requires e == Record(1, false, true, false, false, true, [], [])
    requires rec == Record(4, false, true, false, false, true, [Base(a, 0), Base(e, 0)], [])
    ensures HasUnique(Class(rec))
  {
    assert FieldsEnd(a, 0) == Some(0) && FieldsEnd(a, 1) == Some(32);
    assert IsStructEmpty(e);
    assert BaseParts(rec, 0) == Some([]) && StructBits(a) == Some(32);
    assert |a.fields| == 1 && !IsStructEmpty(a) && [] + [Part(0, 32)] == [Part(0, 32)];
    assert BaseParts(rec, 1) == Some([Part(0, 32)]);
    assert BaseParts(rec, 2) == Some([Part(0, 32)]);
    var parts := [Part(0, 32)];
    assert parts[..0] == [] && SortByOffset(parts) == parts;
    assert ChainEnd(parts, 0) == Some(0) && ChainEnd(parts, 1) == Some(32);
    assert FieldsEnd(rec, 0) == Some(32);
  }

  /** `double[0]` is rejected, although it has no bits at all. */
  lemma ZeroLengthArrayIsRejected(t: Type)
    requires t == Array(OtherScalar(8), 0)
    ensures NoPadding(t) && NoUnfit(t) && Orderly(t) && !HasUnique(t)
  {
    assert BaseElement(t) == OtherScalar(8);
  }
}
