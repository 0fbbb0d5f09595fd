/// Alignments are powers of two, and what that makes of the bit tricks in the alignment arithmetic.

module Alignment {
  import opened Prelude

  ghost predicate IsPow2(n: nat) {
    exists k: nat :: n == Pow2(k)
  }

  /** Bitwise and. */
  function And(a: nat, b: nat): nat {
    if a == 0 || b == 0 then 0 else (if a % 2 == 1 && b % 2 == 1 then 1 else 0) + 2 * And(a / 2, b / 2)
  }

  /** The smallest power of two above `n`, looked for from `p` on. */
  function NextFrom(n: nat, p: nat): (r: nat)
    requires p > 0
    decreases if p <= n then n - p + 1 else 0
  {
    if p > n then p else NextFrom(n, 2 * p)
  }

  function NextPowerOf2(n: nat): nat {
    NextFrom(n, 1)
  }

  function PowerOf2Ceil(n: nat): nat {
    if n == 0 then 0 else NextPowerOf2(n - 1)
  }

  // ---------- Facts about powers of two ----------

  lemma {:induction false} NextIsPow2(n: nat, k: nat) returns (m: nat)
    ensures NextFrom(n, Pow2(k)) == Pow2(m) > n
    ensures m == k || (m > 0 && Pow2(m - 1) <= n)
    decreases if Pow2(k) <= n then n - Pow2(k) + 1 else 0
  {
    if Pow2(k) <= n {
      m := NextIsPow2(n, k + 1);
    } else {
      m := k;
    }
  }

  /** Taking one off a positive number clears its lowest bit and sets those below: what is left of the number
      vanishes exactly for powers of two. */
  lemma {:induction false} AndPredecessor(n: nat)
    requires n > 0
    ensures And(n, n - 1) == 0 <==> IsPow2(n)
    decreases n
  {
    if n == 1 {
      assert Pow2(0) == 1;
    } else if n % 2 == 1 {
      assert (n - 1) / 2 == n / 2;
      AndSelf(n / 2);
    } else {
      var h := n / 2;
      assert (n - 1) / 2 == h - 1 && (n - 1) % 2 == 1;
      AndPredecessor(h);
      if IsPow2(h) {
        var k: nat :| h == Pow2(k);
        assert n == Pow2(k + 1);
      }
      if IsPow2(n) {
        var k: nat :| n == Pow2(k);
        assert k > 0 && h == Pow2(k - 1);
      }
    }
  }

  lemma {:induction false} AndSelf(n: nat)
    ensures And(n, n) == n
    decreases n
  {
    if n > 0 {
      AndSelf(n / 2);
    }
  }

  /** A number and its complement have no bit in common. */
  lemma {:induction false} AndComplement(n: nat, w: nat)
    requires n < Pow2(w)
    ensures And(n, Pow2(w) - 1 - n) == 0
    decreases w
  {
    if n > 0 && w > 0 {
      assert (Pow2(w) - 1 - n) / 2 == Pow2(w - 1) - 1 - n / 2;
      AndComplement(n / 2, w - 1);
    }
  }

  /** The lowest bit of a word of `w` bits: the number and its negative have just that one in common. */
  function LowBit(n: nat, w: nat): nat
    requires n < Pow2(w)
  {
    And(n, (Pow2(w) - 1 - n + 1) % Pow2(w))
  }

  /** It is found by looking at the bits from the lowest one on. */
  lemma LowBitStep(n: nat, w: nat)
    requires 0 < n < Pow2(w)
    ensures w > 0 && LowBit(n, w) == if n % 2 == 1 then 1 else 2 * LowBit(n / 2, w - 1)
  {
    SmallModulo(Pow2(w) - n, Pow2(w));
    if n % 2 == 1 {
      LowBitOfOdd(n / 2, w - 1);
    } else {
      LowBitOfEven(n / 2, w - 1);
    }
  }

  lemma LowBitOfOdd(n: nat, w: nat)
    requires n < Pow2(w)
    ensures And(2 * n + 1, 2 * Pow2(w) - (2 * n + 1)) == 1
  {
    var m := Pow2(w) - 1 - n;
    AndComplement(n, w);
    assert (2 * n + 1) / 2 == n && (2 * m + 1) / 2 == m;
  }

  lemma LowBitOfEven(n: nat, w: nat)
    requires 0 < n < Pow2(w)
    ensures And(2 * n, 2 * Pow2(w) - 2 * n) == 2 * LowBit(n, w)
  {
    var m := Pow2(w) - n;
    SmallModulo(m, Pow2(w));
    assert (2 * n) / 2 == n && (2 * m) / 2 == m;
  }

  /** The lowest bit is a power of two that divides the number an odd number of times. */
  lemma {:induction false} LowBitDivides(n: nat, w: nat) returns (j: nat, odd: nat)
    requires 0 < n < Pow2(w)
    ensures LowBit(n, w) == Pow2(j) && n == Pow2(j) * odd && odd % 2 == 1
    decreases w
  {
    LowBitStep(n, w);
    if n % 2 == 1 {
      j, odd := 0, n;
    } else {
      j, odd := LowBitDivides(n / 2, w - 1);
      Doubled(Pow2(j), odd);
      j := j + 1;
    }
  }

  lemma SmallModulo(n: nat, m: nat)
    requires n < m
    ensures n % m == n
  {
  }

  // ---------- The greatest common divisor ----------

  ghost predicate Divides(d: nat, n: nat) {
    exists m: nat :: n == d * m
  }

  ghost predicate IsGcd(g: nat, a: nat, b: nat) {
    Divides(g, a) && Divides(g, b) && forall d: nat :: Divides(d, a) && Divides(d, b) ==> d <= g
  }

  /** The divisors of a power of two are the smaller ones. */
  lemma {:induction false} DivisorIsPow2(d: nat, m: nat, k: nat) returns (i: nat)
    requires d * m == Pow2(k)
    ensures i <= k && d == Pow2(i) && m == Pow2(k - i)
    decreases k, m
  {
    if k == 0 {
      OneTimesOne(d, m);
      i := 0;
    } else if d % 2 == 0 {
      HalfProduct(d, m, Pow2(k - 1));
      i := DivisorIsPow2(d / 2, m, k - 1);
      i := i + 1;
    } else {
      OddTimes(d, m);
      HalfProduct(m, d, Pow2(k - 1));
      i := DivisorIsPow2(d, m / 2, k - 1);
    }
  }

  lemma HalfProduct(d: nat, m: nat, p: nat)
    requires d % 2 == 0 && (d * m == 2 * p || m * d == 2 * p)
    ensures (d / 2) * m == p && m * (d / 2) == p
  {
    var h := d / 2;
    assert d == 2 * h && (2 * h) * m == 2 * (h * m);
  }

  lemma OneTimesOne(d: nat, m: nat)
    requires d * m == 1
    ensures d == 1 && m == 1
  {
    assert d > 0 && m > 0;
    assert (d - 1) * m >= 0 && d * m == (d - 1) * m + m;
    assert d * (m - 1) >= 0 && d * m == d * (m - 1) + d;
  }

  lemma OddTimes(d: nat, m: nat)
    requires d % 2 == 1
    ensures (d * m) % 2 == m % 2
  {
    var h := d / 2;
    assert d == 2 * h + 1;
    assert d * m == 2 * (h * m) + m;
  }

  /** For power-of-two alignments the smaller of the alignment and the lowest bit of the offset is the greatest
      common divisor of alignment and offset. */
  lemma {:induction false} LowBitIsGcd(k: nat, offset: nat, w: nat)
    requires 0 < offset < Pow2(w)
    ensures var low := LowBit(offset, w); IsGcd(if low < Pow2(k) then low else Pow2(k), Pow2(k), offset)
  {
    var j, odd := LowBitDivides(offset, w);
    PowersOrdered(k, j);
    var i := if j < k then j else k;
    SmallerDivides(i, k, 1);
    SmallerDivides(i, j, odd);
    forall d: nat | Divides(d, Pow2(k)) && Divides(d, offset)
      ensures d <= Pow2(i)
    {
      CommonDivisor(d, k, j, odd, offset, i);
    }
  }

  lemma SmallerDivides(i: nat, k: nat, n: nat)
    requires i <= k
    ensures Divides(Pow2(i), Pow2(k) * n)
  {
    PowersAdd(i, k);
    Regroup(Pow2(i), Pow2(k - i), n);
  }

  lemma Regroup(a: nat, b: nat, c: nat)
    ensures (a * b) * c == a * (b * c)
  {
  }

  lemma {:induction false} CommonDivisor(d: nat, k: nat, j: nat, odd: nat, offset: nat, i: nat)
    requires Divides(d, Pow2(k)) && Divides(d, offset) && offset == Pow2(j) * odd && odd % 2 == 1
    requires i == if j < k then j else k
    ensures d <= Pow2(i)
  {
    var m: nat :| Pow2(k) == d * m;
    var e := DivisorIsPow2(d, m, k);
    var n: nat :| offset == d * n;
    NotTooMany(e, n, j, odd);
    PowersOrdered(e, i);
  }

  /** A power of two that divides an odd multiple of another is no larger. */
  lemma {:induction false} NotTooMany(e: nat, n: nat, j: nat, odd: nat)
    requires Pow2(e) * n == Pow2(j) * odd && odd % 2 == 1
    ensures e <= j
    decreases e
  {
    if e > 0 {
      Doubled(Pow2(e - 1), n);
      if j > 0 {
        Doubled(Pow2(j - 1), odd);
        NotTooMany(e - 1, n, j - 1, odd);
      }
    }
  }

  lemma Doubled(a: nat, n: nat)
    ensures (2 * a) * n == 2 * (a * n)
  {
  }

  lemma {:induction false} PowersOrdered(i: nat, k: nat)
    ensures i <= k <==> Pow2(i) <= Pow2(k)
    decreases i + k
  {
    if i > 0 && k > 0 {
      PowersOrdered(i - 1, k - 1);
    }
  }

  lemma {:induction false} PowersAdd(i: nat, k: nat)
    requires i <= k
    ensures Pow2(k) == Pow2(i) * Pow2(k - i)
    decreases i
  {
    if i > 0 {
      PowersAdd(i - 1, k - 1);
      Doubled(Pow2(i - 1), Pow2(k - i));
    }
  }

  /** The alignment that a field has in its record: it is the greatest common divisor of the record's
      alignment and the field's offset. */
  method FieldAlignment(recordAlign: nat, offset: nat) returns (fieldAlign: nat)
    requires IsPow2(recordAlign) && offset < Pow2(64)
    ensures IsGcd(fieldAlign, recordAlign, offset)
    ensures IsPow2(fieldAlign)
  {
    ghost var k: nat :| recordAlign == Pow2(k);
    fieldAlign := recordAlign;
    if offset > 0 {
      LowBitIsGcd(k, offset, 64);
      ghost var j, odd := LowBitDivides(offset, 64);
      var lowBitOfOffset := LowBit(offset, 64);
      if lowBitOfOffset < fieldAlign {
        fieldAlign := lowBitOfOffset;
      }
    } else {
      GcdOfZero(recordAlign);
    }
  }

  lemma GcdOfZero(a: nat)
    requires a > 0
    ensures IsGcd(a, a, 0)
  {
    assert a == a * 1 && 0 == a * 0;
    forall d: nat | Divides(d, a) && Divides(d, 0)
      ensures d <= a
    {
      var m: nat :| a == d * m;
      assert m > 0 && d * m == d * (m - 1) + d && d * (m - 1) >= 0;
    }
  }

  // ---------- The alignment of types ----------

  /** What the type information depends on; widths and alignments are in bits. The widths of arrays are rounded up
      unless the target follows the Microsoft ABI with pointers of 32 bits. */
  datatype Target = Target(maxVectorAlign: nat, longLongAlign: nat, maxAtomicPromoteWidth: nat, roundsArrays: bool)

  /** A type, as far as its alignment is concerned. `Basic` stands for the builtin types, pointers, references
      and member pointers, whose width and alignment are the target's; the alignment attribute of an
      enumeration or typedef is 0 if there is none; other sugar passes on what it stands for. */
  datatype Type =
    | Function
    | Basic(width: nat, align: nat)
    | Array(element: Type, size: nat)
    | Vector(element: Type, size: nat)
    | Matrix(element: Type, rows: nat, columns: nat)
    | Complex(element: Type)
    | ExtInt(bits: nat)
    | InvalidTag
    | Record(width: nat, align: nat)
    | Enum(integer: Type, attrAlign: nat)
    | Typedef(underlying: Type, attrAlign: nat)
    | Sugar(inner: Type)
    | Atomic(value: Type)

  datatype TypeInfo = TypeInfo(width: nat, align: nat)

  function AlignTo(n: nat, align: nat): nat {
    if align == 0 then n else (n + align - 1) / align * align
  }

  /** A vector of 2 to the power 26 elements of 64 bits, and one of no elements, are given alignment 0. */
  lemma WideAndEmptyVectors(tgt: Target, element: Type)
    requires ValidTarget(tgt) && element == Basic(64, 64)
    ensures GetTypeInfo(tgt, Vector(element, 0x400_0000)).align == 0 && GetTypeInfo(tgt, Vector(element, 0)).align == 0
    ensures !IsPow2(0)
  {
    assert GetTypeInfo(tgt, element).width * 0x400_0000 % UINT == 0;
  }

  /** The width rounded up to a power of two, as far as it fits 32 bits. */
  function Rounded(a: nat): nat {
    if a > 0 && And(a, a - 1) != 0 then NextPowerOf2(a) % UINT else a
  }

  /** The alignment of a vector is its width, as a 32-bit number, rounded up to a power of two. */
  function VectorInfo(tgt: Target, width: nat): TypeInfo {
    var a, b := width % UINT, Rounded(width % UINT);
    TypeInfo(if b != a then AlignTo(width, b) else width,
             if tgt.maxVectorAlign > 0 && tgt.maxVectorAlign < b then tgt.maxVectorAlign else b)
  }

  function ExtIntAlign(tgt: Target, bits: nat): nat {
    var a := if PowerOf2Ceil(bits) < 8 then 8 else PowerOf2Ceil(bits);
    if a % UINT < tgt.longLongAlign then a % UINT else tgt.longLongAlign
  }

  function GetTypeInfo(tgt: Target, t: Type): TypeInfo {
    match t
    case Function => TypeInfo(0, 32)
    case Basic(width, align) => TypeInfo(width, align)
    case Array(element, size) =>
      var info := GetTypeInfo(tgt, element);
      TypeInfo(if tgt.roundsArrays then AlignTo(info.width * size, info.align) else info.width * size, info.align)
    case Vector(element, size) => VectorInfo(tgt, GetTypeInfo(tgt, element).width * size)
    case Matrix(element, rows, columns) =>
      var info := GetTypeInfo(tgt, element);
      TypeInfo(info.width * rows * columns, info.align)
    case Complex(element) =>
      var info := GetTypeInfo(tgt, element);
      TypeInfo(info.width * 2, info.align)
    case ExtInt(bits) => TypeInfo(AlignTo(bits, ExtIntAlign(tgt, bits)), ExtIntAlign(tgt, bits))
    case InvalidTag => TypeInfo(8, 8)
    case Record(width, align) => TypeInfo(width, align)
    case Enum(integer, attrAlign) =>
      var info := GetTypeInfo(tgt, integer);
      if attrAlign != 0 then info.(align := attrAlign) else info
    case Typedef(underlying, attrAlign) =>
      var info := GetTypeInfo(tgt, underlying);
      if attrAlign != 0 then info.(align := attrAlign) else info
    case Sugar(inner) => GetTypeInfo(tgt, inner)
    case Atomic(value) =>
      var info := GetTypeInfo(tgt, value);
      if info.width == 0 then TypeInfo(8, info.align)
      else if info.width <= tgt.maxAtomicPromoteWidth then
        var width := if And(info.width, info.width - 1) != 0 then NextPowerOf2(info.width) else info.width;
        TypeInfo(width, width % UINT)
      else info
  }

  /** Targets and attributes give powers of two that fit their fields; atomic types are promoted up to a width
      that does too. */
  ghost predicate ValidTarget(tgt: Target) {
    && (tgt.maxVectorAlign == 0 || IsPow2(tgt.maxVectorAlign))
    && IsPow2(tgt.longLongAlign)
    && tgt.maxAtomicPromoteWidth <= Pow2(30)
  }

  ghost predicate ValidType(t: Type) {
    match t
    case Function => true
    case Basic(_, align) => IsPow2(align)
    case Array(element, _) => ValidType(element)
    case Vector(element, _) => ValidType(element)
    case Matrix(element, _, _) => ValidType(element)
    case Complex(element) => ValidType(element)
    case ExtInt(bits) => 0 < bits <= Pow2(30)
    case InvalidTag => true
    case Record(_, align) => IsPow2(align)
    case Enum(integer, attrAlign) => ValidType(integer) && (attrAlign == 0 || IsPow2(attrAlign))
    case Typedef(underlying, attrAlign) => ValidType(underlying) && (attrAlign == 0 || IsPow2(attrAlign))
    case Sugar(inner) => ValidType(inner)
    case Atomic(value) => ValidType(value)
  }

  /** The vector that the alignment of `t` comes from, if it comes from one, has a width whose low 32 bits are
      not all zero and do not exceed 2 to the power 31. */
  predicate VectorsFit(tgt: Target, t: Type) {
    match t
    case Array(element, _) => VectorsFit(tgt, element)
    case Vector(element, size) => 0 < GetTypeInfo(tgt, element).width * size % UINT <= 0x8000_0000
    case Matrix(element, _, _) => VectorsFit(tgt, element)
    case Complex(element) => VectorsFit(tgt, element)
    case Enum(integer, attrAlign) => attrAlign != 0 || VectorsFit(tgt, integer)
    case Typedef(underlying, attrAlign) => attrAlign != 0 || VectorsFit(tgt, underlying)
    case Sugar(inner) => VectorsFit(tgt, inner)
    case Atomic(value) => 0 < GetTypeInfo(tgt, value).width <= tgt.maxAtomicPromoteWidth || VectorsFit(tgt, value)
    case _ => true
  }

  /** The alignment of a type is a power of two, unless it comes from a vector of no width or of one that does
      not fit an unsigned int; then it is not. */
  lemma {:induction false} AlignIsPow2ExactlyWhen(tgt: Target, t: Type)
    requires ValidTarget(tgt) && ValidType(t)
    ensures IsPow2(GetTypeInfo(tgt, t).align) <==> VectorsFit(tgt, t)
    decreases t
  {
    match t {
      case Function => assert Pow2(5) == 32;
      case InvalidTag => assert Pow2(3) == 8;
      case Array(element, _) => AlignIsPow2ExactlyWhen(tgt, element);
      case Vector(element, size) => VectorAlign(tgt, GetTypeInfo(tgt, element).width * size);
      case Matrix(element, _, _) => AlignIsPow2ExactlyWhen(tgt, element);
      case Complex(element) => AlignIsPow2ExactlyWhen(tgt, element);
      case ExtInt(bits) => ExtIntAlignIsPow2(tgt, bits);
      case Enum(integer, _) => AlignIsPow2ExactlyWhen(tgt, integer);
      case Typedef(underlying, _) => AlignIsPow2ExactlyWhen(tgt, underlying);
      case Sugar(inner) => AlignIsPow2ExactlyWhen(tgt, inner);
      case Atomic(value) =>
        AlignIsPow2ExactlyWhen(tgt, value);
        var width := GetTypeInfo(tgt, value).width;
        if 0 < width <= tgt.maxAtomicPromoteWidth {
          PromotedIsPow2(width);
        }
      case _ =>
    }
  }

  /** No width is rounded up to a multiple of zero on the way; the program would divide by zero. */
  predicate Defined(tgt: Target, t: Type) {
    match t
    case Array(element, _) => Defined(tgt, element) && (tgt.roundsArrays ==> GetTypeInfo(tgt, element).align != 0)
    case Vector(element, size) =>
      var a := GetTypeInfo(tgt, element).width * size % UINT;
      Defined(tgt, element) && (Rounded(a) != a ==> Rounded(a) != 0)
    case Matrix(element, _, _) => Defined(tgt, element)
    case Complex(element) => Defined(tgt, element)
    case ExtInt(bits) => ExtIntAlign(tgt, bits) != 0
    case Enum(integer, _) => Defined(tgt, integer)
    case Typedef(underlying, _) => Defined(tgt, underlying)
    case Sugar(inner) => Defined(tgt, inner)
    case Atomic(value) => Defined(tgt, value)
    case _ => true
  }

  /** No vector is wider than 2 to the power 31 modulo 2 to the power 32, and no array whose width is rounded up has
      elements whose alignment comes from a vector that does not fit. */
  predicate FitsOnTheWay(tgt: Target, t: Type) {
    match t
    case Array(element, _) => FitsOnTheWay(tgt, element) && (tgt.roundsArrays ==> VectorsFit(tgt, element))
    case Vector(element, size) => FitsOnTheWay(tgt, element) &&
                                  GetTypeInfo(tgt, element).width * size % UINT <= 0x8000_0000
    case Matrix(element, _, _) => FitsOnTheWay(tgt, element)
    case Complex(element) => FitsOnTheWay(tgt, element)
    case Enum(integer, _) => FitsOnTheWay(tgt, integer)
    case Typedef(underlying, _) => FitsOnTheWay(tgt, underlying)
    case Sugar(inner) => FitsOnTheWay(tgt, inner)
    case Atomic(value) => FitsOnTheWay(tgt, value)
    case _ => true
  }

  /** The program does not divide by zero exactly when that is so. */
  lemma {:induction false} DefinedExactlyWhen(tgt: Target, t: Type)
    requires ValidTarget(tgt) && ValidType(t)
    ensures Defined(tgt, t) <==> FitsOnTheWay(tgt, t)
    decreases t
  {
    match t {
      case Array(element, _) =>
        DefinedExactlyWhen(tgt, element);
        AlignIsPow2ExactlyWhen(tgt, element);
        AlignIsPow2OrZero(tgt, element);
      case Vector(element, size) =>
        DefinedExactlyWhen(tgt, element);
        RoundedAlign(GetTypeInfo(tgt, element).width * size % UINT);
      case Matrix(element, _, _) => DefinedExactlyWhen(tgt, element);
      case Complex(element) => DefinedExactlyWhen(tgt, element);
      case ExtInt(bits) => ExtIntAlignIsPow2(tgt, bits);
      case Enum(integer, _) => DefinedExactlyWhen(tgt, integer);
      case Typedef(underlying, _) => DefinedExactlyWhen(tgt, underlying);
      case Sugar(inner) => DefinedExactlyWhen(tgt, inner);
      case Atomic(value) => DefinedExactlyWhen(tgt, value);
      case _ =>
    }
  }

  /** A vector of 2^25 + 1 elements of 64 bits has its width rounded up to a multiple of zero, and so has an array
      of vectors of 2^26 elements. */
  lemma VectorsThatDivideByZero(tgt: Target, element: Type)
    requires ValidTarget(tgt) && element == Basic(64, 64)
    ensures !Defined(tgt, Vector(element, 0x200_0001))
    ensures tgt.roundsArrays ==> !Defined(tgt, Array(Vector(element, 0x400_0000), 1))
  {
    var wide := Vector(element, 0x200_0001);
    assert IsPow2(64) by {
      assert Pow2(6) == 64;
    }
    assert GetTypeInfo(tgt, element).width * 0x200_0001 % UINT == 0x8000_0040;
    DefinedExactlyWhen(tgt, wide);
    WideAndEmptyVectors(tgt, element);
  }

  /** The least multiple of `align` that is not below `n`. */
  ghost predicate RoundedUp(w: nat, n: int, align: nat) {
    Divides(align, w) && n <= w < n + align
  }

  lemma AlignToRoundsUp(n: nat, align: nat)
    requires align > 0
    ensures RoundedUp(AlignTo(n, align), n, align)
  {
    var q, r := (n + align - 1) / align, (n + align - 1) % align;
    assert n + align - 1 == align * q + r;
    assert AlignTo(n, align) == align * q;
  }

  /** An array is aligned as its elements and as wide as they are together, rounded up to a multiple of the
      alignment where the target rounds. */
  lemma ArrayWidth(tgt: Target, element: Type, size: nat)
    ensures var e, whole := GetTypeInfo(tgt, element), GetTypeInfo(tgt, Array(element, size));
      && whole.align == e.align
      && if tgt.roundsArrays && e.align > 0 then RoundedUp(whole.width, e.width * size, e.align)
         else whole.width == e.width * size
  {
    var e := GetTypeInfo(tgt, element);
    var n := e.width * size;
    if e.align > 0 {
      AlignToRoundsUp(n, e.align);
    }
    assert GetTypeInfo(tgt, Array(element, size)) ==
           TypeInfo(if tgt.roundsArrays then AlignTo(n, e.align) else n, e.align);
  }

  /** Matrices and complex types are just that wide, and a vector is before it is rounded. */
  lemma MatrixWidth(tgt: Target, element: Type, size: nat, rows: nat, columns: nat)
    ensures var e, matrix := GetTypeInfo(tgt, element), GetTypeInfo(tgt, Matrix(element, rows, columns));
      matrix.align == e.align && matrix.width == e.width * rows * columns
    ensures var e, complex := GetTypeInfo(tgt, element), GetTypeInfo(tgt, Complex(element));
      complex.align == e.align && complex.width == e.width + e.width
    ensures GetTypeInfo(tgt, Vector(element, size)) == VectorInfo(tgt, GetTypeInfo(tgt, element).width * size)
  {
  }

  /** The width of a vector, if it fits 32 bits up to 2 to the power 31, is rounded up to the next power of two; that
      is also the alignment if the target allows it. */
  lemma VectorWidth(tgt: Target, width: nat, k: nat)
    requires width <= Pow2(k) && k <= 31 && if k == 0 then width == 1 else Pow2(k - 1) < width
    ensures VectorInfo(tgt, width).width == Pow2(k)
    ensures VectorInfo(tgt, width).align == if 0 < tgt.maxVectorAlign < Pow2(k) then tgt.maxVectorAlign else Pow2(k)
  {
    PowersNearUInt();
    PowersOrdered(k, 31);
    SmallModulo(width, UINT);
    RoundedIs(width, k);
    if width != Pow2(k) {
      AlignToRoundsUp(width, Pow2(k));
      OnlyMultiple(AlignTo(width, Pow2(k)), width, Pow2(k));
    }
  }

  lemma RoundedIs(width: nat, k: nat)
    requires width <= Pow2(k) <= 0x8000_0000 && if k == 0 then width == 1 else Pow2(k - 1) < width
    ensures Rounded(width) == Pow2(k)
  {
    AndPredecessor(width);
    if width < Pow2(k) {
      NotPow2Between(width, k);
      var m := NextIsPow2(width, 0);
      PowersOrdered(m, k);
      PowersOrdered(k, m);
      PowersOrdered(m, k - 1);
      if m > 0 {
        PowersOrdered(k, m - 1);
      }
      SmallModulo(Pow2(k), UINT);
    }
  }

  /** An integer of `bits` bits is aligned to the next power of two between the width of a character and the
      alignment of the widest integers, and as wide as the next multiple of that. */
  lemma ExtIntWidth(tgt: Target, bits: nat, k: nat)
    requires ValidTarget(tgt) && bits <= Pow2(k) && k <= 30 && if k == 0 then bits == 1 else Pow2(k - 1) < bits
    ensures var info := GetTypeInfo(tgt, ExtInt(bits));
      && info.align == Min(tgt.longLongAlign, if Pow2(k) < 8 then 8 else Pow2(k))
      && RoundedUp(info.width, bits, info.align)
  {
    PowersNearUInt();
    PowersOrdered(k, 30);
    CeilIs(bits, k);
    SmallModulo(if Pow2(k) < 8 then 8 else Pow2(k), UINT);
    AlignToRoundsUp(bits, ExtIntAlign(tgt, bits));
  }

  lemma CeilIs(bits: nat, k: nat)
    requires bits <= Pow2(k) && if k == 0 then bits == 1 else Pow2(k - 1) < bits
    ensures PowerOf2Ceil(bits) == Pow2(k)
  {
    var m := NextIsPow2(bits - 1, 0);
    PowersOrdered(m, k);
    PowersOrdered(k, m);
    if k > 0 {
      PowersOrdered(m, k - 1);
    }
    if m > 0 {
      PowersOrdered(k, m - 1);
    }
  }

  function Min(a: nat, b: nat): nat {
    if a < b then a else b
  }

  /** An atomic type is as wide as the next power of two and aligned to that, if its value is not too wide for the
      target to promote it. */
  lemma AtomicWidth(tgt: Target, value: Type, k: nat)
    requires ValidTarget(tgt)
    ensures var w, info := GetTypeInfo(tgt, value).width, GetTypeInfo(tgt, Atomic(value));
      && (w == 0 ==> info == TypeInfo(8, GetTypeInfo(tgt, value).align))
      && (w > tgt.maxAtomicPromoteWidth ==> info == GetTypeInfo(tgt, value))
      && (w <= tgt.maxAtomicPromoteWidth && w <= Pow2(k) && (if k == 0 then w == 1 else Pow2(k - 1) < w) ==>
            info == TypeInfo(Pow2(k), Pow2(k)))
  {
    var w := GetTypeInfo(tgt, value).width;
    if w <= tgt.maxAtomicPromoteWidth && w <= Pow2(k) && if k == 0 then w == 1 else Pow2(k - 1) < w {
      PowersNearUInt();
      if k > 0 {
        PowersOrdered(30, k - 1);
      }
      PowersOrdered(k, 30);
      RoundedIs(w, k);
      PromotedIsPow2(w);
      SmallModulo(w, UINT);
    }
  }

  lemma NotPow2Between(w: nat, k: nat)
    requires k > 0 && Pow2(k - 1) < w < Pow2(k)
    ensures !IsPow2(w)
  {
    forall i: nat
      ensures w != Pow2(i)
    {
      PowersOrdered(i, k - 1);
      PowersOrdered(k, i);
    }
  }

  lemma OnlyMultiple(w: nat, n: nat, align: nat)
    requires RoundedUp(w, n, align) && 0 < n <= align
    ensures w == align
  {
    var m: nat :| w == align * m;
    ProductGrows(align, m);
  }

  lemma ProductGrows(a: nat, m: nat)
    ensures m >= 2 ==> a * m >= a + a
  {
    if m >= 2 {
      assert a * m == a * (m - 2) + a + a;
    }
  }

  /** An alignment that is no power of two is zero. */
  lemma {:induction false} AlignIsPow2OrZero(tgt: Target, t: Type)
    requires ValidTarget(tgt) && ValidType(t)
    ensures GetTypeInfo(tgt, t).align == 0 || IsPow2(GetTypeInfo(tgt, t).align)
    ensures !IsPow2(0)
    decreases t
  {
    match t {
      case Array(element, _) => AlignIsPow2OrZero(tgt, element);
      case Vector(element, size) => RoundedAlign(GetTypeInfo(tgt, element).width * size % UINT);
      case Matrix(element, _, _) => AlignIsPow2OrZero(tgt, element);
      case Complex(element) => AlignIsPow2OrZero(tgt, element);
      case Enum(integer, _) => AlignIsPow2OrZero(tgt, integer);
      case Typedef(underlying, _) => AlignIsPow2OrZero(tgt, underlying);
      case Sugar(inner) => AlignIsPow2OrZero(tgt, inner);
      case Atomic(value) =>
        AlignIsPow2OrZero(tgt, value);
        AtomicAlign(tgt, value);
      case _ => AlignIsPow2ExactlyWhen(tgt, t);
    }
  }

  lemma AtomicAlign(tgt: Target, value: Type)
    requires ValidTarget(tgt)
    ensures var align := GetTypeInfo(tgt, Atomic(value)).align;
      align == GetTypeInfo(tgt, value).align || IsPow2(align)
  {
    var width := GetTypeInfo(tgt, value).width;
    if 0 < width <= tgt.maxAtomicPromoteWidth {
      PromotedIsPow2(width);
    }
  }

  lemma PromotedIsPow2(width: nat)
    requires 0 < width <= Pow2(30)
    ensures var w := if And(width, width - 1) != 0 then NextPowerOf2(width) else width; IsPow2(w) && w % UINT == w
  {
    AndPredecessor(width);
    var m := NextIsPow2(width, 0);
    PowersNearUInt();
  }

  lemma ExtIntAlignIsPow2(tgt: Target, bits: nat)
    requires ValidTarget(tgt) && 0 < bits <= Pow2(30)
    ensures IsPow2(ExtIntAlign(tgt, bits))
  {
    PowersNearUInt();
    var m := NextIsPow2(bits - 1, 0);
    assert Pow2(3) == 8;
    var a := if Pow2(m) < 8 then 8 else Pow2(m);
    assert IsPow2(a) && a < UINT;
    SmallModulo(a, UINT);
  }

  lemma VectorAlign(tgt: Target, width: nat)
    requires ValidTarget(tgt)
    ensures IsPow2(VectorInfo(tgt, width).align) <==> 0 < width % UINT <= 0x8000_0000
  {
    RoundedAlign(width % UINT);
  }

  lemma RoundedAlign(a: nat)
    requires a < UINT
    ensures if 0 < a <= 0x8000_0000 then IsPow2(Rounded(a)) else Rounded(a) == 0
  {
    if a > 0 {
      AndPredecessor(a);
      RoundsWithin(a);
    }
  }

  /** Rounding up stays within 32 bits exactly up to 2 to the power 31; beyond that nothing is left. */
  lemma RoundsWithin(a: nat)
    requires 0 < a < UINT
    ensures IsPow2(NextPowerOf2(a))
    ensures !IsPow2(a) ==> if a <= 0x8000_0000 then NextPowerOf2(a) <= 0x8000_0000 else NextPowerOf2(a) == UINT
    ensures IsPow2(a) ==> a <= 0x8000_0000
  {
    PowersNearUInt();
    var m := NextIsPow2(a, 0);
    PowersOrdered(m, 31);
    PowersOrdered(m, 32);
    if m > 0 {
      PowersOrdered(31, m - 1);
      PowersOrdered(32, m - 1);
    }
    forall i: nat | a == Pow2(i)
      ensures a <= 0x8000_0000
    {
      PowersOrdered(i, 31);
      PowersOrdered(32, i);
    }
  }
}
