/// The strings that describe the types of builtin functions, and how they are decoded.

module BuiltinDescriptor {
  import opened Prelude
  import opened Decimals

  datatype VectorKind = Scalable | Generic | ExtVector

  datatype Type =
    | BFloat16 | Void | Half | Float | Double | LongDouble | Float128
    | Short(unsigned: bool)
    | Integer(unsigned: bool, howLong: nat)
    | Char | SignedChar | UnsignedChar | Bool
    | Size | WideChar | CFString | VaList | PtrDiff | File | JmpBuf | SigJmpBuf | UContext | ProcessId
    | Decayed(from: Type)
    | Vector(kind: VectorKind, element: Type, size: nat)
    | Complex(element: Type)
    | InAddressSpace(to: Type, space: nat)
    | Pointer(to: Type)
    | LValueReference(to: Type)
    | Const(of: Type) | Volatile(of: Type) | Restrict(of: Type)

  datatype Error = MissingType | MissingStdio | MissingSetjmp | MissingUContext

  /** What depends on the target and on the headers seen so far. `int32HowLong` and `int64HowLong` say which
      of int, long and long long is that wide. */
  datatype Target = Target(
    longIs32: bool, int32HowLong: nat, int64HowLong: nat,
    vaListIsArray: bool, jmpBufIsArray: bool,
    hasFile: bool, hasJmpBuf: bool, hasSigJmpBuf: bool, hasUContext: bool)

  // ---------- Letters ----------

  predicate IsPrefixLetter(c: char) {
    c == 'I' || c == 'S' || c == 'U' || c == 'L' || c == 'N' || c == 'W' || c == 'Z' || c == 'O'
  }

  /** Letters that are base types by themselves. */
  predicate IsTypeLetter(c: char) {
    || c == 'y' || c == 'v' || c == 'h' || c == 'f' || c == 'd' || c == 's' || c == 'i' || c == 'c' || c == 'b'
    || c == 'z' || c == 'w' || c == 'F' || c == 'a' || c == 'A' || c == 'Y' || c == 'P' || c == 'J' || c == 'K'
    || c == 'p'
  }

  predicate IsVectorLetter(c: char) {
    c == 'q' || c == 'V' || c == 'E'
  }

  function KindOf(c: char): VectorKind
    requires IsVectorLetter(c)
  {
    if c == 'q' then Scalable else if c == 'V' then Generic else ExtVector
  }

  // ---------- Numbers, as strtoul reads them ----------

  /** The digits at the beginning of `s`, and what follows them. */
  function TakeDigits(s: string): (r: (string, string))
    ensures AllDigits(r.0) && |r.0| + |r.1| == |s|
  {
    if s != "" && IsDigit(s[0]) then
      var r := TakeDigits(s[1..]);
      ([s[0]] + r.0, r.1)
    else ("", s)
  }

  const ULONG: nat := 0x1_0000_0000_0000_0000
  predicate IsSpace(c: char) {
    c == ' ' || '\t' <= c <= '\r'
  }

  /** An unsigned int read from digits: too large a number is clamped to the unsigned long, a negative one
      wraps around in it, and then the low bits are kept. */
  function FromDigits(digits: string, negative: bool): nat
    requires AllDigits(digits)
  {
    var n := Value(digits);
    (if n >= ULONG then ULONG - 1 else if negative then (ULONG - n) % ULONG else n) % UINT
  }

  /** The number at the beginning of `s` and what follows it; spaces and a sign may come first. */
  function Strtoul(s: string): (r: Option<(nat, string)>)
    ensures r.Some? ==> |r.value.1| < |s|
  {
    if s == "" then None
    else if IsSpace(s[0]) then Strtoul(s[1..])
    else
      var signed := s[0] == '+' || s[0] == '-';
      var (digits, rest) := TakeDigits(if signed then s[1..] else s);
      if digits == "" then None else Some((FromDigits(digits, s[0] == '-'), rest))
  }

  // ---------- The decoder ----------

  /** What the prefixed modifiers have said so far. */
  datatype Prefix = Prefix(ice: bool, isSigned: bool, isUnsigned: bool, howLong: nat, special: bool)

  const START: Prefix := Prefix(false, false, false, 0, false)

  /** One prefixed modifier; none if it contradicts those before it. */
  function ReadPrefix(tgt: Target, p: Prefix, c: char): Option<Prefix>
    requires IsPrefixLetter(c)
  {
    if c == 'I' then Some(p.(ice := true))
    else if c == 'S' then if p.isSigned || p.isUnsigned then None else Some(p.(isSigned := true))
    else if c == 'U' then if p.isSigned || p.isUnsigned then None else Some(p.(isUnsigned := true))
    else if c == 'L' then if p.special || p.howLong > 2 then None else Some(p.(howLong := p.howLong + 1))
    else if p.special || p.howLong != 0 then None
    else if c == 'N' then Some(p.(special := true, howLong := if tgt.longIs32 then 1 else 0))
    else if c == 'W' then Some(p.(special := true, howLong := tgt.int64HowLong))
    else if c == 'Z' then Some(p.(special := true, howLong := tgt.int32HowLong))
    else Some(p.(special := true, howLong := 2))
  }

  function ReadPrefixes(tgt: Target, s: string, p: Prefix): (r: Option<(Prefix, string)>)
    ensures r.Some? ==> |r.value.1| <= |s|
  {
    if s != "" && IsPrefixLetter(s[0]) then
      var q := ReadPrefix(tgt, p, s[0]);
      if q.None? then None else ReadPrefixes(tgt, s[1..], q.value)
    else Some((p, s))
  }

  datatype Meaning = Means(ty: Type, ice: bool) | Missing(error: Error) | Malformed

  predicate Plain(p: Prefix) {
    p.howLong == 0 && !p.isSigned && !p.isUnsigned
  }

  function LetterType(tgt: Target, p: Prefix, c: char): Option<Type>
    requires IsTypeLetter(c)
  {
    if c == 'y' then if Plain(p) then Some(BFloat16) else None
    else if c == 'v' then if Plain(p) then Some(Void) else None
    else if c == 'h' then if Plain(p) then Some(Half) else None
    else if c == 'f' then if Plain(p) then Some(Float) else None
    else if c == 'd' then
      if p.howLong >= 3 || p.isSigned || p.isUnsigned then None
      else Some(if p.howLong == 1 then LongDouble else if p.howLong == 2 then Float128 else Double)
    else if c == 's' then if p.howLong == 0 then Some(Short(p.isUnsigned)) else None
    else if c == 'i' then Some(Integer(p.isUnsigned, if p.howLong <= 3 then p.howLong else 0))
    else if c == 'c' then
      if p.howLong != 0 then None
      else Some(if p.isSigned then SignedChar else if p.isUnsigned then UnsignedChar else Char)
    else if c == 'b' then if Plain(p) then Some(Bool) else None
    else if c == 'z' then if Plain(p) then Some(Size) else None
    else if c == 'w' then if Plain(p) then Some(WideChar) else None
    else if c == 'F' then Some(CFString)
    else if c == 'a' then Some(VaList)
    else if c == 'A' then Some(if tgt.vaListIsArray then Decayed(VaList) else LValueReference(VaList))
    else if c == 'Y' then Some(PtrDiff)
    else if c == 'P' then Some(File)
    else if c == 'J' then Some(if p.isSigned then SigJmpBuf else JmpBuf)
    else if c == 'K' then if Plain(p) then Some(UContext) else None
    else Some(ProcessId)
  }

  /** The base type of a letter, unless the header that declares it was not seen. */
  function LetterMeaning(tgt: Target, p: Prefix, c: char): Meaning
    requires IsTypeLetter(c)
  {
    var ty := LetterType(tgt, p, c);
    if ty.None? then Malformed
    else if ty.value.File? && !tgt.hasFile then Missing(MissingStdio)
    else if ty.value.JmpBuf? && !tgt.hasJmpBuf then Missing(MissingSetjmp)
    else if ty.value.SigJmpBuf? && !tgt.hasSigJmpBuf then Missing(MissingSetjmp)
    else if ty.value.UContext? && !tgt.hasUContext then Missing(MissingUContext)
    else Means(ty.value, p.ice)
  }

  predicate IsIntegral(ty: Type) {
    match ty
    case Short(_) => true
    case Integer(_, _) => true
    case Char => true
    case SignedChar => true
    case UnsignedChar => true
    case Bool => true
    case Size => true
    case WideChar => true
    case PtrDiff => true
    case ProcessId => true
    case Const(of) => IsIntegral(of)
    case Volatile(of) => IsIntegral(of)
    case Restrict(of) => IsIntegral(of)
    case _ => false
  }

  /** An integer constant expression can only be asked for where the type is an integer. */
  function Checked(m: Meaning): Meaning {
    if m.Means? && m.ice && !IsIntegral(m.ty) then Malformed else m
  }

  /** A vector of elements: those of an extended vector may pass on their demand for a constant. */
  function VectorMeaning(kind: VectorKind, element: Meaning, size: nat): Meaning {
    if !element.Means? then element
    else if element.ice && kind != ExtVector then Malformed
    else Means(Vector(kind, element.ty, size), element.ice)
  }

  function ComplexMeaning(element: Meaning): Meaning {
    if !element.Means? then element else if element.ice then Malformed else Means(Complex(element.ty), false)
  }

  predicate IsSuffixLetter(c: char) {
    c == '*' || c == '&' || c == 'C' || c == 'D' || c == 'R'
  }

  /** One suffixed modifier; a pointer or reference may be followed by an address space. */
  function ReadSuffix(s: string, ty: Type): (r: (Type, string))
    requires s != "" && IsSuffixLetter(s[0])
    ensures |r.1| < |s|
  {
    if s[0] == 'C' then (Const(ty), s[1..])
    else if s[0] == 'D' then (Volatile(ty), s[1..])
    else if s[0] == 'R' then (Restrict(ty), s[1..])
    else
      var space := Strtoul(s[1..]);
      var to := if space.Some? then InAddressSpace(ty, space.value.0) else ty;
      (if s[0] == '*' then Pointer(to) else LValueReference(to), if space.Some? then space.value.1 else s[1..])
  }

  function ReadSuffixes(s: string, ty: Type): (r: (Type, string))
    ensures |r.1| <= |s|
    decreases |s|
  {
    if s != "" && IsSuffixLetter(s[0]) then
      var r := ReadSuffix(s, ty);
      ReadSuffixes(r.1, r.0)
    else (ty, s)
  }

  /** A decoded descriptor and what follows it. */
  datatype Decoded = Decoded(meaning: Meaning, rest: string)

  function Finish(d: Decoded, allowModifiers: bool): (r: Decoded)
    ensures |r.rest| <= |d.rest|
  {
    if d.meaning.Means? && allowModifiers then
      var (ty, rest) := ReadSuffixes(d.rest, d.meaning.ty);
      Decoded(Checked(Means(ty, d.meaning.ice)), rest)
    else Decoded(Checked(d.meaning), d.rest)
  }

  /** Every call that decodes a type or misses a header advances. */
  function Decode(tgt: Target, s: string, allowModifiers: bool): (r: Decoded)
    ensures |r.rest| <= |s| && (!r.meaning.Malformed? ==> |r.rest| < |s|)
    decreases |s|
  {
    var read := ReadPrefixes(tgt, s, START);
    if read.None? || read.value.1 == "" then Decoded(Malformed, s)
    else
      var (p, t) := read.value;
      if IsVectorLetter(t[0]) then
        var size := Strtoul(t[1..]);
        if size.None? then Decoded(Malformed, s)
        else
          var e := Decode(tgt, size.value.1, false);
          Finish(Decoded(VectorMeaning(KindOf(t[0]), e.meaning, size.value.0), e.rest), allowModifiers)
      else if t[0] == 'X' then
        var e := Decode(tgt, t[1..], false);
        Finish(Decoded(ComplexMeaning(e.meaning), e.rest), allowModifiers)
      else if IsTypeLetter(t[0]) then
        Finish(Decoded(LetterMeaning(tgt, p, t[0]), t[1..]), allowModifiers)
      else Decoded(Malformed, s)
  }

  // ---------- Descriptors and how they are written ----------

  /** A type without suffixed modifiers: prefixed modifiers, in any order, and a base type. */
  datatype Element = Element(prefix: string, base: Base)

  datatype Base =
    | Letter(letter: char)
    | VectorOf(kind: VectorKind, size: nat, element: Element)
    | ComplexOf(element: Element)

  /** Pointers and references may name an address space. */
  datatype Suffix = PointerTo(space: Option<nat>) | ReferenceTo(space: Option<nat>) | ConstOf | VolatileOf | RestrictOf

  datatype Descriptor = Descriptor(element: Element, suffixes: seq<Suffix>)

  ghost predicate ValidElement(e: Element) {
    && (forall k :: 0 <= k < |e.prefix| ==> IsPrefixLetter(e.prefix[k]))
    && match e.base
       case Letter(letter) => IsTypeLetter(letter)
       case VectorOf(_, size, element) => size < UINT && ValidElement(element)
       case ComplexOf(element) => ValidElement(element)
  }

  ghost predicate ValidSuffix(x: Suffix) {
    (x.PointerTo? || x.ReferenceTo?) && x.space.Some? ==> x.space.value < UINT
  }

  ghost predicate Valid(d: Descriptor) {
    ValidElement(d.element) && forall k :: 0 <= k < |d.suffixes| ==> ValidSuffix(d.suffixes[k])
  }

  function PrintElement(e: Element): string
    decreases e, 1
  {
    e.prefix + PrintBase(e.base)
  }

  function VectorLetter(kind: VectorKind): (c: char)
    ensures IsVectorLetter(c) && KindOf(c) == kind
  {
    if kind.Scalable? then 'q' else if kind.Generic? then 'V' else 'E'
  }

  function PrintBase(base: Base): (t: string)
    ensures t != ""
    decreases base, 0
  {
    match base
    case Letter(letter) => [letter]
    case VectorOf(kind, size, element) => [VectorLetter(kind)] + (Digits(size) + PrintElement(element))
    case ComplexOf(element) => ['X'] + PrintElement(element)
  }

  function SuffixLetter(x: Suffix): (c: char)
    ensures IsSuffixLetter(c)
  {
    match x
    case PointerTo(_) => '*'
    case ReferenceTo(_) => '&'
    case ConstOf => 'C'
    case VolatileOf => 'D'
    case RestrictOf => 'R'
  }

  function SpaceOf(x: Suffix): Option<nat> {
    if x.PointerTo? || x.ReferenceTo? then x.space else None
  }

  function PrintSpace(space: Option<nat>): string {
    if space.Some? then Digits(space.value) else ""
  }

  function PrintSuffix(x: Suffix): string {
    [SuffixLetter(x)] + PrintSpace(SpaceOf(x))
  }

  function PrintSuffixes(xs: seq<Suffix>): string {
    if xs == [] then "" else PrintSuffix(xs[0]) + PrintSuffixes(xs[1..])
  }

  function Print(d: Descriptor): string {
    PrintElement(d.element) + PrintSuffixes(d.suffixes)
  }

  // ---------- What descriptors mean ----------

  function Count(prefix: string, c: char): nat {
    if prefix == "" then 0 else Count(prefix[..|prefix| - 1], c) + if prefix[|prefix| - 1] == c then 1 else 0
  }

  function Specials(prefix: string): nat {
    Count(prefix, 'N') + Count(prefix, 'W') + Count(prefix, 'Z') + Count(prefix, 'O')
  }

  /** At most one of S and U, at most three L, and none beside N, W, Z or O, of which there is at most one. */
  predicate Consistent(prefix: string) {
    && Count(prefix, 'S') + Count(prefix, 'U') <= 1
    && Specials(prefix) <= 1
    && Count(prefix, 'L') <= if Specials(prefix) == 0 then 3 else 0
  }

  function HowLong(tgt: Target, prefix: string): nat {
    if Count(prefix, 'W') > 0 then tgt.int64HowLong
    else if Count(prefix, 'Z') > 0 then tgt.int32HowLong
    else if Count(prefix, 'O') > 0 then 2
    else if Count(prefix, 'N') > 0 then if tgt.longIs32 then 1 else 0
    else Count(prefix, 'L')
  }

  /** What prefixed modifiers say, whatever their order. */
  function PrefixMeaning(tgt: Target, prefix: string): Option<Prefix> {
    if !Consistent(prefix) then None
    else Some(Prefix(Count(prefix, 'I') > 0, Count(prefix, 'S') > 0, Count(prefix, 'U') > 0,
                     HowLong(tgt, prefix), Specials(prefix) > 0))
  }

  ghost function ElementMeaning(tgt: Target, e: Element): Meaning
    requires ValidElement(e)
    decreases e
  {
    var p := PrefixMeaning(tgt, e.prefix);
    if p.None? then Malformed
    else
      match e.base
      case Letter(letter) => LetterMeaning(tgt, p.value, letter)
      case VectorOf(kind, size, element) => VectorMeaning(kind, Checked(ElementMeaning(tgt, element)), size)
      case ComplexOf(element) => ComplexMeaning(Checked(ElementMeaning(tgt, element)))
  }

  function Modified(ty: Type, x: Suffix): Type {
    match x
    case PointerTo(space) => Pointer(if space.Some? then InAddressSpace(ty, space.value) else ty)
    case ReferenceTo(space) => LValueReference(if space.Some? then InAddressSpace(ty, space.value) else ty)
    case ConstOf => Const(ty)
    case VolatileOf => Volatile(ty)
    case RestrictOf => Restrict(ty)
  }

  function ModifiedAll(ty: Type, xs: seq<Suffix>): Type
    decreases |xs|
  {
    if xs == [] then ty else ModifiedAll(Modified(ty, xs[0]), xs[1..])
  }

  ghost function DescriptorMeaning(tgt: Target, d: Descriptor): Meaning
    requires Valid(d)
  {
    var m := ElementMeaning(tgt, d.element);
    Checked(if m.Means? then m.(ty := ModifiedAll(m.ty, d.suffixes)) else m)
  }

  // ---------- Decoding what was printed ----------

  lemma Cons(c: char, t: string, rest: string)
    ensures ([c] + t) + rest == [c] + (t + rest)
    ensures (([c] + t) + rest)[0] == c && (([c] + t) + rest)[1..] == t + rest
  {
  }

  /** No number begins `rest`. */
  ghost predicate NoNumber(rest: string) {
    rest != "" ==> !IsDigit(rest[0]) && !IsSpace(rest[0]) && rest[0] != '+' && rest[0] != '-'
  }

  lemma {:induction false} TakesDigits(digits: string, rest: string)
    requires AllDigits(digits) && (rest != "" ==> !IsDigit(rest[0]))
    ensures TakeDigits(digits + rest) == (digits, rest)
    decreases |digits|
  {
    if digits == "" {
      assert digits + rest == rest;
    } else {
      assert digits == [digits[0]] + digits[1..];
      Cons(digits[0], digits[1..], rest);
      TakesDigits(digits[1..], rest);
    }
  }

  lemma SmallNumber(n: nat)
    requires n < UINT
    ensures FromDigits(Digits(n), false) == n
  {
  }

  lemma ReadsNumber(n: nat, rest: string)
    requires n < UINT && (rest != "" ==> !IsDigit(rest[0]))
    ensures Strtoul(Digits(n) + rest) == Some((n, rest))
  {
    SmallNumber(n);
    ReadsDigits(Digits(n), rest);
  }

  lemma ReadsDigits(d: string, rest: string)
    requires d != "" && AllDigits(d) && (rest != "" ==> !IsDigit(rest[0]))
    ensures Strtoul(d + rest) == Some((FromDigits(d, false), rest))
  {
    TakesDigits(d, rest);
    assert (d + rest)[0] == d[0] && IsDigit(d[0]);
  }

  lemma {:induction false} CountWithin(prefix: string, k: nat, c: char)
    requires k <= |prefix|
    ensures Count(prefix[..k], c) <= Count(prefix, c)
    decreases |prefix|
  {
    if k < |prefix| {
      CountWithin(prefix[..|prefix| - 1], k, c);
      assert prefix[..|prefix| - 1][..k] == prefix[..k];
    } else {
      assert prefix[..k] == prefix;
    }
  }

  lemma InconsistentStays(prefix: string, k: nat)
    requires k <= |prefix| && Consistent(prefix)
    ensures Consistent(prefix[..k])
  {
    CountWithin(prefix, k, 'S');
    CountWithin(prefix, k, 'U');
    CountWithin(prefix, k, 'N');
    CountWithin(prefix, k, 'W');
    CountWithin(prefix, k, 'Z');
    CountWithin(prefix, k, 'O');
    CountWithin(prefix, k, 'L');
  }

  lemma CountOne(front: string, c: char, x: char)
    ensures Count(front + [c], x) == Count(front, x) + if c == x then 1 else 0
  {
    assert (front + [c])[..|front|] == front;
  }

  /** Reading one more modifier is counting one more. */
  lemma PrefixStep(tgt: Target, front: string, c: char)
    requires Consistent(front) && IsPrefixLetter(c)
    ensures PrefixMeaning(tgt, front + [c]) == ReadPrefix(tgt, PrefixMeaning(tgt, front).value, c)
  {
    CountOne(front, c, 'I');
    CountOne(front, c, 'S');
    CountOne(front, c, 'U');
    CountOne(front, c, 'L');
    CountOne(front, c, 'N');
    CountOne(front, c, 'W');
    CountOne(front, c, 'Z');
    CountOne(front, c, 'O');
  }

  lemma {:induction false} ReadsPrefixes(tgt: Target, prefix: string, rest: string, k: nat)
    requires k <= |prefix| && (forall j :: 0 <= j < |prefix| ==> IsPrefixLetter(prefix[j]))
    requires rest != "" && !IsPrefixLetter(rest[0]) && Consistent(prefix[..k])
    ensures ReadPrefixes(tgt, prefix[k..] + rest, PrefixMeaning(tgt, prefix[..k]).value) ==
            if Consistent(prefix) then Some((PrefixMeaning(tgt, prefix).value, rest)) else None
    decreases |prefix| - k
  {
    if k == |prefix| {
      assert prefix[..k] == prefix && prefix[k..] + rest == rest;
    } else {
      assert prefix[k..] == [prefix[k]] + prefix[k + 1..];
      Cons(prefix[k], prefix[k + 1..], rest);
      PrefixStep(tgt, prefix[..k], prefix[k]);
      assert prefix[..k] + [prefix[k]] == prefix[..k + 1];
      if Consistent(prefix[..k + 1]) {
        ReadsPrefixes(tgt, prefix, rest, k + 1);
      } else if Consistent(prefix) {
        InconsistentStays(prefix, k + 1);
      }
    }
  }

  /** What follows a descriptor: the end, the beginning of another one, or the final dot. */
  ghost predicate Boundary(rest: string) {
    rest != "" ==>
      var c := rest[0];
      IsPrefixLetter(c) || IsTypeLetter(c) || IsVectorLetter(c) || c == 'X' || c == '.'
  }

  lemma ReadsSuffix(x: Suffix, rest: string, ty: Type)
    requires ValidSuffix(x) && NoNumber(rest)
    ensures var s := PrintSuffix(x) + rest;
      s != "" && s[0] == SuffixLetter(x) && ReadSuffix(s, ty) == (Modified(ty, x), rest)
  {
    var space := PrintSpace(SpaceOf(x));
    Cons(SuffixLetter(x), space, rest);
    if SpaceOf(x).Some? {
      ReadsNumber(SpaceOf(x).value, rest);
    } else {
      assert space + rest == rest;
    }
  }

  /** What follows a suffix is not the beginning of a number. */
  lemma SuffixThenNoNumber(xs: seq<Suffix>, rest: string)
    requires Boundary(rest)
    ensures NoNumber(PrintSuffixes(xs) + rest)
  {
    if xs == [] {
      assert PrintSuffixes(xs) + rest == rest;
    } else {
      assert (PrintSuffixes(xs) + rest)[0] == SuffixLetter(xs[0]);
    }
  }

  lemma {:induction false} ReadsSuffixes(xs: seq<Suffix>, rest: string, ty: Type)
    requires forall k :: 0 <= k < |xs| ==> ValidSuffix(xs[k])
    requires Boundary(rest)
    ensures ReadSuffixes(PrintSuffixes(xs) + rest, ty) == (ModifiedAll(ty, xs), rest)
    decreases |xs|
  {
    if xs == [] {
      assert PrintSuffixes(xs) + rest == rest;
    } else {
      var t := PrintSuffixes(xs[1..]) + rest;
      assert PrintSuffixes(xs) + rest == PrintSuffix(xs[0]) + t;
      SuffixThenNoNumber(xs[1..], rest);
      ReadsSuffix(xs[0], t, ty);
      ReadsSuffixes(xs[1..], rest, Modified(ty, xs[0]));
    }
  }

  /** Decoding `s` gives meaning `m` and, unless that is malformed, goes on to `rest` before the suffixed
      modifiers. */
  ghost predicate DecodesTo(tgt: Target, s: string, allowModifiers: bool, m: Meaning, rest: string) {
    if m.Malformed? then Decode(tgt, s, allowModifiers).meaning.Malformed?
    else Decode(tgt, s, allowModifiers) == Finish(Decoded(m, rest), allowModifiers)
  }

  lemma DecodesVector(tgt: Target, s: string, allowModifiers: bool, t: string, size: nat, u: string, m: Meaning,
                      rest: string)
    requires ReadPrefixes(tgt, s, START).Some? && ReadPrefixes(tgt, s, START).value.1 == t
    requires t != "" && IsVectorLetter(t[0]) && Strtoul(t[1..]) == Some((size, u))
    requires DecodesTo(tgt, u, false, m, rest)
    ensures DecodesTo(tgt, s, allowModifiers, VectorMeaning(KindOf(t[0]), Checked(m), size), rest)
  {
  }

  lemma DecodesComplex(tgt: Target, s: string, allowModifiers: bool, t: string, m: Meaning, rest: string)
    requires ReadPrefixes(tgt, s, START).Some? && ReadPrefixes(tgt, s, START).value.1 == t
    requires t != "" && t[0] == 'X' && DecodesTo(tgt, t[1..], false, m, rest)
    ensures DecodesTo(tgt, s, allowModifiers, ComplexMeaning(Checked(m)), rest)
  {
  }

  lemma DecodesLetter(tgt: Target, s: string, allowModifiers: bool, p: Prefix, t: string)
    requires ReadPrefixes(tgt, s, START) == Some((p, t)) && t != "" && IsTypeLetter(t[0])
    ensures DecodesTo(tgt, s, allowModifiers, LetterMeaning(tgt, p, t[0]), t[1..])
  {
  }

  lemma FirstOfBase(base: Base, rest: string)
    requires base.Letter? ==> IsTypeLetter(base.letter)
    ensures PrintBase(base) + rest != ""
    ensures var c := (PrintBase(base) + rest)[0];
      && c == PrintBase(base)[0] && !IsPrefixLetter(c) && !IsDigit(c) &&
         (IsTypeLetter(c) || IsVectorLetter(c) || c == 'X')
  {
  }

  lemma ReadsElementPrefix(tgt: Target, e: Element, rest: string)
    requires ValidElement(e)
    ensures ReadPrefixes(tgt, PrintElement(e) + rest, START) ==
            if Consistent(e.prefix) then Some((PrefixMeaning(tgt, e.prefix).value, PrintBase(e.base) + rest)) else None
  {
    FirstOfBase(e.base, rest);
    assert e.prefix[..0] == "" && e.prefix[0..] == e.prefix;
    assert PrintElement(e) + rest == e.prefix + (PrintBase(e.base) + rest);
    ReadsPrefixes(tgt, e.prefix, PrintBase(e.base) + rest, 0);
  }

  lemma FirstOfElement(e: Element, rest: string)
    requires ValidElement(e)
    ensures PrintElement(e) + rest != ""
    ensures var c := (PrintElement(e) + rest)[0];
      !IsDigit(c) && (IsPrefixLetter(c) || IsTypeLetter(c) || IsVectorLetter(c) || c == 'X')
  {
    if e.prefix == "" {
      assert PrintElement(e) == PrintBase(e.base);
      FirstOfBase(e.base, rest);
    } else {
      assert (PrintElement(e) + rest)[0] == e.prefix[0];
    }
  }

  /** Decoding reads an element exactly as it was printed, up to the suffixed modifiers. */
  lemma {:induction false} DecodesElement(tgt: Target, e: Element, rest: string, allowModifiers: bool, m: Meaning)
    requires ValidElement(e) && m == ElementMeaning(tgt, e)
    ensures DecodesTo(tgt, PrintElement(e) + rest, allowModifiers, m, rest)
    decreases e
  {
    var s, t := PrintElement(e) + rest, PrintBase(e.base) + rest;
    ReadsElementPrefix(tgt, e, rest);
    if !Consistent(e.prefix) {
      return;
    }
    match e.base {
      case Letter(letter) =>
        assert t[1..] == rest;
        DecodesLetter(tgt, s, allowModifiers, PrefixMeaning(tgt, e.prefix).value, t);
      case VectorOf(kind, size, element) =>
        var u := PrintElement(element) + rest;
        Cons(VectorLetter(kind), Digits(size) + PrintElement(element), rest);
        assert t[1..] == Digits(size) + u;
        FirstOfElement(element, rest);
        ReadsNumber(size, u);
        var inner := ElementMeaning(tgt, element);
        DecodesElement(tgt, element, rest, false, inner);
        DecodesVector(tgt, s, allowModifiers, t, size, u, inner, rest);
      case ComplexOf(element) =>
        Cons('X', PrintElement(element), rest);
        var inner := ElementMeaning(tgt, element);
        DecodesElement(tgt, element, rest, false, inner);
        DecodesComplex(tgt, s, allowModifiers, t, inner, rest);
    }
  }

  /** Decoding a printed descriptor that another one, a dot or the end follows gives what the descriptor
      means, and goes exactly to its end. */
  lemma DecodesPrinted(tgt: Target, d: Descriptor, rest: string)
    requires Valid(d) && Boundary(rest)
    ensures Decode(tgt, Print(d) + rest, true).meaning == DescriptorMeaning(tgt, d)
    ensures DescriptorMeaning(tgt, d).Means? ==> Decode(tgt, Print(d) + rest, true).rest == rest
  {
    var m := ElementMeaning(tgt, d.element);
    var t := PrintSuffixes(d.suffixes) + rest;
    assert Print(d) + rest == PrintElement(d.element) + t;
    DecodesElement(tgt, d.element, t, true, m);
    if m.Means? {
      ReadsSuffixes(d.suffixes, rest, m.ty);
    }
  }

  /** A vector or complex type never demands a constant: an I before it is lost, and one before the elements
      of an extended vector is refused. */
  lemma NoConstantVectors(tgt: Target, d: Descriptor)
    requires Valid(d) && !d.element.base.Letter? && DescriptorMeaning(tgt, d).Means?
    ensures !DescriptorMeaning(tgt, d).ice
  {
    var m := ElementMeaning(tgt, d.element);
    if m.ice {
      NotIntegral(m.ty, d.suffixes);
    }
  }

  lemma {:induction false} NotIntegral(ty: Type, xs: seq<Suffix>)
    requires !IsIntegral(ty)
    ensures !IsIntegral(ModifiedAll(ty, xs))
    decreases |xs|
  {
    if xs != [] {
      NotIntegral(Modified(ty, xs[0]), xs[1..]);
    }
  }

  // ---------- Whole signatures ----------

  predicate IsArray(tgt: Target, ty: Type) {
    match ty
    case VaList => tgt.vaListIsArray
    case JmpBuf => tgt.jmpBufIsArray
    case SigJmpBuf => tgt.jmpBufIsArray
    case Const(of) => IsArray(tgt, of)
    case Volatile(of) => IsArray(tgt, of)
    case Restrict(of) => IsArray(tgt, of)
    case _ => false
  }

  function ArgumentType(tgt: Target, ty: Type): Type {
    if IsArray(tgt, ty) then Decayed(ty) else ty
  }

  datatype Signature = Signature(result: Type, args: seq<Type>, constantArgs: set<nat>, variadic: bool)

  datatype Outcome = Success(signature: Signature) | Failed(error: Error) | Rejected

  function Failure(m: Meaning): Outcome
    requires !m.Means?
  {
    if m.Missing? then Failed(m.error) else Rejected
  }

  /** Decodes the remaining arguments. */
  function DecodeArgs(tgt: Target, s: string, result: Type, args: seq<Type>, constants: set<nat>): Outcome
    decreases |s|
  {
    if s == "" then Success(Signature(result, args, constants, false))
    else if s[0] == '.' then if |s| == 1 then Success(Signature(result, args, constants, true)) else Rejected
    else
      var d := Decode(tgt, s, true);
      if !d.meaning.Means? then Failure(d.meaning)
      else
        DecodeArgs(tgt, d.rest, result, args + [ArgumentType(tgt, d.meaning.ty)],
                   if d.meaning.ice then constants + {|args|} else constants)
  }

  function DecodeSignature(tgt: Target, s: string): Outcome {
    if s == "" then Failed(MissingType)
    else
      var d := Decode(tgt, s, true);
      if !d.meaning.Means? then Failure(d.meaning)
      else if d.meaning.ice then Rejected
      else DecodeArgs(tgt, d.rest, d.meaning.ty, [], {})
  }

  function PrintAll(ds: seq<Descriptor>, variadic: bool): string {
    if ds == [] then if variadic then "." else "" else Print(ds[0]) + PrintAll(ds[1..], variadic)
  }

  function PrintSignature(result: Descriptor, params: seq<Descriptor>, variadic: bool): string {
    Print(result) + PrintAll(params, variadic)
  }

  ghost predicate AllValid(ds: seq<Descriptor>) {
    forall k :: 0 <= k < |ds| ==> Valid(ds[k])
  }

  ghost function Meanings(tgt: Target, ds: seq<Descriptor>): seq<Meaning>
    requires AllValid(ds)
  {
    seq(|ds|, k requires 0 <= k < |ds| => DescriptorMeaning(tgt, ds[k]))
  }

  ghost predicate AllMean(ms: seq<Meaning>) {
    forall k :: 0 <= k < |ms| ==> ms[k].Means?
  }

  ghost function ArgumentTypes(tgt: Target, ms: seq<Meaning>): seq<Type>
    requires AllMean(ms)
  {
    seq(|ms|, k requires 0 <= k < |ms| => ArgumentType(tgt, ms[k].ty))
  }

  ghost function ConstantArguments(ms: seq<Meaning>): set<nat>
    requires AllMean(ms)
  {
    set k: nat | k < |ms| && ms[k].ice
  }

  ghost function FirstFailing(ms: seq<Meaning>): (k: nat)
    requires !AllMean(ms)
    ensures k < |ms| && !ms[k].Means?
    ensures forall j :: 0 <= j < k ==> ms[j].Means?
  {
    if !ms[0].Means? then 0 else 1 + FirstFailing(ms[1..])
  }

  /** What the arguments of a signature mean; if several of their types fail, the first one counts. */
  ghost function ArgumentsMeaning(tgt: Target, result: Type, ms: seq<Meaning>, variadic: bool): Outcome {
    if AllMean(ms) then Success(Signature(result, ArgumentTypes(tgt, ms), ConstantArguments(ms), variadic))
    else Failure(ms[FirstFailing(ms)])
  }

  ghost function SignatureMeaning(tgt: Target, result: Descriptor, params: seq<Descriptor>, variadic: bool): Outcome
    requires Valid(result) && AllValid(params)
  {
    var m := DescriptorMeaning(tgt, result);
    if !m.Means? then Failure(m)
    else if m.ice then Rejected
    else ArgumentsMeaning(tgt, m.ty, Meanings(tgt, params), variadic)
  }

  lemma FirstOfAll(ds: seq<Descriptor>, variadic: bool)
    requires AllValid(ds)
    ensures Boundary(PrintAll(ds, variadic))
    ensures ds != [] ==> PrintAll(ds, variadic) != "" && PrintAll(ds, variadic)[0] != '.'
  {
    if ds != [] {
      var t := PrintSuffixes(ds[0].suffixes) + PrintAll(ds[1..], variadic);
      assert PrintAll(ds, variadic) == PrintElement(ds[0].element) + t;
      FirstOfElement(ds[0].element, t);
    }
  }

  lemma DecodesOneArg(tgt: Target, s: string, d: Decoded, result: Type, args: seq<Type>, constants: set<nat>)
    requires s != "" && s[0] != '.' && d == Decode(tgt, s, true)
    ensures DecodeArgs(tgt, s, result, args, constants) ==
            var m := d.meaning;
            if !m.Means? then Failure(m)
            else DecodeArgs(tgt, d.rest, result, args + [ArgumentType(tgt, m.ty)],
                            if m.ice then constants + {|args|} else constants)
  {
  }

  /** Decoding one argument leaves the rest of the signature. */
  lemma DecodesNextArg(tgt: Target, params: seq<Descriptor>, m: Meaning, n: nat, variadic: bool,
                       result: Type, args: seq<Type>, constants: set<nat>)
    requires AllValid(params) && n < |params| && m == DescriptorMeaning(tgt, params[n])
    ensures DecodeArgs(tgt, PrintAll(params[n..], variadic), result, args, constants) ==
            if !m.Means? then Failure(m)
            else DecodeArgs(tgt, PrintAll(params[n + 1..], variadic), result, args + [ArgumentType(tgt, m.ty)],
                            if m.ice then constants + {|args|} else constants)
  {
    var rest := PrintAll(params[n + 1..], variadic);
    assert params[n..][0] == params[n] && params[n..][1..] == params[n + 1..];
    FirstOfAll(params[n..], variadic);
    FirstOfAll(params[n + 1..], variadic);
    DecodesPrinted(tgt, params[n], rest);
    DecodesOneArg(tgt, PrintAll(params[n..], variadic), Decode(tgt, Print(params[n]) + rest, true), result, args,
                  constants);
  }

  /** From the `n`th argument on, decoding finds the rest of the signature. */
  lemma {:induction false} DecodesArgs(tgt: Target, params: seq<Descriptor>, ms: seq<Meaning>, n: nat, variadic: bool,
                                       result: Type, args: seq<Type>, constants: set<nat>)
    requires AllValid(params) && ms == Meanings(tgt, params) && n <= |params| && AllMean(ms[..n])
    requires args == ArgumentTypes(tgt, ms[..n]) && constants == ConstantArguments(ms[..n])
    ensures DecodeArgs(tgt, PrintAll(params[n..], variadic), result, args, constants) ==
            ArgumentsMeaning(tgt, result, ms, variadic)
    decreases |params| - n
  {
    if n == |params| {
      assert ms[..n] == ms;
    } else {
      DecodesNextArg(tgt, params, ms[n], n, variadic, result, args, constants);
      if ms[n].Means? {
        OneMoreArgument(tgt, ms, n);
        DecodesArgs(tgt, params, ms, n + 1, variadic, result, args + [ArgumentType(tgt, ms[n].ty)],
          if ms[n].ice then constants + {|args|} else constants);
      } else {
        FailsAt(ms, n);
      }
    }
  }

  lemma OneMoreArgument(tgt: Target, ms: seq<Meaning>, n: nat)
    requires n < |ms| && AllMean(ms[..n]) && ms[n].Means?
    ensures AllMean(ms[..n + 1])
    ensures ArgumentTypes(tgt, ms[..n + 1]) == ArgumentTypes(tgt, ms[..n]) + [ArgumentType(tgt, ms[n].ty)]
    ensures ConstantArguments(ms[..n + 1]) == ConstantArguments(ms[..n]) + if ms[n].ice then {n} else {}
  {
    assert ms[..n + 1] == ms[..n] + [ms[n]];
  }

  lemma FailsAt(ms: seq<Meaning>, n: nat)
    requires n < |ms| && AllMean(ms[..n]) && !ms[n].Means?
    ensures !AllMean(ms) && FirstFailing(ms) == n
  {
    assert forall j :: 0 <= j < n ==> ms[..n][j] == ms[j];
  }

  /** Decoding a printed signature gives exactly what it means, or the first of its errors. */
  lemma SignatureRoundTrip(tgt: Target, result: Descriptor, params: seq<Descriptor>, variadic: bool)
    requires Valid(result) && AllValid(params)
    ensures DecodeSignature(tgt, PrintSignature(result, params, variadic)) ==
            SignatureMeaning(tgt, result, params, variadic)
  {
    var rest := PrintAll(params, variadic);
    FirstOfAll(params, variadic);
    FirstOfElement(result.element, PrintSuffixes(result.suffixes));
    DecodesPrinted(tgt, result, rest);
    var m, ms := DescriptorMeaning(tgt, result), Meanings(tgt, params);
    if m.Means? && !m.ice {
      assert params[0..] == params && ms[..0] == [];
      DecodesArgs(tgt, params, ms, 0, variadic, m.ty, [], {});
    }
  }

  // ---------- Descriptor strings are uniquely decodable ----------

  lemma Starts(p: string, s: string)
    ensures if p == "" then p + s == s else p + s != "" && (p + s)[0] == p[0]
  {
  }

  /** The longest beginning made of characters of one class is determined. */
  lemma {:induction false} SameBeginning(cls: char -> bool, p: string, s: string, q: string, t: string)
    requires (forall k :: 0 <= k < |p| ==> cls(p[k])) && (forall k :: 0 <= k < |q| ==> cls(q[k]))
    requires (s != "" ==> !cls(s[0])) && (t != "" ==> !cls(t[0])) && p + s == q + t
    ensures p == q && s == t
    decreases |p|
  {
    Starts(p, s);
    Starts(q, t);
    if p != "" && q != "" {
      assert (p + s)[1..] == p[1..] + s && (q + t)[1..] == q[1..] + t;
      SameBeginning(cls, p[1..], s, q[1..], t);
      assert p == [p[0]] + p[1..] && q == [q[0]] + q[1..];
    }
  }

  lemma SameDigits(m: nat, s: string, n: nat, t: string)
    requires (s != "" ==> !IsDigit(s[0])) && (t != "" ==> !IsDigit(t[0])) && Digits(m) + s == Digits(n) + t
    ensures m == n && s == t
  {
    SameBeginning(c => IsDigit(c), Digits(m), s, Digits(n), t);
  }

  lemma SameFirst(c: char, s: string, d: char, t: string)
    requires [c] + s == [d] + t
    ensures c == d && s == t
  {
    assert c == ([c] + s)[0] && s == ([c] + s)[1..] && t == ([d] + t)[1..];
  }

  /** An element is determined by any text that begins with it, and so is what follows it. */
  lemma {:induction false} SameElement(a: Element, s: string, b: Element, t: string)
    requires ValidElement(a) && ValidElement(b) && PrintElement(a) + s == PrintElement(b) + t
    ensures a == b && s == t
    decreases a, 1
  {
    assert a.prefix + (PrintBase(a.base) + s) == PrintElement(a) + s;
    assert b.prefix + (PrintBase(b.base) + t) == PrintElement(b) + t;
    FirstOfBase(a.base, s);
    FirstOfBase(b.base, t);
    SameBeginning(c => IsPrefixLetter(c), a.prefix, PrintBase(a.base) + s, b.prefix, PrintBase(b.base) + t);
    SameBase(a, s, b, t);
  }

  lemma {:induction false} SameBase(a: Element, s: string, b: Element, t: string)
    requires ValidElement(a) && ValidElement(b) && PrintBase(a.base) + s == PrintBase(b.base) + t
    ensures a.base == b.base && s == t
    decreases a, 0
  {
    var x, y := AfterFirst(a.base, s), AfterFirst(b.base, t);
    PrintsFirst(a.base, s);
    PrintsFirst(b.base, t);
    SameFirst(PrintBase(a.base)[0], x, PrintBase(b.base)[0], y);
    match a.base {
      case Letter(_) =>
      case VectorOf(_, size, element) =>
        FirstOfElement(element, s);
        FirstOfElement(b.base.element, t);
        SameDigits(size, PrintElement(element) + s, b.base.size, PrintElement(b.base.element) + t);
        SameElement(element, s, b.base.element, t);
      case ComplexOf(element) =>
        SameElement(element, s, b.base.element, t);
    }
  }

  /** What follows the first letter of a base type. */
  function AfterFirst(base: Base, s: string): string {
    match base
    case Letter(_) => s
    case VectorOf(_, size, element) => Digits(size) + (PrintElement(element) + s)
    case ComplexOf(element) => PrintElement(element) + s
  }

  lemma PrintsFirst(base: Base, s: string)
    ensures PrintBase(base) + s == [PrintBase(base)[0]] + AfterFirst(base, s)
  {
    match base {
      case Letter(letter) =>
      case VectorOf(kind, size, element) =>
        assert Digits(size) + PrintElement(element) + s == Digits(size) + (PrintElement(element) + s);
        Cons(VectorLetter(kind), Digits(size) + PrintElement(element), s);
      case ComplexOf(element) =>
        Cons('X', PrintElement(element), s);
    }
  }

  lemma {:induction false} SameSuffixes(xs: seq<Suffix>, s: string, ys: seq<Suffix>, t: string)
    requires Boundary(s) && Boundary(t) && PrintSuffixes(xs) + s == PrintSuffixes(ys) + t
    ensures xs == ys && s == t
    decreases |xs|
  {
    StartsBySuffix(xs, s);
    StartsBySuffix(ys, t);
    if xs != [] && ys != [] {
      var u, v := PrintSuffixes(xs[1..]) + s, PrintSuffixes(ys[1..]) + t;
      OneSuffix(xs, s);
      OneSuffix(ys, t);
      SameFirst(SuffixLetter(xs[0]), PrintSpace(SpaceOf(xs[0])) + u, SuffixLetter(ys[0]),
                PrintSpace(SpaceOf(ys[0])) + v);
      SameBeginning(c => IsDigit(c), PrintSpace(SpaceOf(xs[0])), u, PrintSpace(SpaceOf(ys[0])), v);
      SameSuffix(xs[0], ys[0]);
      SameSuffixes(xs[1..], s, ys[1..], t);
      assert xs == [xs[0]] + xs[1..] && ys == [ys[0]] + ys[1..];
    }
  }

  /** Suffixed modifiers cannot be taken for what follows them. */
  lemma StartsBySuffix(xs: seq<Suffix>, s: string)
    requires Boundary(s)
    ensures if xs == [] then PrintSuffixes(xs) + s == s
            else PrintSuffixes(xs) + s != "" && (PrintSuffixes(xs) + s)[0] == SuffixLetter(xs[0])
    ensures !(s != "" && IsSuffixLetter(s[0]))
    ensures PrintSuffixes(xs) + s != "" ==> !IsDigit((PrintSuffixes(xs) + s)[0])
  {
  }

  lemma OneSuffix(xs: seq<Suffix>, s: string)
    requires xs != [] && Boundary(s)
    ensures var u := PrintSuffixes(xs[1..]) + s;
      && PrintSuffixes(xs) + s == [SuffixLetter(xs[0])] + (PrintSpace(SpaceOf(xs[0])) + u)
      && (u != "" ==> !IsDigit(u[0]))
  {
    var u := PrintSuffixes(xs[1..]) + s;
    assert PrintSuffix(xs[0]) + PrintSuffixes(xs[1..]) + s == PrintSuffix(xs[0]) + u;
    Cons(SuffixLetter(xs[0]), PrintSpace(SpaceOf(xs[0])), u);
    StartsBySuffix(xs[1..], s);
  }

  lemma SameSuffix(x: Suffix, y: Suffix)
    requires SuffixLetter(x) == SuffixLetter(y) && PrintSpace(SpaceOf(x)) == PrintSpace(SpaceOf(y))
    ensures x == y
  {
    if SpaceOf(x).Some? && SpaceOf(y).Some? {
      assert Value(Digits(SpaceOf(x).value)) == Value(Digits(SpaceOf(y).value));
    }
  }

  lemma Regroup(a: string, b: string, c: string)
    ensures a + b + c == a + (b + c)
  {
  }

  lemma SameDescriptor(a: Descriptor, s: string, b: Descriptor, t: string)
    requires Valid(a) && Valid(b) && Boundary(s) && Boundary(t) && Print(a) + s == Print(b) + t
    ensures a == b && s == t
  {
    Regroup(PrintElement(a.element), PrintSuffixes(a.suffixes), s);
    Regroup(PrintElement(b.element), PrintSuffixes(b.suffixes), t);
    SameElement(a.element, PrintSuffixes(a.suffixes) + s, b.element, PrintSuffixes(b.suffixes) + t);
    SameSuffixes(a.suffixes, s, b.suffixes, t);
  }

  lemma {:induction false} SameArguments(ps: seq<Descriptor>, va: bool, qs: seq<Descriptor>, vb: bool)
    requires AllValid(ps) && AllValid(qs) && PrintAll(ps, va) == PrintAll(qs, vb)
    ensures ps == qs && va == vb
    decreases |ps|
  {
    FirstOfAll(ps, va);
    FirstOfAll(qs, vb);
    if ps != [] && qs != [] {
      FirstOfAll(ps[1..], va);
      FirstOfAll(qs[1..], vb);
      SameDescriptor(ps[0], PrintAll(ps[1..], va), qs[0], PrintAll(qs[1..], vb));
      SameArguments(ps[1..], va, qs[1..], vb);
      assert ps == [ps[0]] + ps[1..] && qs == [qs[0]] + qs[1..];
    }
  }

  /** Descriptor strings are uniquely decodable: signatures that are written alike are the same, and so mean the
      same. */
  lemma SamePrintSameSignature(tgt: Target, a: Descriptor, ps: seq<Descriptor>, va: bool,
                               b: Descriptor, qs: seq<Descriptor>, vb: bool)
    requires Valid(a) && AllValid(ps) && Valid(b) && AllValid(qs)
    ensures PrintSignature(a, ps, va) == PrintSignature(b, qs, vb) <==> a == b && ps == qs && va == vb
    ensures PrintSignature(a, ps, va) == PrintSignature(b, qs, vb) ==>
            SignatureMeaning(tgt, a, ps, va) == SignatureMeaning(tgt, b, qs, vb)
  {
    if PrintSignature(a, ps, va) == PrintSignature(b, qs, vb) {
      FirstOfAll(ps, va);
      FirstOfAll(qs, vb);
      SameDescriptor(a, PrintAll(ps, va), b, PrintAll(qs, vb));
      SameArguments(ps, va, qs, vb);
    }
  }

  // ---------- The decoder as the program runs it ----------

  method ReadPrefixedModifiers(tgt: Target, str: string) returns (r: Option<(Prefix, string)>)
    ensures r == ReadPrefixes(tgt, str, START)
  {
    var p, s := START, str;
    while s != "" && IsPrefixLetter(s[0])
      invariant ReadPrefixes(tgt, str, START) == ReadPrefixes(tgt, s, p)
      decreases |s|
    {
      var q := ReadPrefix(tgt, p, s[0]);
      if q.None? {
        return None;
      }
      p, s := q.value, s[1..];
    }
    r := Some((p, s));
  }

  method ReadSuffixedModifiers(str: string, base: Type) returns (ty: Type, s: string)
    ensures (ty, s) == ReadSuffixes(str, base)
  {
    ty, s := base, str;
    while s != "" && IsSuffixLetter(s[0])
      invariant ReadSuffixes(str, base) == ReadSuffixes(s, ty)
      decreases |s|
    {
      var read := ReadSuffix(s, ty);
      ty, s := read.0, read.1;
    }
  }

  /** The type before its suffixed modifiers and what follows it. */
  method DecodeBaseType(tgt: Target, str: string, p: Prefix, s: string) returns (d: Decoded)
    requires s != "" && ReadPrefixes(tgt, str, START) == Some((p, s))
    ensures forall allow: bool ::
              if d.meaning.Malformed? then Decode(tgt, str, allow).meaning.Malformed?
              else Decode(tgt, str, allow) == Finish(d, allow)
    decreases |s|, 0
  {
    if IsVectorLetter(s[0]) {
      var size := Strtoul(s[1..]);
      if size.None? {
        return Decoded(Malformed, s);
      }
      d := DecodeTypeFromStr(tgt, size.value.1, false);
      d := Decoded(VectorMeaning(KindOf(s[0]), d.meaning, size.value.0), d.rest);
    } else if s[0] == 'X' {
      d := DecodeTypeFromStr(tgt, s[1..], false);
      d := Decoded(ComplexMeaning(d.meaning), d.rest);
    } else if IsTypeLetter(s[0]) {
      d := Decoded(LetterMeaning(tgt, p, s[0]), s[1..]);
    } else {
      d := Decoded(Malformed, s);
    }
  }

  method DecodeTypeFromStr(tgt: Target, str: string, allowModifiers: bool) returns (d: Decoded)
    ensures d.meaning == Decode(tgt, str, allowModifiers).meaning
    ensures !d.meaning.Malformed? ==> d == Decode(tgt, str, allowModifiers)
    decreases |str|, 1
  {
    var prefixes := ReadPrefixedModifiers(tgt, str);
    if prefixes.None? || prefixes.value.1 == "" {
      return Decoded(Malformed, str);
    }
    d := DecodeBaseType(tgt, str, prefixes.value.0, prefixes.value.1);
    if d.meaning.Means? {
      var ty, s := d.meaning.ty, d.rest;
      if allowModifiers {
        ty, s := ReadSuffixedModifiers(s, ty);
      }
      d := Decoded(Checked(Means(ty, d.meaning.ice)), s);
    }
  }

  // ---------- The bit mask of constant arguments ----------

  predicate Bit(n: nat, i: nat) {
    if i == 0 then n % 2 == 1 else Bit(n / 2, i - 1)
  }

  /** The bits of the positions `ks` from `i` up to but not including `n`, the first one lowest. */
  function Mask(ks: set<nat>, i: nat, n: nat): nat
    requires i <= n
    decreases n - i
  {
    if i == n then 0 else (if i in ks then 1 else 0) + 2 * Mask(ks, i + 1, n)
  }

  lemma {:induction false} MaskBits(ks: set<nat>, i: nat, n: nat, k: nat)
    requires i <= n
    ensures Bit(Mask(ks, i, n), k) <==> i + k < n && i + k in ks
    decreases k
  {
    if i == n {
      NoBits(k);
    } else if k > 0 {
      MaskBits(ks, i + 1, n, k - 1);
    }
  }

  lemma {:induction false} NoBits(k: nat)
    ensures !Bit(0, k)
  {
    if k > 0 {
      NoBits(k - 1);
    }
  }

  /** One more position sets one more bit. */
  lemma {:induction false} MaskGrows(ks: set<nat>, i: nat, n: nat)
    requires i <= n
    ensures Mask(ks, i, n + 1) == Mask(ks, i, n) + if n in ks then Pow2(n - i) else 0
    ensures Mask(ks + {n}, i, n) == Mask(ks, i, n)
    decreases n - i
  {
    if i < n {
      MaskGrows(ks, i + 1, n);
    } else {
      assert Mask(ks, n + 1, n + 1) == 0;
    }
  }

  lemma {:induction false} MaskIsBelow(ks: set<nat>, i: nat, n: nat)
    requires i <= n
    ensures Mask(ks, i, n) < Pow2(n - i)
    decreases n - i
  {
    if i < n {
      MaskIsBelow(ks, i + 1, n);
    }
  }

  lemma MaskIsRight(ks: set<nat>, n: nat)
    requires n <= 32
    ensures Mask(ks, 0, n) < UINT
    ensures forall k: nat :: k < n ==> (Bit(Mask(ks, 0, n), k) <==> k in ks)
  {
    MaskIsBelow(ks, 0, n);
    PowersGrow(n, 32);
    PowersNearUInt();
    forall k: nat | k < n
      ensures Bit(Mask(ks, 0, n), k) <==> k in ks
    {
      MaskBits(ks, 0, n, k);
    }
  }

  lemma {:induction false} PowersGrow(i: nat, k: nat)
    requires i <= k
    ensures Pow2(i) <= Pow2(k)
    decreases k
  {
    if i < k {
      PowersGrow(i, k - 1);
    }
  }

  /** The mask after one more argument. */
  lemma MaskNext(ks: set<nat>, n: nat, ice: bool)
    requires n !in ks
    ensures var more := if ice then ks + {n} else ks;
      Mask(more, 0, InMask(n + 1)) == Mask(ks, 0, InMask(n)) + if ice && n < 32 then Pow2(n) else 0
  {
    if n < 32 {
      MaskGrows(ks, 0, n);
      MaskGrows(ks + {n}, 0, n);
    } else {
      MaskIgnores(ks, n, 0);
    }
  }

  lemma {:induction false} MaskIgnores(ks: set<nat>, n: nat, i: nat)
    requires 32 <= n && i <= 32
    ensures Mask(ks + {n}, i, 32) == Mask(ks, i, 32)
    decreases 32 - i
  {
    if i < 32 {
      MaskIgnores(ks, n, i + 1);
    }
  }

  /** The positions that a mask of 32 bits has room for. */
  function InMask(n: nat): nat {
    if n < 32 then n else 32
  }

  /** Besides the signature this returns a bit mask of the arguments that must be constants, of those among the
      first 32; for later ones the program shifts by more bits than there are. */
  method GetBuiltinType(tgt: Target, str: string) returns (r: Outcome, mask: nat)
    ensures r == DecodeSignature(tgt, str)
    ensures mask < UINT
    ensures r.Success? ==> forall k: nat :: k < |r.signature.args| && k < 32 ==>
            (Bit(mask, k) <==> k in r.signature.constantArgs)
  {
    mask := 0;
    if str == "" {
      return Failed(MissingType), 0;
    }
    var result := DecodeTypeFromStr(tgt, str, true);
    if !result.meaning.Means? {
      return Failure(result.meaning), 0;
    }
    if result.meaning.ice {
      return Rejected, 0;
    }
    var args: seq<Type>, constants: set<nat>, s := [], {}, result.rest;
    while s != "" && s[0] != '.'
      invariant DecodeArgs(tgt, result.rest, result.meaning.ty, [], {}) ==
                DecodeArgs(tgt, s, result.meaning.ty, args, constants)
      invariant mask == Mask(constants, 0, InMask(|args|)) && forall k :: k in constants ==> k < |args|
      decreases |s|
    {
      var d := DecodeTypeFromStr(tgt, s, true);
      if !d.meaning.Means? {
        return Failure(d.meaning), 0;
      }
      MaskNext(constants, |args|, d.meaning.ice);
      if d.meaning.ice {
        if |args| < 32 {
          mask := mask + Pow2(|args|);
        }
        constants := constants + {|args|};
      }
      args, s := args + [ArgumentType(tgt, d.meaning.ty)], d.rest;
    }
    if |s| > 1 {
      return Rejected, 0;
    }
    MaskIsRight(constants, InMask(|args|));
    r := Success(Signature(result.meaning.ty, args, constants, s != ""));
  }
}
