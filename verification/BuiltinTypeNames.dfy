/// How each type that a builtin function can have is written, and that this is how it is read.

module BuiltinTypeNames {
  import opened Prelude
  import opened Decimals
  import opened BuiltinDescriptor

  // ---------- How types are written ----------

  function Longs(n: nat): string {
    if n == 0 then "" else Longs(n - 1) + ['L']
  }

  /** The prefixed modifiers and the letter for a type without parts. */
  function Spelling(t: Type): (string, char) {
    match t
    case BFloat16 => ("", 'y')
    case Void => ("", 'v')
    case Half => ("", 'h')
    case Float => ("", 'f')
    case Double => ("", 'd')
    case LongDouble => ("L", 'd')
    case Float128 => ("LL", 'd')
    case Short(unsigned) => (if unsigned then "U" else "", 's')
    case Integer(unsigned, howLong) => ((if unsigned then "U" else "") + Longs(howLong), 'i')
    case Char => ("", 'c')
    case SignedChar => ("S", 'c')
    case UnsignedChar => ("U", 'c')
    case Bool => ("", 'b')
    case Size => ("", 'z')
    case WideChar => ("", 'w')
    case CFString => ("", 'F')
    case VaList => ("", 'a')
    case PtrDiff => ("", 'Y')
    case File => ("", 'P')
    case JmpBuf => ("", 'J')
    case SigJmpBuf => ("S", 'J')
    case UContext => ("", 'K')
    case ProcessId => ("", 'p')
    case _ => ("", 'A')
  }

  /** Types of one letter that the target and the headers provide; `A` is the way a va_list is passed. */
  predicate HasLetter(tgt: Target, t: Type) {
    && !t.Vector? && !t.Complex? && !t.InAddressSpace? && !t.Pointer? && !t.Const? && !t.Volatile? && !t.Restrict?
    && (t.Integer? ==> t.howLong <= 3)
    && (t.File? ==> tgt.hasFile)
    && (t.JmpBuf? ==> tgt.hasJmpBuf)
    && (t.SigJmpBuf? ==> tgt.hasSigJmpBuf)
    && (t.UContext? ==> tgt.hasUContext)
    && (t.Decayed? ==> t.from.VaList? && tgt.vaListIsArray)
    && (t.LValueReference? ==> t.to.VaList? && !tgt.vaListIsArray)
  }

  predicate IsElement(tgt: Target, t: Type) {
    if t.Vector? then t.size < UINT && IsElement(tgt, t.element)
    else if t.Complex? then IsElement(tgt, t.element)
    else HasLetter(tgt, t)
  }

  function ElementName(t: Type): string {
    if t.Vector? then
      (if t.kind.Scalable? then "q" else if t.kind.Generic? then "V" else "E") + Digits(t.size) + ElementName(t.element)
    else if t.Complex? then "X" + ElementName(t.element)
    else Spelling(t).0 + [Spelling(t).1]
  }

  /** Elements with pointers, references and qualifiers around them; address spaces are named with the pointers and
      references into them. */
  predicate IsNameable(tgt: Target, t: Type) {
    || IsElement(tgt, t)
    || (if t.Pointer? || t.LValueReference? then
          if t.to.InAddressSpace? then t.to.space < UINT && IsNameable(tgt, t.to.to) else IsNameable(tgt, t.to)
        else (t.Const? || t.Volatile? || t.Restrict?) && IsNameable(tgt, t.of))
  }

  function TypeName(tgt: Target, t: Type): string {
    if IsElement(tgt, t) then ElementName(t)
    else if t.Pointer? || t.LValueReference? then
      var letter := if t.Pointer? then "*" else "&";
      if t.to.InAddressSpace? then TypeName(tgt, t.to.to) + (letter + Digits(t.to.space))
      else TypeName(tgt, t.to) + letter
    else if t.Const? then TypeName(tgt, t.of) + "C"
    else if t.Volatile? then TypeName(tgt, t.of) + "D"
    else if t.Restrict? then TypeName(tgt, t.of) + "R"
    else ""
  }

  // ---------- The descriptor behind a name ----------

  function ElementOf(t: Type): Element {
    if t.Vector? then Element("", VectorOf(t.kind, t.size, ElementOf(t.element)))
    else if t.Complex? then Element("", ComplexOf(ElementOf(t.element)))
    else Element(Spelling(t).0, Letter(Spelling(t).1))
  }

  predicate HasSuffix(t: Type) {
    t.Pointer? || t.LValueReference? || t.Const? || t.Volatile? || t.Restrict?
  }

  /** The type to which the last suffixed modifier was applied, and that modifier. */
  function Outermost(t: Type): (r: (Type, Suffix))
    requires HasSuffix(t)
    ensures r.0 < t
  {
    if t.Pointer? || t.LValueReference? then
      var space := if t.to.InAddressSpace? then Some(t.to.space) else None;
      (if t.to.InAddressSpace? then t.to.to else t.to, if t.Pointer? then PointerTo(space) else ReferenceTo(space))
    else (t.of, if t.Const? then ConstOf else if t.Volatile? then VolatileOf else RestrictOf)
  }

  function SuffixesOf(tgt: Target, t: Type): seq<Suffix> {
    if IsElement(tgt, t) || !HasSuffix(t) then [] else SuffixesOf(tgt, Outermost(t).0) + [Outermost(t).1]
  }

  function InnerElement(tgt: Target, t: Type): Type {
    if IsElement(tgt, t) || !HasSuffix(t) then t else InnerElement(tgt, Outermost(t).0)
  }

  lemma {:induction false} CountLongs(front: string, n: nat, x: char)
    ensures Count(front + Longs(n), x) == Count(front, x) + if x == 'L' then n else 0
    decreases n
  {
    if n == 0 {
      assert front + Longs(0) == front;
    } else {
      CountLongs(front, n - 1, x);
      assert front + Longs(n) == (front + Longs(n - 1)) + ['L'];
      CountOne(front + Longs(n - 1), 'L', x);
    }
  }

  /** What at most one letter and some `L` after it say. */
  lemma PrefixOf(tgt: Target, sign: string, n: nat)
    requires sign in ["", "S", "U"] && n <= 3
    ensures PrefixMeaning(tgt, sign + Longs(n)) == Some(Prefix(false, sign == "S", sign == "U", n, false))
  {
    forall x: char
      ensures Count(sign + Longs(n), x) == (if sign == [x] then 1 else 0) + if x == 'L' then n else 0
    {
      CountLongs(sign, n, x);
      CountSign(sign, x);
    }
  }

  lemma CountSign(sign: string, x: char)
    requires |sign| <= 1
    ensures Count(sign, x) == if sign == [x] then 1 else 0
  {
    if sign != "" {
      assert sign[..0] == "";
    }
  }

  /** The sign and the number of `L` in the spelling of a type of one letter. */
  function Parts(t: Type): (r: (string, nat))
    ensures r.0 in ["", "S", "U"]
  {
    match t
    case LongDouble => ("", 1)
    case Float128 => ("", 2)
    case Short(unsigned) => (if unsigned then "U" else "", 0)
    case Integer(unsigned, howLong) => (if unsigned then "U" else "", howLong)
    case SignedChar => ("S", 0)
    case UnsignedChar => ("U", 0)
    case SigJmpBuf => ("S", 0)
    case _ => ("", 0)
  }

  lemma SpellingParts(t: Type)
    ensures Spelling(t).0 == Parts(t).0 + Longs(Parts(t).1)
  {
    assert Longs(0) == "" && Longs(1) == "L" && Longs(2) == "LL";
  }

  lemma PlainLetter(tgt: Target, t: Type)
    requires HasLetter(tgt, t) && Parts(t) == ("", 0)
    ensures IsTypeLetter(Spelling(t).1) && LetterMeaning(tgt, START, Spelling(t).1) == Means(t, false)
  {
  }

  lemma ModifiedLetter(tgt: Target, t: Type)
    requires HasLetter(tgt, t) && Parts(t) != ("", 0)
    ensures Parts(t).1 <= 3 && IsTypeLetter(Spelling(t).1)
    ensures LetterMeaning(tgt, Prefix(false, Parts(t).0 == "S", Parts(t).0 == "U", Parts(t).1, false), Spelling(t).1) ==
            Means(t, false)
  {
    assert t.LongDouble? || t.Float128? || t.Short? || t.Integer? || t.SignedChar? || t.UnsignedChar? || t.SigJmpBuf?;
  }

  lemma LetterOfParts(tgt: Target, t: Type)
    requires HasLetter(tgt, t)
    ensures Parts(t).1 <= 3 && IsTypeLetter(Spelling(t).1)
    ensures LetterMeaning(tgt, Prefix(false, Parts(t).0 == "S", Parts(t).0 == "U", Parts(t).1, false), Spelling(t).1) ==
            Means(t, false)
  {
    if Parts(t) == ("", 0) {
      PlainLetter(tgt, t);
    } else {
      ModifiedLetter(tgt, t);
    }
  }

  lemma {:induction false} LongsArePrefixes(n: nat)
    ensures forall k :: 0 <= k < |Longs(n)| ==> Longs(n)[k] == 'L'
  {
    if n > 0 {
      LongsArePrefixes(n - 1);
    }
  }

  /** An element is written as its descriptor is printed, and that means the element. */
  lemma {:induction false} ElementNamed(tgt: Target, t: Type)
    requires IsElement(tgt, t)
    ensures ValidElement(ElementOf(t)) && PrintElement(ElementOf(t)) == ElementName(t)
    ensures ElementMeaning(tgt, ElementOf(t)) == Means(t, false)
    decreases t
  {
    if t.Vector? {
      ElementNamed(tgt, t.element);
      VectorNamed(tgt, t.kind, t.element, t.size, ElementOf(t.element));
      VectorPrinted(t.kind, t.size, ElementOf(t.element));
    } else if t.Complex? {
      ElementNamed(tgt, t.element);
      ComplexNamed(tgt, t.element, ElementOf(t.element));
    } else {
      LetterNamed(tgt, t);
    }
  }

  lemma VectorNamed(tgt: Target, kind: VectorKind, t: Type, size: nat, e: Element)
    requires size < UINT && ValidElement(e) && ElementMeaning(tgt, e) == Means(t, false)
    ensures var v := Element("", VectorOf(kind, size, e));
      ValidElement(v) && ElementMeaning(tgt, v) == Means(Vector(kind, t, size), false)
  {
    assert PrefixMeaning(tgt, "") == Some(START);
  }

  lemma VectorPrinted(kind: VectorKind, size: nat, e: Element)
    ensures PrintElement(Element("", VectorOf(kind, size, e))) ==
            (if kind.Scalable? then "q" else if kind.Generic? then "V" else "E") + Digits(size) + PrintElement(e)
  {
    var letter := if kind.Scalable? then "q" else if kind.Generic? then "V" else "E";
    assert letter == [VectorLetter(kind)];
    Regroup(letter, Digits(size), PrintElement(e));
    assert PrintElement(Element("", VectorOf(kind, size, e))) == PrintBase(VectorOf(kind, size, e));
  }

  lemma ComplexNamed(tgt: Target, t: Type, e: Element)
    requires ValidElement(e) && ElementMeaning(tgt, e) == Means(t, false)
    ensures var c := Element("", ComplexOf(e));
      ValidElement(c) && ElementMeaning(tgt, c) == Means(Complex(t), false) && PrintElement(c) == "X" + PrintElement(e)
  {
    assert PrefixMeaning(tgt, "") == Some(START);
  }

  lemma LetterNamed(tgt: Target, t: Type)
    requires HasLetter(tgt, t)
    ensures ValidElement(ElementOf(t)) && PrintElement(ElementOf(t)) == ElementName(t)
    ensures ElementMeaning(tgt, ElementOf(t)) == Means(t, false)
  {
    var p := LetterPrefix(tgt, t);
    LetterElement(tgt, Spelling(t).0, Spelling(t).1, p);
  }

  /** What the prefixed modifiers in the spelling of a type say. */
  lemma LetterPrefix(tgt: Target, t: Type) returns (p: Prefix)
    requires HasLetter(tgt, t)
    ensures forall k :: 0 <= k < |Spelling(t).0| ==> IsPrefixLetter(Spelling(t).0[k])
    ensures PrefixMeaning(tgt, Spelling(t).0) == Some(p)
    ensures IsTypeLetter(Spelling(t).1) && LetterMeaning(tgt, p, Spelling(t).1) == Means(t, false)
  {
    var (sign, n) := Parts(t);
    p := Prefix(false, sign == "S", sign == "U", n, false);
    SpellingParts(t);
    LetterOfParts(tgt, t);
    PrefixOf(tgt, sign, n);
    LongsArePrefixes(n);
  }

  lemma LetterElement(tgt: Target, prefix: string, letter: char, p: Prefix)
    requires (forall k :: 0 <= k < |prefix| ==> IsPrefixLetter(prefix[k])) && IsTypeLetter(letter)
    requires PrefixMeaning(tgt, prefix) == Some(p)
    ensures var e := Element(prefix, Letter(letter));
      && ValidElement(e) && PrintElement(e) == prefix + [letter]
      && ElementMeaning(tgt, e) == LetterMeaning(tgt, p, letter)
  {
  }

  // ---------- Names decode to what they name ----------

  lemma {:induction false} PrintOneMoreSuffix(xs: seq<Suffix>, x: Suffix)
    ensures PrintSuffixes(xs + [x]) == PrintSuffixes(xs) + PrintSuffix(x)
    decreases |xs|
  {
    if xs == [] {
      assert xs + [x] == [x] && [x][1..] == [];
    } else {
      assert (xs + [x])[1..] == xs[1..] + [x];
      PrintOneMoreSuffix(xs[1..], x);
      Regroup(PrintSuffix(xs[0]), PrintSuffixes(xs[1..]), PrintSuffix(x));
    }
  }

  lemma {:induction false} ModifiedOnceMore(ty: Type, xs: seq<Suffix>, x: Suffix)
    ensures ModifiedAll(ty, xs + [x]) == Modified(ModifiedAll(ty, xs), x)
    decreases |xs|
  {
    if xs == [] {
      assert xs + [x] == [x] && [x][1..] == [];
    } else {
      assert (xs + [x])[1..] == xs[1..] + [x];
      ModifiedOnceMore(Modified(ty, xs[0]), xs[1..], x);
    }
  }

  ghost predicate ValidSuffixes(xs: seq<Suffix>) {
    forall k :: 0 <= k < |xs| ==> ValidSuffix(xs[k])
  }

  /** A name is that of its element followed by its suffixed modifiers. */
  lemma {:induction false} NamedBySuffixes(tgt: Target, t: Type)
    requires IsNameable(tgt, t)
    ensures IsElement(tgt, InnerElement(tgt, t)) && ValidSuffixes(SuffixesOf(tgt, t))
    ensures TypeName(tgt, t) == ElementName(InnerElement(tgt, t)) + PrintSuffixes(SuffixesOf(tgt, t))
    ensures t == ModifiedAll(InnerElement(tgt, t), SuffixesOf(tgt, t))
    decreases t
  {
    if IsElement(tgt, t) {
      assert SuffixesOf(tgt, t) == [];
    } else {
      var (inner, x) := Outermost(t);
      NamedBySuffixes(tgt, inner);
      OneSuffixMore(tgt, t, inner, x);
    }
  }

  lemma OneSuffixMore(tgt: Target, t: Type, inner: Type, x: Suffix)
    requires !IsElement(tgt, t) && HasSuffix(t)
    requires (inner, x) == Outermost(t)
    requires var e, xs := InnerElement(tgt, inner), SuffixesOf(tgt, inner);
      TypeName(tgt, inner) == ElementName(e) + PrintSuffixes(xs) && inner == ModifiedAll(e, xs)
    ensures InnerElement(tgt, t) == InnerElement(tgt, inner) && SuffixesOf(tgt, t) == SuffixesOf(tgt, inner) + [x]
    ensures TypeName(tgt, t) == ElementName(InnerElement(tgt, inner)) + PrintSuffixes(SuffixesOf(tgt, inner) + [x])
    ensures t == ModifiedAll(InnerElement(tgt, inner), SuffixesOf(tgt, inner) + [x])
  {
    var e, xs := InnerElement(tgt, inner), SuffixesOf(tgt, inner);
    PrintOneMoreSuffix(xs, x);
    ModifiedOnceMore(e, xs, x);
    NameOfOneMore(tgt, t);
    Regroup(ElementName(e), PrintSuffixes(xs), PrintSuffix(x));
  }

  lemma NameOfOneMore(tgt: Target, t: Type)
    requires !IsElement(tgt, t) && HasSuffix(t)
    ensures var (inner, x) := Outermost(t);
      TypeName(tgt, t) == TypeName(tgt, inner) + PrintSuffix(x) && t == Modified(inner, x)
  {
    var (inner, x) := Outermost(t);
    assert PrintSuffix(x) == [SuffixLetter(x)] + PrintSpace(SpaceOf(x));
  }

  /** The descriptor of a type, and of one that must be a constant. */
  function DescriptorOf(tgt: Target, t: Type, ice: bool): Descriptor {
    var e := ElementOf(InnerElement(tgt, t));
    Descriptor(if ice then e.(prefix := "I" + e.prefix) else e, SuffixesOf(tgt, t))
  }

  lemma PlainDescriptor(tgt: Target, t: Type, d: Descriptor)
    requires IsNameable(tgt, t) && d == DescriptorOf(tgt, t, false)
    ensures Valid(d) && Print(d) == TypeName(tgt, t) && DescriptorMeaning(tgt, d) == Means(t, false)
  {
    NamedBySuffixes(tgt, t);
    ElementNamed(tgt, InnerElement(tgt, t));
  }

  /** Whatever type the language can name, its name is decoded to that type, up to exactly the end of the name. */
  lemma NameDecodes(tgt: Target, t: Type, rest: string)
    requires IsNameable(tgt, t) && Boundary(rest)
    ensures Decode(tgt, TypeName(tgt, t) + rest, true) == Decoded(Means(t, false), rest)
  {
    var d := DescriptorOf(tgt, t, false);
    PlainDescriptor(tgt, t, d);
    DecodesPrinted(tgt, d, rest);
  }

  // ---------- Nothing but nameable types is decoded ----------

  lemma LetterIsElement(tgt: Target, p: Prefix, c: char)
    requires IsTypeLetter(c)
    ensures var m := LetterMeaning(tgt, p, c);
      m.Means? ==> IsElement(tgt, m.ty)
  {
  }

  lemma VectorIsElement(tgt: Target, kind: VectorKind, element: Meaning, size: nat)
    requires size < UINT && (element.Means? ==> IsElement(tgt, element.ty))
    ensures var m := VectorMeaning(kind, element, size);
      m.Means? ==> IsElement(tgt, m.ty)
  {
  }

  lemma ComplexIsElement(tgt: Target, element: Meaning)
    requires element.Means? ==> IsElement(tgt, element.ty)
    ensures var m := ComplexMeaning(element);
      m.Means? ==> IsElement(tgt, m.ty)
  {
  }

  lemma {:induction false} NumberIsUnsigned(s: string)
    ensures Strtoul(s).Some? ==> Strtoul(s).value.0 < UINT
    decreases |s|
  {
    if s != "" && IsSpace(s[0]) {
      NumberIsUnsigned(s[1..]);
    }
  }

  lemma SuffixKeepsNameable(tgt: Target, s: string, ty: Type)
    requires s != "" && IsSuffixLetter(s[0]) && IsNameable(tgt, ty)
    ensures IsNameable(tgt, ReadSuffix(s, ty).0)
  {
    var space := Strtoul(s[1..]);
    NumberIsUnsigned(s[1..]);
    QualifiedIsNameable(tgt, ty);
    if space.Some? {
      InSpaceIsNameable(tgt, ty, space.value.0);
    } else {
      PointerIsNameable(tgt, ty);
    }
  }

  lemma QualifiedIsNameable(tgt: Target, ty: Type)
    requires IsNameable(tgt, ty)
    ensures IsNameable(tgt, Const(ty)) && IsNameable(tgt, Volatile(ty)) && IsNameable(tgt, Restrict(ty))
  {
  }

  lemma PointerIsNameable(tgt: Target, ty: Type)
    requires IsNameable(tgt, ty)
    ensures IsNameable(tgt, Pointer(ty)) && IsNameable(tgt, LValueReference(ty))
  {
    assert !ty.InAddressSpace?;
  }

  lemma InSpaceIsNameable(tgt: Target, ty: Type, space: nat)
    requires IsNameable(tgt, ty) && space < UINT
    ensures IsNameable(tgt, Pointer(InAddressSpace(ty, space)))
    ensures IsNameable(tgt, LValueReference(InAddressSpace(ty, space)))
  {
  }

  lemma {:induction false} SuffixesKeepNameable(tgt: Target, s: string, ty: Type)
    requires IsNameable(tgt, ty)
    ensures IsNameable(tgt, ReadSuffixes(s, ty).0)
    decreases |s|
  {
    if s != "" && IsSuffixLetter(s[0]) {
      SuffixKeepsNameable(tgt, s, ty);
      var r := ReadSuffix(s, ty);
      SuffixesKeepNameable(tgt, r.1, r.0);
    }
  }

  /** The type is one that can be named, and an element if there may be no suffixes. */
  predicate IsNamed(tgt: Target, m: Meaning, allowModifiers: bool) {
    m.Means? ==> if allowModifiers then IsNameable(tgt, m.ty) else IsElement(tgt, m.ty)
  }

  lemma FinishKeepsNameable(tgt: Target, d: Decoded, allowModifiers: bool)
    requires d.meaning.Means? ==> IsElement(tgt, d.meaning.ty)
    ensures IsNamed(tgt, Finish(d, allowModifiers).meaning, allowModifiers)
  {
    if d.meaning.Means? {
      SuffixesKeepNameable(tgt, d.rest, d.meaning.ty);
    }
  }

  lemma VectorIsNamed(tgt: Target, s: string, allowModifiers: bool, t: string, size: nat, u: string)
    requires ReadPrefixes(tgt, s, START).Some? && ReadPrefixes(tgt, s, START).value.1 == t
    requires t != "" && IsVectorLetter(t[0]) && Strtoul(t[1..]) == Some((size, u))
    requires IsNamed(tgt, Decode(tgt, u, false).meaning, false)
    ensures IsNamed(tgt, Decode(tgt, s, allowModifiers).meaning, allowModifiers)
  {
    var e := Decode(tgt, u, false);
    NumberIsUnsigned(t[1..]);
    VectorIsElement(tgt, KindOf(t[0]), e.meaning, size);
    FinishKeepsNameable(tgt, Decoded(VectorMeaning(KindOf(t[0]), e.meaning, size), e.rest), allowModifiers);
  }

  lemma ComplexIsNamed(tgt: Target, s: string, allowModifiers: bool, t: string)
    requires ReadPrefixes(tgt, s, START).Some? && ReadPrefixes(tgt, s, START).value.1 == t
    requires t != "" && t[0] == 'X' && IsNamed(tgt, Decode(tgt, t[1..], false).meaning, false)
    ensures IsNamed(tgt, Decode(tgt, s, allowModifiers).meaning, allowModifiers)
  {
    var e := Decode(tgt, t[1..], false);
    ComplexIsElement(tgt, e.meaning);
    FinishKeepsNameable(tgt, Decoded(ComplexMeaning(e.meaning), e.rest), allowModifiers);
  }

  lemma LetterIsNamed(tgt: Target, s: string, allowModifiers: bool, p: Prefix, t: string)
    requires ReadPrefixes(tgt, s, START) == Some((p, t)) && t != "" && IsTypeLetter(t[0])
    ensures IsNamed(tgt, Decode(tgt, s, allowModifiers).meaning, allowModifiers)
  {
    LetterIsElement(tgt, p, t[0]);
    FinishKeepsNameable(tgt, Decoded(LetterMeaning(tgt, p, t[0]), t[1..]), allowModifiers);
  }

  /** Whatever string is decoded, the type is one that can be named. */
  lemma {:induction false} DecodedIsNameable(tgt: Target, s: string, allowModifiers: bool)
    ensures IsNamed(tgt, Decode(tgt, s, allowModifiers).meaning, allowModifiers)
    decreases |s|
  {
    var read := ReadPrefixes(tgt, s, START);
    if read.Some? && read.value.1 != "" {
      var (p, t) := read.value;
      if IsVectorLetter(t[0]) {
        var size := Strtoul(t[1..]);
        if size.Some? {
          DecodedIsNameable(tgt, size.value.1, false);
          VectorIsNamed(tgt, s, allowModifiers, t, size.value.0, size.value.1);
        }
      } else if t[0] == 'X' {
        DecodedIsNameable(tgt, t[1..], false);
        ComplexIsNamed(tgt, s, allowModifiers, t);
      } else if IsTypeLetter(t[0]) {
        LetterIsNamed(tgt, s, allowModifiers, p, t);
      }
    }
  }

  /** A type is what some descriptor stands for exactly when it can be named. */
  lemma DescribedExactlyWhen(tgt: Target, t: Type)
    ensures (exists s: string :: Decode(tgt, s, true) == Decoded(Means(t, false), "")) <==> IsNameable(tgt, t)
  {
    if IsNameable(tgt, t) {
      NameDecodes(tgt, t, "");
      assert TypeName(tgt, t) + "" == TypeName(tgt, t);
    }
    if s: string :| Decode(tgt, s, true) == Decoded(Means(t, false), "") {
      DecodedIsNameable(tgt, s, true);
    }
  }

  // ---------- Constants and whole signatures ----------

  /** A type without the qualifiers around it. */
  function Unqualified(t: Type): Type {
    if t.Const? || t.Volatile? || t.Restrict? then Unqualified(t.of) else t
  }

  /** The integer types. */
  predicate IsInteger(t: Type) {
    || t.Short? || t.Integer? || t.Char? || t.SignedChar? || t.UnsignedChar? || t.Bool?
    || t.Size? || t.WideChar? || t.PtrDiff? || t.ProcessId?
  }

  lemma {:induction false} IntegersAreIntegral(t: Type)
    ensures IsIntegral(t) <==> IsInteger(Unqualified(t))
    decreases t
  {
    if t.Const? || t.Volatile? || t.Restrict? {
      IntegersAreIntegral(t.of);
    }
  }

  lemma {:induction false} CountFirst(c: char, q: string, x: char)
    ensures Count([c] + q, x) == Count(q, x) + if c == x then 1 else 0
    decreases |q|
  {
    if q == "" {
      assert [c] + q == [c] && [c][..0] == "";
    } else {
      assert ([c] + q)[..|q|] == [c] + q[..|q| - 1];
      CountFirst(c, q[..|q| - 1], x);
    }
  }

  lemma ConstantPrefix(tgt: Target, q: string, p: Prefix)
    requires PrefixMeaning(tgt, q) == Some(p)
    ensures PrefixMeaning(tgt, "I" + q) == Some(p.(ice := true))
  {
    CountFirst('I', q, 'I');
    CountFirst('I', q, 'S');
    CountFirst('I', q, 'U');
    CountFirst('I', q, 'L');
    CountFirst('I', q, 'N');
    CountFirst('I', q, 'W');
    CountFirst('I', q, 'Z');
    CountFirst('I', q, 'O');
  }

  function ArgumentName(tgt: Target, t: Type, ice: bool): string {
    (if ice then "I" else "") + TypeName(tgt, t)
  }

  lemma ConstantDescriptor(tgt: Target, t: Type, d: Descriptor)
    requires IsNameable(tgt, t) && HasLetter(tgt, InnerElement(tgt, t)) && d == DescriptorOf(tgt, t, true)
    ensures Valid(d) && Print(d) == "I" + TypeName(tgt, t)
    ensures DescriptorMeaning(tgt, d) == if IsInteger(Unqualified(t)) then Means(t, true) else Malformed
  {
    var e := InnerElement(tgt, t);
    NamedBySuffixes(tgt, t);
    IntegersAreIntegral(t);
    LetterNamed(tgt, e);
    ConstantLetter(tgt, e);
    Regroup("I", ElementName(e), PrintSuffixes(SuffixesOf(tgt, t)));
  }

  lemma ConstantLetter(tgt: Target, t: Type)
    requires HasLetter(tgt, t)
    ensures var e := Element("I" + Spelling(t).0, Letter(Spelling(t).1));
      && ValidElement(e) && PrintElement(e) == "I" + (Spelling(t).0 + [Spelling(t).1])
      && ElementMeaning(tgt, e) == Means(t, true)
  {
    var p := LetterPrefix(tgt, t);
    ConstantPrefix(tgt, Spelling(t).0, p);
    LetterElement(tgt, "I" + Spelling(t).0, Spelling(t).1, p.(ice := true));
    ConstantMeaning(tgt, p, Spelling(t).1);
    Regroup("I", Spelling(t).0, [Spelling(t).1]);
  }

  lemma ConstantMeaning(tgt: Target, p: Prefix, c: char)
    requires IsTypeLetter(c)
    ensures var m := LetterMeaning(tgt, p, c);
      LetterMeaning(tgt, p.(ice := true), c) == if m.Means? then m.(ice := true) else m
  {
    ConstantType(tgt, p, c);
  }

  lemma ConstantType(tgt: Target, p: Prefix, c: char)
    requires IsTypeLetter(c)
    ensures LetterType(tgt, p.(ice := true), c) == LetterType(tgt, p, c)
  {
  }

  lemma IntegersHaveLetters(tgt: Target, t: Type)
    requires IsNameable(tgt, t) && IsInteger(Unqualified(t))
    ensures HasLetter(tgt, InnerElement(tgt, t))
  {
    var e := InnerElement(tgt, t);
    NamedBySuffixes(tgt, t);
    IntegersAreIntegral(t);
    if e.Vector? || e.Complex? {
      NotIntegral(e, SuffixesOf(tgt, t));
    }
  }

  /** An `I` before the name of an integer asks for a constant; before any other name made from a letter it is
      refused. */
  lemma ConstantNameDecodes(tgt: Target, t: Type, rest: string)
    requires IsNameable(tgt, t) && Boundary(rest)
    ensures IsInteger(Unqualified(t)) ==>
            Decode(tgt, "I" + TypeName(tgt, t) + rest, true) == Decoded(Means(t, true), rest)
    ensures !IsInteger(Unqualified(t)) && HasLetter(tgt, InnerElement(tgt, t)) ==>
            Decode(tgt, "I" + TypeName(tgt, t) + rest, true).meaning.Malformed?
  {
    if IsInteger(Unqualified(t)) {
      IntegersHaveLetters(tgt, t);
    }
    if HasLetter(tgt, InnerElement(tgt, t)) {
      var d := DescriptorOf(tgt, t, true);
      ConstantDescriptor(tgt, t, d);
      DecodesPrinted(tgt, d, rest);
    }
  }

  /** A parameter: its type and whether its argument must be a constant. */
  datatype Parameter = Parameter(ty: Type, constant: bool)

  predicate IsParameter(tgt: Target, p: Parameter) {
    IsNameable(tgt, p.ty) && (p.constant ==> IsInteger(Unqualified(p.ty)))
  }

  function ParameterNames(tgt: Target, params: seq<Parameter>): string {
    if params == [] then "" else ArgumentName(tgt, params[0].ty, params[0].constant) + ParameterNames(tgt, params[1..])
  }

  function Descriptors(tgt: Target, params: seq<Parameter>): (ds: seq<Descriptor>)
    ensures |ds| == |params|
    ensures forall k :: 0 <= k < |params| ==> ds[k] == DescriptorOf(tgt, params[k].ty, params[k].constant)
  {
    if params == [] then []
    else [DescriptorOf(tgt, params[0].ty, params[0].constant)] + Descriptors(tgt, params[1..])
  }

  lemma ParameterDescriptor(tgt: Target, p: Parameter, d: Descriptor)
    requires IsParameter(tgt, p) && d == DescriptorOf(tgt, p.ty, p.constant)
    ensures Valid(d) && Print(d) == ArgumentName(tgt, p.ty, p.constant)
    ensures DescriptorMeaning(tgt, d) == Means(p.ty, p.constant)
  {
    if p.constant {
      IntegersHaveLetters(tgt, p.ty);
      ConstantDescriptor(tgt, p.ty, d);
    } else {
      PlainDescriptor(tgt, p.ty, d);
      assert "" + TypeName(tgt, p.ty) == TypeName(tgt, p.ty);
    }
  }

  lemma {:induction false} ParametersPrinted(tgt: Target, params: seq<Parameter>, variadic: bool)
    requires forall k :: 0 <= k < |params| ==> IsParameter(tgt, params[k])
    ensures AllValid(Descriptors(tgt, params))
    ensures PrintAll(Descriptors(tgt, params), variadic) ==
            ParameterNames(tgt, params) + if variadic then "." else ""
    decreases |params|
  {
    if params != [] {
      var d := DescriptorOf(tgt, params[0].ty, params[0].constant);
      ParameterDescriptor(tgt, params[0], d);
      ParametersPrinted(tgt, params[1..], variadic);
      assert Descriptors(tgt, params)[1..] == Descriptors(tgt, params[1..]);
      Regroup(Print(d), ParameterNames(tgt, params[1..]), if variadic then "." else "");
    }
  }

  /** Arguments of array type decay; the array types are those that the target and the headers define so. */
  lemma {:induction false} ArgumentDecays(tgt: Target, t: Type)
    ensures var u := Unqualified(t);
      ArgumentType(tgt, t) ==
      if (u.VaList? && tgt.vaListIsArray) || ((u.JmpBuf? || u.SigJmpBuf?) && tgt.jmpBufIsArray) then Decayed(t) else t
    decreases t
  {
    if t.Const? || t.Volatile? || t.Restrict? {
      ArgumentDecays(tgt, t.of);
    }
  }

  /** A signature written with names is decoded to those types, with the arguments decayed and the constants
      marked. */
  lemma SignatureOfNames(tgt: Target, result: Type, params: seq<Parameter>, variadic: bool)
    requires IsNameable(tgt, result) && forall k :: 0 <= k < |params| ==> IsParameter(tgt, params[k])
    ensures var s := TypeName(tgt, result) + (ParameterNames(tgt, params) + if variadic then "." else "");
      DecodeSignature(tgt, s) ==
      Success(Signature(result, seq(|params|, k requires 0 <= k < |params| => ArgumentType(tgt, params[k].ty)),
                        (set k: nat | k < |params| && params[k].constant), variadic))
  {
    var d, ds := DescriptorOf(tgt, result, false), Descriptors(tgt, params);
    PlainDescriptor(tgt, result, d);
    ParametersPrinted(tgt, params, variadic);
    SignatureRoundTrip(tgt, d, ds, variadic);
    ParametersMean(tgt, params, ds);
    ArgumentsOfParameters(tgt, params, Meanings(tgt, ds));
  }

  lemma ParametersMean(tgt: Target, params: seq<Parameter>, ds: seq<Descriptor>)
    requires forall k :: 0 <= k < |params| ==> IsParameter(tgt, params[k])
    requires ds == Descriptors(tgt, params) && AllValid(ds)
    ensures |Meanings(tgt, ds)| == |params|
    ensures forall k :: 0 <= k < |params| ==> Meanings(tgt, ds)[k] == Means(params[k].ty, params[k].constant)
  {
    forall k | 0 <= k < |params|
      ensures DescriptorMeaning(tgt, ds[k]) == Means(params[k].ty, params[k].constant)
    {
      ParameterDescriptor(tgt, params[k], ds[k]);
    }
  }

  lemma ArgumentsOfParameters(tgt: Target, params: seq<Parameter>, ms: seq<Meaning>)
    requires |ms| == |params| && forall k :: 0 <= k < |params| ==> ms[k] == Means(params[k].ty, params[k].constant)
    ensures AllMean(ms)
    ensures ArgumentTypes(tgt, ms) == seq(|params|, k requires 0 <= k < |params| => ArgumentType(tgt, params[k].ty))
    ensures ConstantArguments(ms) == set k: nat | k < |params| && params[k].constant
  {
  }

  // ---------- Integers of given widths and missing headers ----------

  /** The letters that stand for one of int, long and long long, and which one the target means by each. */
  lemma WidthNames(tgt: Target, unsigned: bool, rest: string)
    requires Boundary(rest)
    ensures var u := if unsigned then "U" else "";
      && Decode(tgt, (u + "W") + "i" + rest, true) ==
         Decoded(Means(Integer(unsigned, AtMost3(tgt.int64HowLong)), false), rest)
      && Decode(tgt, (u + "Z") + "i" + rest, true) ==
         Decoded(Means(Integer(unsigned, AtMost3(tgt.int32HowLong)), false), rest)
      && Decode(tgt, (u + "O") + "i" + rest, true) == Decoded(Means(Integer(unsigned, 2), false), rest)
      && Decode(tgt, (u + "N") + "i" + rest, true) ==
         Decoded(Means(Integer(unsigned, if tgt.longIs32 then 1 else 0), false), rest)
  {
    var u := if unsigned then "U" else "";
    WidthPrefix(tgt, u, 'W');
    WidthPrefix(tgt, u, 'Z');
    WidthPrefix(tgt, u, 'O');
    WidthPrefix(tgt, u, 'N');
    WidthName(tgt, u, 'W', Prefix(false, false, unsigned, tgt.int64HowLong, true), rest);
    WidthName(tgt, u, 'Z', Prefix(false, false, unsigned, tgt.int32HowLong, true), rest);
    WidthName(tgt, u, 'O', Prefix(false, false, unsigned, 2, true), rest);
    WidthName(tgt, u, 'N', Prefix(false, false, unsigned, if tgt.longIs32 then 1 else 0, true), rest);
  }

  function AtMost3(n: nat): nat {
    if n <= 3 then n else 0
  }

  lemma WidthPrefix(tgt: Target, u: string, c: char)
    requires u in ["", "U"] && c in ['W', 'Z', 'O', 'N']
    ensures PrefixMeaning(tgt, u + [c]) ==
            Some(Prefix(false, false, u == "U", if c == 'W' then tgt.int64HowLong else if c == 'Z' then tgt.int32HowLong
                                                else if c == 'O' then 2 else if tgt.longIs32 then 1 else 0, true))
  {
    PrefixOf(tgt, u, 0);
    assert u + Longs(0) == u;
    PrefixStep(tgt, u, c);
  }

  lemma WidthName(tgt: Target, u: string, c: char, p: Prefix, rest: string)
    requires Boundary(rest) && u in ["", "U"] && c in ['W', 'Z', 'O', 'N']
    requires PrefixMeaning(tgt, u + [c]) == Some(p) && !p.ice
    ensures Decode(tgt, (u + [c]) + "i" + rest, true) ==
            Decoded(Means(Integer(p.isUnsigned, AtMost3(p.howLong)), false), rest)
  {
    LetterDecodes(tgt, u + [c], 'i', p, rest);
  }

  /** A letter after prefixed modifiers decodes to its meaning. */
  lemma LetterDecodes(tgt: Target, prefix: string, letter: char, p: Prefix, rest: string)
    requires (forall k :: 0 <= k < |prefix| ==> IsPrefixLetter(prefix[k])) && IsTypeLetter(letter) && Boundary(rest)
    requires PrefixMeaning(tgt, prefix) == Some(p)
    ensures var d := Decode(tgt, prefix + [letter] + rest, true);
      && d.meaning == Checked(LetterMeaning(tgt, p, letter))
      && (d.meaning.Means? ==> d.rest == rest)
  {
    var d := Descriptor(Element(prefix, Letter(letter)), []);
    LetterElement(tgt, prefix, letter, p);
    assert Print(d) == prefix + [letter];
    DecodesPrinted(tgt, d, rest);
  }

  /** A type from a header that was not seen is reported as missing, whatever follows it. */
  lemma MissingHeaders(tgt: Target, rest: string)
    requires Boundary(rest)
    ensures !tgt.hasFile ==> Decode(tgt, "" + "P" + rest, true).meaning == Missing(MissingStdio)
    ensures !tgt.hasJmpBuf ==> Decode(tgt, "" + "J" + rest, true).meaning == Missing(MissingSetjmp)
    ensures !tgt.hasSigJmpBuf ==> Decode(tgt, "S" + "J" + rest, true).meaning == Missing(MissingSetjmp)
    ensures !tgt.hasUContext ==> Decode(tgt, "" + "K" + rest, true).meaning == Missing(MissingUContext)
  {
    PrefixOf(tgt, "", 0);
    PrefixOf(tgt, "S", 0);
    assert "" + Longs(0) == "" && "S" + Longs(0) == "S";
    LetterDecodes(tgt, "", 'P', START, rest);
    LetterDecodes(tgt, "", 'J', START, rest);
    LetterDecodes(tgt, "S", 'J', START.(isSigned := true), rest);
    LetterDecodes(tgt, "", 'K', START, rest);
  }
}
