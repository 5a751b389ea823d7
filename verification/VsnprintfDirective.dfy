/** What a single directive prints, read as its text: the value of its argument in the base of its conversion, the
    characters it is made of, its sign, its padding, and the arguments it takes. */
module VsnprintfDirective {
  import opened VsnprintfSpec
  import opened VsnprintfFormat
  import opened VsnprintfReadBack

  // ---------- what the characters of a directive say ----------

  /** The flags that are set by the characters of s, over those in f. */
  function WithFlags(f: FlagSet, s: string): FlagSet {
    FlagSet(f.zero || '0' in s, f.minus || '-' in s, f.plus || '+' in s, f.tick || '\'' in s, f.space || ' ' in s,
            f.hash || '#' in s, f.signed, f.upper)
  }

  /** Every flag character sets one flag, in any order and any number. */
  lemma {:induction false} FlagsSet(f: FlagSet, s: string)
    requires forall i | 0 <= i < |s| :: IsFlag(s[i])
    ensures AllFlags(f, s) == WithFlags(f, s)
    decreases |s|
  {
    hide AllFlags, SetFlag, IsFlag, WithFlags;
    if s == "" {
      NoFlagsYet(f);
    } else {
      assert IsFlag(s[0]);
      FlagsSet(SetFlag(f, s[0]), s[1..]);
      AllFlagsNext(f, s);
      OneFlag(f, s);
    }
  }

  lemma NoFlagsYet(f: FlagSet)
    ensures AllFlags(f, "") == WithFlags(f, "") == f
  {
  }

  lemma OneFlag(f: FlagSet, s: string)
    requires s != "" && IsFlag(s[0])
    ensures WithFlags(SetFlag(f, s[0]), s[1..]) == WithFlags(f, s)
  {
    InHeadOrTail(s, '0');
    InHeadOrTail(s, '-');
    InHeadOrTail(s, '+');
    InHeadOrTail(s, '\'');
    InHeadOrTail(s, ' ');
    InHeadOrTail(s, '#');
    SetFlagSets(f, s[0]);
    hide SetFlag;
  }

  lemma SetFlagSets(f: FlagSet, c: char)
    requires IsFlag(c)
    ensures SetFlag(f, c) == FlagSet(f.zero || c == '0', f.minus || c == '-', f.plus || c == '+', f.tick || c == '\'',
                                     f.space || c == ' ', f.hash || c == '#', f.signed, f.upper)
  {
  }

  lemma InHeadOrTail(s: string, c: char)
    requires s != ""
    ensures c in s <==> s[0] == c || c in s[1..]
  {
    assert s == [s[0]] + s[1..];
  }

  lemma AllFlagsNext(f: FlagSet, s: string)
    requires s != ""
    ensures AllFlags(f, s) == AllFlags(SetFlag(f, s[0]), s[1..])
  {
  }

  /** The number of values of an argument behind these length modifiers. */
  function Values(mods: string): (m: nat)
    ensures m > 0
  {
    Modulus(Canonical(AllMods(RANK_INT, mods)))
  }

  /** The sizes of the modifiers of section 7.19.6.1 of ISO/IEC 9899:1999, with a long of 32 bits, and of q. */
  lemma ModifierSizes()
    ensures Values("hh") == 0x100 && Values("h") == 0x1_0000
    ensures Values("") == Values("l") == Values("z") == Values("t") == 0x1_0000_0000
    ensures Values("ll") == Values("j") == Values("L") == Values("q") == 0x1_0000_0000_0000_0000
  {
    assert "hh"[1..] == "h" && "ll"[1..] == "l";
    OneModifier('h', RANK_INT);
    OneModifier('l', RANK_INT);
    OneModifier('h', RANK_SHORT);
    OneModifier('l', RANK_LONG);
    OneModifier('j', RANK_INT);
    OneModifier('z', RANK_INT);
    OneModifier('t', RANK_INT);
    OneModifier('L', RANK_INT);
    OneModifier('q', RANK_INT);
  }

  lemma OneModifier(c: char, rank: int)
    ensures AllMods(rank, [c]) == NewRank(rank, c)
  {
    assert [c][1..] == "";
  }

  /** The digits of a width or a precision are decimal. */
  lemma {:induction false} DecimalReads(n: nat)
    ensures Parse(Decimal(n), 10) == n
  {
    if n < 10 {
      ParseAppend("", '0' + n as char, 10);
      assert "" + ['0' + n as char] == Decimal(n);
    } else {
      DecimalReads(n / 10);
      ParseAppend(Decimal(n / 10), '0' + (n % 10) as char, 10);
    }
  }

  // ---------- where a directive finds its numbers ----------

  /** The arguments left for precision and conversion. */
  function BehindWidth(p: Piece, args: seq<Arg>): seq<Arg>
    requires p.Directive?
  {
    if p.width == Star then Rest(args) else args
  }

  function Operand(p: Piece, args: seq<Arg>): seq<Arg>
    requires p.Directive?
  {
    var args1 := BehindWidth(p, args);
    if p.prec == Star then Rest(args1) else args1
  }

  /** The field width: a negative argument for a star is one with a minus flag. */
  function Field(p: Piece, args: seq<Arg>): nat
    requires p.Directive?
  {
    match p.width
    case Omitted => 0
    case Given(n) => n
    case Star => if Int(args) < 0 then -Int(args) else Int(args)
  }

  predicate Left(p: Piece, args: seq<Arg>)
    requires p.Directive?
  {
    '-' in p.flags || (p.width == Star && Int(args) < 0)
  }

  /** The precision, -1 if there is none. */
  function Precision(p: Piece, args: seq<Arg>): (n: int)
    requires p.Directive?
    ensures n >= -1
  {
    match p.prec
    case Omitted => -1
    case Given(n) => n
    case Star =>
      var n := Int(BehindWidth(p, args));
      if n < 0 then -1 else n
  }

  function FlagsOf(p: Piece, args: seq<Arg>): FlagSet
    requires p.Directive?
  {
    FlagSet('0' in p.flags, Left(p, args), '+' in p.flags, '\'' in p.flags, ' ' in p.flags, '#' in p.flags,
            false, false)
  }

  /** A format of one directive prints what its conversion makes of flags, width, precision and argument. */
  lemma OneDirective(p: Piece, args: seq<Arg>)
    requires WellFormed(p) && p.Directive?
    ensures Output(TextOf(p), args)
            == Conversion(p.conv, FlagsOf(p, args), AllMods(RANK_INT, p.mods), Field(p, args), Precision(p, args),
                          Operand(p, args)).0
  {
    hide Run, TextOf, Conversion, AllFlags, AllMods, WellFormed;
    assert Format([p]) == TextOf(p) + Format([p][1..]) == TextOf(p);
    OutputIsDenotation([p], args);
    assert Denote([p], args) == Meaning(p, args).0 + Denote([p][1..], Meaning(p, args).1) == Meaning(p, args).0;
    FlagsOfWellFormed(p);
    FlagsSet(NO_FLAGS, p.flags);
  }

  lemma FlagsOfWellFormed(p: Piece)
    requires WellFormed(p) && p.Directive?
    ensures forall i | 0 <= i < |p.flags| :: IsFlag(p.flags[i])
  {
  }

  // ---------- integers ----------

  predicate Integer(c: char) { c in "diouxXpP" }

  function BaseOf(c: char): (b: nat)
    ensures Base(b)
  {
    if c in "xXpP" then 16 else if c == 'o' then 8 else 10
  }

  /** The argument of an integer conversion as the number it stands for: of a signed one the value of the type, of the
      others its residue. */
  predicate StandsFor(x: int, v: int, values: nat, signed: bool)
    requires values > 0
  {
    (x - v) % values == 0 && if signed then -(values as int) <= 2 * x < values else 0 <= x < values
  }

  function ValuesOf(p: Piece): (m: nat)
    requires p.Directive?
    ensures m > 0
  {
    if p.conv in "pP" then 0x1_0000_0000 else Values(p.mods)
  }

  /** d and i read in base 10 as the signed argument of their size, u in base 10, o in base 8 and x, X, p, P in base 16
      as the unsigned one, whatever flags, width and precision are. */
  lemma IntegerReadsBack(p: Piece, args: seq<Arg>)
    requires WellFormed(p) && p.Directive? && Integer(p.conv)
    ensures var text, v := Output(TextOf(p), args), TakeNum(Operand(p, args));
            && (p.conv in "di" ==> StandsFor(ReadBack(text, 10), v, Values(p.mods), true))
            && (p.conv == 'u' ==> StandsFor(ReadBack(text, 10), v, Values(p.mods), false))
            && (p.conv == 'o' ==> StandsFor(ReadBack(text, 8), v, Values(p.mods), false))
            && (p.conv in "xX" ==> StandsFor(ReadBack(text, 16), v, Values(p.mods), false))
            && (p.conv in "pP" ==> StandsFor(ReadBack(text, 16), v, 0x1_0000_0000, false))
  {
    hide Run, TextOf, IntText, ReadBack, AllMods, WellFormed, Operand, Precision, Field, FlagsOf;
    OneDirective(p, args);
    var rank, v := Canonical(AllMods(RANK_INT, p.mods)), TakeNum(Operand(p, args));
    var f, w, prec := FlagsOf(p, args), Field(p, args), Precision(p, args);
    NotSigned(p, args);
    if p.conv in "di" {
      IntTextReadsBack(SignedVal(rank, v), f.(signed := true), 10, w, prec);
      SignedReads(rank, v, f.(signed := true));
    } else if p.conv in "pP" {
      IntTextReadsBack(v % 0x1_0000_0000, f.(upper := p.conv == 'P', hash := true), 16, w, POINTER_DIGITS);
    } else {
      UnsignedReads(rank, v);
      IntTextReadsBack(UnsignedVal(rank, v), f.(upper := p.conv == 'X'), BaseOf(p.conv), w, prec);
    }
  }

  lemma NotSigned(p: Piece, args: seq<Arg>)
    requires p.Directive?
    ensures var f := FlagsOf(p, args); !f.signed && !f.upper && f.(upper := false) == f
  {
  }

  lemma SignedReads(rank: int, v: int, f: FlagSet)
    requires f.signed
    ensures var val := SignedVal(rank, v);
            var x := if Negative(val, f) then -(Magnitude(val, f) as int) else Magnitude(val, f);
            StandsFor(x, v, Modulus(rank), true)
  {
    var m := Modulus(rank);
    var x := SignedOf(v, m);
    assert -(m as int) <= 2 * x < m;
    assert (x - v) % m == 0 by { SignedIsCongruent(v, m); }
    WrappedWide(x);
  }

  lemma SignedIsCongruent(v: int, m: nat)
    requires m > 0
    ensures (SignedOf(v, m) - v) % m == 0
  {
    var q := v / m;
    assert v == q * m + v % m;
    if 2 * (v % m) >= m {
      assert SignedOf(v, m) - v == (-q - 1) * m;
      MultipleOf(-q - 1, m);
    } else {
      assert SignedOf(v, m) - v == (-q) * m;
      MultipleOf(-q, m);
    }
  }

  lemma {:induction false} MultipleOf(q: int, m: nat)
    requires m > 0
    ensures (q * m) % m == 0
  {
    var d, r := q * m / m, q * m % m;
    assert q * m == d * m + r;
    assert r == (q - d) * m;
    NoSmallMultiple(q - d, m);
  }

  lemma NoSmallMultiple(k: int, m: nat)
    requires m > 0
    ensures 0 <= k * m < m ==> k == 0
  {
    if k >= 1 {
      assert k * m >= m;
    } else if k <= -1 {
      assert k * m <= -1 * m;
    }
  }

  lemma UnsignedReads(rank: int, v: int)
    ensures StandsFor(UnsignedVal(rank, v), v, Modulus(rank), false)
  {
    var m := Modulus(rank);
    var q := v / m;
    assert v % m - v == (-q) * m;
    MultipleOf(-q, m);
  }

  // ---------- which characters ----------

  /** No letters but those of hexadecimal digits and their prefix, in the case asked for. */
  predicate Cased(c: char, base: nat, upper: bool) {
    && ('A' <= c <= 'Z' ==> upper && base == 16)
    && ('a' <= c <= 'z' ==> !upper && base == 16)
  }

  predicate AllCased(s: string, base: nat, upper: bool) {
    forall i | 0 <= i < |s| :: Cased(s[i], base, upper)
  }

  lemma {:induction false} TickedCased(v: nat, base: nat, upper: bool, skip: nat, b: nat, d: nat)
    requires Base(base) && skip > 0
    ensures AllCased(Ticked(v, base, upper, skip, b, d), base, upper)
    decreases d
  {
    if d > 0 {
      TickedCased(Shifted(v, base), base, upper, skip, if b == 0 then skip - 1 else b - 1, d - 1);
      CharRoundTrip(upper, Lowest(v, base));
    }
  }

  lemma IntTextCased(val: nat, f: FlagSet, base: nat, width: int, prec: int)
    requires Base(base) && val < UINTMAX
    ensures AllCased(IntText(val, f, base, width, prec), base, f.upper)
  {
    hide Ticked, DigitCount, Skip, Magnitude, Negative;
    var mag := Magnitude(val, f);
    var d := DigitCount(mag, f, base, prec);
    TickedCased(mag, base, f.upper, Skip(f, base, d), Skip(f, base, d), d);
  }

  /** x and p print no upper-case letter, X and P no lower-case one, and the others no letter at all. */
  lemma LettersAreCased(p: Piece, args: seq<Arg>)
    requires WellFormed(p) && p.Directive? && Integer(p.conv)
    ensures var text := Output(TextOf(p), args);
            && (p.conv !in "XP" ==> forall i | 0 <= i < |text| :: !('A' <= text[i] <= 'Z'))
            && (p.conv !in "xp" ==> forall i | 0 <= i < |text| :: !('a' <= text[i] <= 'z'))
  {
    hide Run, TextOf, IntText, AllMods, WellFormed, Operand, Precision, Field, FlagsOf, SignedVal, UnsignedVal;
    OneDirective(p, args);
    NotSigned(p, args);
    var rank, v := Canonical(AllMods(RANK_INT, p.mods)), TakeNum(Operand(p, args));
    var f, w, prec := FlagsOf(p, args), Field(p, args), Precision(p, args);
    IntTextCased(SignedVal(rank, v), f.(signed := true), 10, w, prec);
    IntTextCased(UnsignedVal(rank, v), f.(upper := p.conv == 'X'), BaseOf(p.conv), w, prec);
    IntTextCased(v % 0x1_0000_0000, f.(upper := p.conv == 'P', hash := true), 16, w, POINTER_DIGITS);
  }

  /** Without a width a string prints its characters, a character itself, both up to the precision; any other
      conversion prints its own letter. */
  lemma TextIsPrinted(p: Piece, args: seq<Arg>)
    requires WellFormed(p) && p.Directive? && p.width == Omitted && !Integer(p.conv)
    ensures var text, prec := Output(TextOf(p), args), Precision(p, args);
            if p.conv in "cs" then
              var all := if p.conv == 's' then TakeText(Operand(p, args))
                         else [(TakeNum(Operand(p, args)) % 0x100) as char];
              text == if 0 <= prec < |all| then all[..prec] else all
            else text == if p.conv == 'n' then "" else [p.conv]
  {
    hide Run, TextOf, WellFormed, Operand, Precision, IntText, StringText, AllMods, Canonical, SignedVal, UnsignedVal,
         FlagsOf, Padded;
    OneDirective(p, args);
    if p.conv in "cs" {
      var all := if p.conv == 's' then TakeText(Operand(p, args)) else [(TakeNum(Operand(p, args)) % 0x100) as char];
      StringTextIs(all, FlagsOf(p, args), 0, Precision(p, args));
    }
  }

  lemma StringTextIs(s: string, f: FlagSet, width: nat, prec: int)
    requires prec >= -1
    ensures var shown := if 0 <= prec < |s| then s[..prec] else s;
            && StringText(s, f, 0, prec) == shown
            && Padded(StringText(s, f, width, prec), shown, width - |shown|, f.minus, f.zero, 0)
  {
    var shown := if 0 <= prec < |s| then s[..prec] else s;
    var pad := width - |shown|;
    assert "" + shown + "" == shown;
    assert shown[..0] + Repeat('0', pad) + shown[0..] == Repeat('0', pad) + shown;
    assert Repeat(' ', pad) + shown + "" == Repeat(' ', pad) + shown;
    assert Repeat('0', pad) + shown + "" == Repeat('0', pad) + shown;
    assert "" + shown + Repeat(' ', pad) == shown + Repeat(' ', pad);
  }

  // ---------- sign, prefix and padding ----------

  /** The padding of a text: blanks behind it for -, else zeros behind its first k characters for 0, else blanks in
      front of it. */
  predicate Padded(text: string, bare: string, pad: int, left: bool, zero: bool, k: nat)
    requires k <= |bare|
  {
    text == if left then bare + Repeat(' ', pad)
            else if zero then bare[..k] + Repeat('0', pad) + bare[k..]
            else Repeat(' ', pad) + bare
  }

  lemma IntTextPadded(val: nat, f: FlagSet, base: nat, width: nat, prec: int)
    requires Base(base) && val < UINTMAX
    ensures var core := Sign(val, f) + Prefix(f, base) + Number(Magnitude(val, f), f, base, prec);
            && IntText(val, f, base, 0, prec) == core
            && Padded(IntText(val, f, base, width, prec), core, width - |core|, f.minus, f.zero,
                      |Sign(val, f)| + |Prefix(f, base)|)
  {
    hide Number, Sign, Prefix, Magnitude;
    var sign, prefix, number := Sign(val, f), Prefix(f, base), Number(Magnitude(val, f), f, base, prec);
    var core := sign + prefix + number;
    var pad := width - |core|;
    assert core[..|sign| + |prefix|] == sign + prefix && core[|sign| + |prefix|..] == number;
    assert "" + sign + prefix + "" + number + "" == core;
    assert "" + sign + prefix + "" + number + Repeat(' ', pad) == core + Repeat(' ', pad);
    assert "" + sign + prefix + Repeat('0', pad) + number + "" == (sign + prefix) + Repeat('0', pad) + number;
    assert Repeat(' ', pad) + sign + prefix + "" + number + "" == Repeat(' ', pad) + core;
  }

  /** How many characters come before the digits of an integer: a sign or blank, and 0x. */
  function Front(p: Piece, bare: string): nat
    requires p.Directive?
  {
    (if bare != "" && bare[0] in "+- " then 1 else 0)
    + if p.conv in "pP" || (p.conv in "xX" && '#' in p.flags) then 2 else 0
  }

  /** The same directive without its width, and the arguments that are left for it. */
  function Bare(p: Piece, args: seq<Arg>): string
    requires p.Directive?
  {
    Output(TextOf(p.(width := Omitted)), BehindWidth(p, args))
  }

  /** What an integer directive hands to the converter. */
  function ValueOf(p: Piece, args: seq<Arg>): (val: nat)
    requires p.Directive? && Integer(p.conv)
    ensures val < UINTMAX
  {
    var rank, v := Canonical(AllMods(RANK_INT, p.mods)), TakeNum(Operand(p, args));
    if p.conv in "di" then SignedVal(rank, v) else if p.conv in "pP" then v % 0x1_0000_0000 else UnsignedVal(rank, v)
  }

  function IntFlags(p: Piece, left: bool): FlagSet
    requires p.Directive?
  {
    FlagSet('0' in p.flags, left, '+' in p.flags, '\'' in p.flags, ' ' in p.flags, '#' in p.flags || p.conv in "pP",
            p.conv in "di", p.conv in "XP")
  }

  function IntPrecision(p: Piece, args: seq<Arg>): int
    requires p.Directive?
  {
    if p.conv in "pP" then 8 else Precision(p, args)
  }

  lemma IntDirective(p: Piece, args: seq<Arg>)
    requires WellFormed(p) && p.Directive? && Integer(p.conv)
    ensures Output(TextOf(p), args)
            == IntText(ValueOf(p, args), IntFlags(p, Left(p, args)), BaseOf(p.conv), Field(p, args),
                       IntPrecision(p, args))
  {
    hide Run, TextOf, IntText, AllMods, WellFormed, Operand, Precision, Field, SignedVal, UnsignedVal, Left;
    OneDirective(p, args);
  }

  lemma WithoutWidth(p: Piece, args: seq<Arg>)
    requires WellFormed(p) && p.Directive?
    ensures var q, rest := p.(width := Omitted), BehindWidth(p, args);
            && WellFormed(q) && Field(q, rest) == 0 && Precision(q, rest) == Precision(p, args)
            && Operand(q, rest) == Operand(p, args) && (Left(q, rest) ==> Left(p, args))
  {
  }

  lemma BareInteger(p: Piece, args: seq<Arg>)
    requires WellFormed(p) && p.Directive? && Integer(p.conv)
    ensures var f, val, b := IntFlags(p, Left(p, args)), ValueOf(p, args), BaseOf(p.conv);
            && Bare(p, args) == Sign(val, f) + Prefix(f, b) + Number(Magnitude(val, f), f, b, IntPrecision(p, args))
            && Front(p, Bare(p, args)) == |Sign(val, f)| + |Prefix(f, b)| <= |Bare(p, args)|
  {
    hide Run, TextOf, IntText, AllMods, WellFormed, Operand, Precision, Field, SignedVal, UnsignedVal, Left, Number,
         Magnitude, Digits;
    var q, rest := p.(width := Omitted), BehindWidth(p, args);
    var f, g, val, b := IntFlags(p, Left(p, args)), IntFlags(q, Left(q, rest)), ValueOf(p, args), BaseOf(p.conv);
    var prec := IntPrecision(p, args);
    WithoutWidth(p, args);
    IntDirective(q, rest);
    IntTextPadded(val, g, b, 0, prec);
    hide ValueOf, BaseOf, IntPrecision;
    MinusAside(val, f, g, b, prec);
    NumberStartsWithDigit(Magnitude(val, f), f, b, prec);
    FrontIs(p, f, val, b, Number(Magnitude(val, f), f, b, prec));
  }

  lemma FrontIs(p: Piece, f: FlagSet, val: nat, base: nat, number: string)
    requires p.Directive? && Integer(p.conv) && base == BaseOf(p.conv) && f == IntFlags(p, f.minus)
    requires number != "" && number[0] !in "+- "
    ensures var bare := Sign(val, f) + Prefix(f, base) + number;
            Front(p, bare) == |Sign(val, f)| + |Prefix(f, base)| <= |bare|
  {
    hide Negative;
    var bare := Sign(val, f) + Prefix(f, base) + number;
    assert Sign(val, f) == "" && Prefix(f, base) == "" ==> bare[0] == number[0];
  }

  /** The minus flag changes nothing but the padding. */
  lemma MinusAside(val: nat, f: FlagSet, g: FlagSet, base: nat, prec: int)
    requires Base(base) && val < UINTMAX && g == f.(minus := g.minus)
    ensures Sign(val, f) == Sign(val, g) && Prefix(f, base) == Prefix(g, base)
    ensures Magnitude(val, f) == Magnitude(val, g)
    ensures Number(Magnitude(val, f), f, base, prec) == Number(Magnitude(val, g), g, base, prec)
  {
  }

  lemma NumberStartsWithDigit(mag: nat, f: FlagSet, base: nat, prec: int)
    requires Base(base)
    ensures var n := Number(mag, f, base, prec); n != "" && n[0] !in "+- "
  {
    hide DigitCount, Skip;
    NumberIsDigits(mag, f, base, prec);
    assert DigitOrTick(Number(mag, f, base, prec)[0]);
  }

  /** Where the padding of a field stands, with or without - and 0. */
  lemma PaddingStands(p: Piece, args: seq<Arg>)
    requires WellFormed(p) && p.Directive? && (Integer(p.conv) || p.conv in "cs")
    ensures var text, bare := Output(TextOf(p), args), Bare(p, args);
            var k := if Integer(p.conv) then Front(p, bare) else 0;
            k <= |bare| && Padded(text, bare, Field(p, args) - |bare|, Left(p, args), '0' in p.flags, k)
  {
    hide Run, TextOf, IntText, AllMods, WellFormed, Operand, Precision, Field, SignedVal, UnsignedVal, Left, Number,
         Magnitude, Sign, Prefix, StringText, Padded, Front, ValueOf, Bare;
    if Integer(p.conv) {
      BareInteger(p, args);
      IntDirective(p, args);
      IntTextPadded(ValueOf(p, args), IntFlags(p, Left(p, args)), BaseOf(p.conv), Field(p, args),
                    IntPrecision(p, args));
    } else {
      BareText(p, args);
      OneDirective(p, args);
      var all := if p.conv == 's' then TakeText(Operand(p, args)) else [(TakeNum(Operand(p, args)) % 0x100) as char];
      StringTextIs(all, FlagsOf(p, args), Field(p, args), Precision(p, args));
    }
  }

  lemma BareText(p: Piece, args: seq<Arg>)
    requires WellFormed(p) && p.Directive? && p.conv in "cs"
    ensures var all := if p.conv == 's' then TakeText(Operand(p, args))
                       else [(TakeNum(Operand(p, args)) % 0x100) as char];
            var prec := Precision(p, args);
            Bare(p, args) == if 0 <= prec < |all| then all[..prec] else all
  {
    hide Run, TextOf, Operand, Precision, Field, Left;
    WithoutWidth(p, args);
    TextIsPrinted(p.(width := Omitted), BehindWidth(p, args));
  }

  /** The sign of an integer: a minus exactly for a negative one, else + or a blank as asked for, + before the blank. */
  lemma SignStands(p: Piece, args: seq<Arg>)
    requires WellFormed(p) && p.Directive? && Integer(p.conv)
    ensures var bare := Bare(p, args);
            var x := ReadBack(bare, BaseOf(p.conv));
            && bare != "" && (bare[0] == '-' <==> x < 0)
            && (x >= 0 ==> if '+' in p.flags then bare[0] == '+'
                           else if ' ' in p.flags then bare[0] == ' ' else bare[0] !in "+- ")
            && (p.conv == 'p' || (p.conv == 'x' && '#' in p.flags) ==>
                  |bare| > Front(p, bare) && bare[Front(p, bare) - 2..Front(p, bare)] == "0x")
            && (p.conv == 'P' || (p.conv == 'X' && '#' in p.flags) ==>
                  |bare| > Front(p, bare) && bare[Front(p, bare) - 2..Front(p, bare)] == "0X")
  {
    hide Run, TextOf, IntText, AllMods, WellFormed, Operand, Precision, Field, SignedVal, UnsignedVal, Left, Number,
         ValueOf, Bare, ReadBack, Front, Digits;
    var f, val, b := IntFlags(p, Left(p, args)), ValueOf(p, args), BaseOf(p.conv);
    var prec := IntPrecision(p, args);
    BareInteger(p, args);
    IntTextPadded(val, f, b, 0, prec);
    IntTextReadsBack(val, f, b, 0, prec);
    var number := Number(Magnitude(val, f), f, b, prec);
    NumberStartsWithDigit(Magnitude(val, f), f, b, prec);
    var bare, k := Bare(p, args), Front(p, Bare(p, args));
    if Prefix(f, b) != "" {
      assert bare[k - 2..k] == Prefix(f, b);
    }
  }

  // ---------- how many digits ----------

  function Power(base: nat, n: nat): nat {
    if n == 0 then 1 else base * Power(base, n - 1)
  }

  lemma {:induction false} CountIsLeast(v: nat, base: nat)
    requires Base(base)
    ensures v < Power(base, Count(v, base))
    ensures v > 0 ==> Power(base, Count(v, base) - 1) <= v
    decreases v
  {
    if v > 0 {
      var w := Shifted(v, base);
      CountIsLeast(w, base);
      DivMod(v, base);
      hide Shifted, Lowest;
      var c := Count(w, base);
      Times(base, w + 1, Power(base, c));
      if w > 0 { Times(base, Power(base, c - 1), w); }
    }
  }

  lemma Times(b: nat, x: nat, y: nat)
    requires x <= y
    ensures b * x <= b * y
  {
  }

  /** Ticks aside, the digits are as many as the precision asks for, and no more than the value needs beyond that: at
      least one, and for # in octal one more than the value has. */
  lemma DigitsStand(p: Piece, args: seq<Arg>)
    requires WellFormed(p) && p.Directive? && Integer(p.conv)
    ensures var bare, prec, b := Bare(p, args), IntPrecision(p, args), BaseOf(p.conv);
            Front(p, bare) <= |bare| &&
            var digits := Strip(bare[Front(p, bare)..]);
            var d, v := |digits|, Parse(digits, b);
            var more := if p.conv == 'o' && '#' in p.flags then 1 else 0;
            && 1 <= d && prec <= d && v < Power(b, d)
            && (v > 0 ==> d > more && v < Power(b, d - more) && (d > prec ==> v >= Power(b, d - more - 1)))
            && (v == 0 && d > prec ==> d == 1)
  {
    hide Run, TextOf, IntText, AllMods, WellFormed, Operand, Precision, Field, SignedVal, UnsignedVal, Left, Number,
         ValueOf, Bare, Front, Parse, Strip, Magnitude, Sign, Prefix, Count, Power;
    var f, val, b := IntFlags(p, Left(p, args)), ValueOf(p, args), BaseOf(p.conv);
    var prec := IntPrecision(p, args);
    BareInteger(p, args);
    var mag, bare := Magnitude(val, f), Bare(p, args);
    assert bare[Front(p, bare)..] == Number(mag, f, b, prec);
    NumberParsesBack(val, f, b, prec);
    CountIsLeast(mag, b);
    CountOfZero(mag, b);
    PowerGrows(b, Count(mag, b), DigitCount(mag, f, b, prec));
    if DigitCount(mag, f, b, prec) > Count(mag, b) {
      PowerGrows(b, Count(mag, b), DigitCount(mag, f, b, prec) - 1);
    }
  }

  lemma CountOfZero(v: nat, base: nat)
    requires Base(base)
    ensures Count(v, base) == 0 <==> v == 0
  {
  }

  lemma {:induction false} PowerGrows(base: nat, m: nat, n: nat)
    requires Base(base) && m <= n
    ensures Power(base, m) <= Power(base, n)
    decreases n
  {
    if m < n {
      PowerGrows(base, m, n - 1);
      Times(Power(base, n - 1), 1, base);
    }
  }

  /** Ticks separate groups of three digits, in hexadecimal of four, counted from the right, or there are none. */
  predicate Grouped(s: string, base: nat, tick: bool) {
    forall i | 0 <= i < |s| ::
      s[i] == '_' <==> tick && if base == 16 then (|s| - 1 - i) % 5 == 4 else (|s| - 1 - i) % 4 == 3
  }

  /** Only the tick flag brings them about. */
  lemma TicksStand(p: Piece, args: seq<Arg>)
    requires WellFormed(p) && p.Directive? && Integer(p.conv)
    ensures var bare := Bare(p, args);
            Front(p, bare) <= |bare| && Grouped(bare[Front(p, bare)..], BaseOf(p.conv), '\'' in p.flags)
  {
    hide Run, TextOf, IntText, AllMods, WellFormed, Operand, Precision, Field, SignedVal, UnsignedVal, Left,
         ValueOf, Bare, Front, Magnitude, Sign, Prefix, Number, Grouped;
    var f, val, b := IntFlags(p, Left(p, args)), ValueOf(p, args), BaseOf(p.conv);
    var prec := IntPrecision(p, args);
    BareInteger(p, args);
    var mag, bare := Magnitude(val, f), Bare(p, args);
    assert bare[Front(p, bare)..] == Number(mag, f, b, prec);
    NumberGrouped(mag, f, b, prec);
  }

  lemma NumberGrouped(mag: nat, f: FlagSet, base: nat, prec: int)
    requires Base(base)
    ensures Grouped(Number(mag, f, base, prec), base, f.tick)
  {
    hide Ticked, DigitCount;
    var number, d := Number(mag, f, base, prec), DigitCount(mag, f, base, prec);
    forall i | 0 <= i < |number|
      ensures number[i] == '_' <==>
              f.tick && if base == 16 then (|number| - 1 - i) % 5 == 4 else (|number| - 1 - i) % 4 == 3
    {
      if f.tick {
        var skip := if base == 16 then 4 else 3;
        TicksAreEverySkip(mag, base, f.upper, skip, skip, d, |number| - 1 - i);
      } else {
        NoTicks(mag, base, f.upper, d, d, d, i);
      }
    }
  }

  lemma {:induction false} NoTicks(v: nat, base: nat, upper: bool, skip: nat, b: nat, d: nat, i: nat)
    requires Base(base) && skip > 0 && d <= b && i < |Ticked(v, base, upper, skip, b, d)|
    ensures Ticked(v, base, upper, skip, b, d)[i] != '_'
    decreases d
  {
    hide Shifted, Lowest, DigitChar;
    if d > 0 {
      CharRoundTrip(upper, Lowest(v, base));
      if i < |Ticked(Shifted(v, base), base, upper, skip, b - 1, d - 1)| {
        NoTicks(Shifted(v, base), base, upper, skip, b - 1, d - 1, i);
      }
    }
  }

  // ---------- which arguments ----------

  /** A directive takes one argument for every star and one for its conversion, unless that is none. */
  lemma ArgumentsTaken(p: Piece, args: seq<Arg>)
    requires WellFormed(p) && p.Directive?
    ensures var k := (if p.width == Star then 1 else 0) + (if p.prec == Star then 1 else 0)
                     + if p.conv in "diouxXpPcsn" then 1 else 0;
            Meaning(p, args).1 == if k <= |args| then args[k..] else []
  {
    hide IntText, StringText, AllFlags, AllMods, SignedVal, UnsignedVal, Canonical, SignedOf, TakeText, TakeNum;
  }
}
