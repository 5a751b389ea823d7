/** What vsnprintf would print into an unbounded buffer: integers, strings, and the directive state machine. */
module VsnprintfSpec {

  const UINTMAX: nat := 0x1_0000_0000_0000_0000

  const RANK_CHAR := -2
  const RANK_SHORT := -1
  const RANK_INT := 0
  const RANK_LONG := 1
  const RANK_LONGLONG := 2

  // 32-bit pointers: (CHAR_BIT * sizeof(void *) + 3) / 4 digits.
  const POINTER_DIGITS: nat := 8

  datatype FlagSet = FlagSet(zero: bool, minus: bool, plus: bool, tick: bool, space: bool, hash: bool,
                             signed: bool, upper: bool)

  const NO_FLAGS := FlagSet(false, false, false, false, false, false, false, false)

  datatype Arg = Num(v: int) | Text(s: string) | Null

  predicate Base(b: nat) { b == 8 || b == 10 || b == 16 }

  // ---------- digits ----------

  function DigitChar(upper: bool, d: nat): char
    requires d < 16
  {
    if d < 10 then '0' + d as char else (if upper then 'A' else 'a') + (d - 10) as char
  }

  function DigitValue(c: char): nat {
    if '0' <= c <= '9' then (c - '0') as nat
    else if 'A' <= c <= 'F' then 10 + (c - 'A') as nat
    else if 'a' <= c <= 'f' then 10 + (c - 'a') as nat
    else 0
  }

  function Shifted(v: nat, base: nat): (r: nat)
    requires Base(base)
    ensures r <= v && (v > 0 ==> r < v)
  {
    v / base
  }

  function Lowest(v: nat, base: nat): (d: nat)
    requires Base(base)
    ensures d < base
  {
    v % base
  }

  /** The number of digits of v, zero for zero. */
  function Count(v: nat, base: nat): nat
    requires Base(base)
  {
    if v == 0 then 0 else 1 + Count(Shifted(v, base), base)
  }

  /** The d lowest digits of v, with a tick in front of the digit that follows b more digits (counted from the right)
      and of every skip-th digit after that. */
  function Ticked(v: nat, base: nat, upper: bool, skip: nat, b: nat, d: nat): string
    requires Base(base) && skip > 0
    decreases d
  {
    if d == 0 then ""
    else if b == 0 then Ticked(Shifted(v, base), base, upper, skip, skip - 1, d - 1)
      + [DigitChar(upper, Lowest(v, base))] + "_"
    else Ticked(Shifted(v, base), base, upper, skip, b - 1, d - 1) + [DigitChar(upper, Lowest(v, base))]
  }

  function Strip(s: string): string {
    if s == "" then "" else Strip(s[..|s| - 1]) + (if s[|s| - 1] == '_' then "" else [s[|s| - 1]])
  }

  function Parse(s: string, base: nat): nat {
    if s == "" then 0 else base * Parse(s[..|s| - 1], base) + DigitValue(s[|s| - 1])
  }

  /** Ticks are set every three or four digits, or not at all. */
  predicate Spacing(skip: nat, b: nat, d: nat) {
    b <= skip && (skip == 3 || skip == 4 || (0 < skip && d <= b))
  }

  lemma {:induction false} TickedLength(v: nat, base: nat, upper: bool, skip: nat, b: nat, d: nat)
    requires Base(base) && Spacing(skip, b, d)
    ensures |Ticked(v, base, upper, skip, b, d)|
            == d + if d <= b then 0 else 1 + (if skip == 4 then (d - b - 1) / 4 else (d - b - 1) / 3)
    decreases d
  {
    hide Shifted, Lowest, DigitChar;
    if d > 0 {
      TickedLength(Shifted(v, base), base, upper, skip, if b == 0 then skip - 1 else b - 1, d - 1);
    }
  }

  /** Counted from the right, a tick stands behind b digits and then behind every group of skip digits. */
  predicate TickPosition(skip: nat, b: nat, t: nat) {
    t >= b && (if skip == 4 then (t - b) % 5 == 0 else (t - b) % 4 == 0)
  }

  lemma TickPositionBack(skip: nat, b: nat, t: nat)
    requires (skip == 3 || skip == 4) && b <= skip
    ensures b > 0 ==> (TickPosition(skip, b, t) <==> t > 0 && TickPosition(skip, b - 1, t - 1))
    ensures b == 0 ==> (TickPosition(skip, b, t) <==> t == 0 || (t > 1 && TickPosition(skip, skip - 1, t - 2)))
  {
  }

  /** Ticks separate groups of exactly three or four digits, counted from the right. */
  lemma {:induction false} TicksAreEverySkip(v: nat, base: nat, upper: bool, skip: nat, b: nat, d: nat, t: nat)
    requires Base(base) && (skip == 3 || skip == 4) && b <= skip
    requires t < |Ticked(v, base, upper, skip, b, d)|
    ensures var s := Ticked(v, base, upper, skip, b, d); s[|s| - 1 - t] == '_' <==> TickPosition(skip, b, t)
    decreases d
  {
    hide Shifted, Lowest, DigitChar, TickPosition;
    TickPositionBack(skip, b, t);
    CharRoundTrip(upper, Lowest(v, base));
    if b == 0 && t >= 2 {
      TicksAreEverySkip(Shifted(v, base), base, upper, skip, skip - 1, d - 1, t - 2);
    } else if b > 0 && t >= 1 {
      TicksAreEverySkip(Shifted(v, base), base, upper, skip, b - 1, d - 1, t - 1);
    }
  }

  lemma DivMod(v: nat, base: nat)
    requires Base(base)
    ensures base * Shifted(v, base) + Lowest(v, base) == v
  {
  }

  lemma StripAppend(s: string, c: char)
    ensures Strip(s + [c]) == Strip(s) + (if c == '_' then "" else [c])
  {
    assert (s + [c])[..|s|] == s;
  }

  lemma ParseAppend(s: string, c: char, base: nat)
    ensures Parse(s + [c], base) == base * Parse(s, base) + DigitValue(c)
  {
    assert (s + [c])[..|s|] == s;
  }

  /** Ticks aside, the digits parse back to the value, whatever precision asked for, as long as there are enough. */
  lemma {:induction false} DigitsParseBack(v: nat, base: nat, upper: bool, skip: nat, b: nat, d: nat)
    requires Base(base) && 0 < skip && d >= Count(v, base)
    ensures var s := Strip(Ticked(v, base, upper, skip, b, d)); |s| == d && Parse(s, base) == v
    decreases d
  {
    hide Strip, Parse, DigitValue, DigitChar, Shifted, Lowest;
    if d == 0 {
      StripParseEmpty(base);
    } else {
      var b' := if b == 0 then skip - 1 else b - 1;
      var rest, c := Ticked(Shifted(v, base), base, upper, skip, b', d - 1), DigitChar(upper, Lowest(v, base));
      DigitsParseBack(Shifted(v, base), base, upper, skip, b', d - 1);
      CharRoundTrip(upper, Lowest(v, base));
      StripAppend(rest, c);
      StripAppend(rest + [c], '_');
      assert Strip(rest + [c] + ['_']) == Strip(rest + [c]) + "" == Strip(rest) + [c];
      assert Strip(Ticked(v, base, upper, skip, b, d)) == Strip(rest) + [c];
      ParseAppend(Strip(rest), c, base);
      DivMod(v, base);
    }
  }

  lemma StripParseEmpty(base: nat)
    ensures Strip("") == "" && Parse("", base) == 0
  {
  }

  lemma CharRoundTrip(upper: bool, d: nat)
    requires d < 16
    ensures DigitValue(DigitChar(upper, d)) == d && DigitChar(upper, d) != '_'
    ensures DigitChar(upper, d) == (if upper then "0123456789ABCDEF" else "0123456789abcdef")[d]
  {
  }

  // ---------- integers ----------

  function Repeat(c: char, k: int): (s: string)
    ensures |s| == if k > 0 then k else 0
    ensures forall i | 0 <= i < |s| :: s[i] == c
  {
    if k <= 0 then "" else seq(k, i => c)
  }

  predicate Negative(val: nat, f: FlagSet) { f.signed && 2 * val >= UINTMAX }

  function Magnitude(val: nat, f: FlagSet): nat
    requires val < UINTMAX
  {
    if Negative(val, f) then UINTMAX - val else val
  }

  /** How many digits are printed: at least the precision, one more than needed for # in octal, and one for zero. */
  function DigitCount(mag: nat, f: FlagSet, base: nat, prec: int): (d: nat)
    requires Base(base)
    ensures d > 0 && d >= Count(mag, base)
  {
    var nd := Count(mag, base);
    var p := if f.hash && base == 8 && prec < nd + 1 then nd + 1 else prec;
    if nd < p then p else if mag == 0 then 1 else nd
  }

  function Skip(f: FlagSet, base: nat, d: nat): (s: nat)
    requires d > 0
    ensures s > 0
  {
    if f.tick then (if base == 16 then 4 else 3) else d
  }

  function Number(mag: nat, f: FlagSet, base: nat, prec: int): string
    requires Base(base)
  {
    var d := DigitCount(mag, f, base, prec);
    var skip := Skip(f, base, d);
    Ticked(mag, base, f.upper, skip, skip, d)
  }

  function Sign(val: nat, f: FlagSet): string {
    if Negative(val, f) then "-" else if f.plus then "+" else if f.space then " " else ""
  }

  function Prefix(f: FlagSet, base: nat): string {
    if f.hash && base == 16 then (if f.upper then "0X" else "0x") else ""
  }

  /** An integer conversion: padding in front unless - or 0, sign, 0x, zero padding for 0 without -, the digits,
      padding behind for -. */
  function IntText(val: nat, f: FlagSet, base: nat, width: int, prec: int): string
    requires Base(base) && val < UINTMAX
  {
    var number := Number(Magnitude(val, f), f, base, prec);
    var sign, prefix := Sign(val, f), Prefix(f, base);
    var pad := width - (|sign| + |prefix| + |number|);
    Repeat(' ', if !f.minus && !f.zero then pad else 0) + sign + prefix
    + Repeat('0', if f.zero && !f.minus then pad else 0) + number
    + Repeat(' ', if f.minus then pad else 0)
  }

  function Max(a: int, b: int): int { if a > b then a else b }

  /** The length of a conversion, counted without looking at any character of it. */
  lemma IntTextLength(val: nat, f: FlagSet, base: nat, width: int, prec: int)
    requires Base(base) && val < UINTMAX
    ensures var mag := Magnitude(val, f);
            var d := DigitCount(mag, f, base, prec);
            var ticks := if f.tick then (d - 1) / (if base == 16 then 4 else 3) else 0;
            |IntText(val, f, base, width, prec)|
            == Max(width, |Sign(val, f)| + |Prefix(f, base)| + d + ticks)
  {
    hide Ticked, Count, DigitCount, Sign, Prefix, Magnitude;
    var mag := Magnitude(val, f);
    var d := DigitCount(mag, f, base, prec);
    var skip := Skip(f, base, d);
    TickedLength(mag, base, f.upper, skip, skip, d);
  }

  /** The number read back from the digits is the magnitude, also across the zeros that pad it. */
  lemma NumberParsesBack(val: nat, f: FlagSet, base: nat, prec: int)
    requires Base(base) && val < UINTMAX
    ensures Parse(Strip(Number(Magnitude(val, f), f, base, prec)), base) == Magnitude(val, f)
    ensures |Strip(Number(Magnitude(val, f), f, base, prec))| == DigitCount(Magnitude(val, f), f, base, prec)
  {
    var mag := Magnitude(val, f);
    var d := DigitCount(mag, f, base, prec);
    var skip := Skip(f, base, d);
    DigitsParseBack(mag, base, f.upper, skip, skip, d);
  }

  /** Zero with precision 0 prints one 0 here, where section 7.19.6.1 of ISO/IEC 9899:1999 asks for no characters. */
  lemma ZeroWithPrecisionZero(f: FlagSet, base: nat)
    requires Base(base) && !f.hash && !f.plus && !f.space
    ensures IntText(0, f, base, 0, 0) == "0"
  {
    assert Ticked(0, base, f.upper, Skip(f, base, 1), Skip(f, base, 1), 1) == "0";
  }

  // ---------- arguments ----------

  /** The number of values of an integer argument of this rank; long has 32 bits. */
  function Modulus(rank: int): nat {
    if rank == RANK_CHAR then 0x100 else if rank == RANK_SHORT then 0x1_0000
    else if rank == RANK_LONGLONG then UINTMAX else 0x1_0000_0000
  }

  function SignedOf(v: int, modulus: nat): int
    requires modulus > 0
  {
    var u := v % modulus;
    if 2 * u >= modulus then u - modulus else u
  }

  // A missing argument, or one of the wrong kind, is undefined in C; here it reads as zero or the empty string.
  function TakeNum(args: seq<Arg>): int {
    if args != [] && args[0].Num? then args[0].v else 0
  }

  function TakeText(args: seq<Arg>): string {
    if args == [] then "" else match args[0] case Text(s) => s case Null => "(null)" case Num(_) => ""
  }

  function Rest(args: seq<Arg>): seq<Arg> {
    if args == [] then [] else args[1..]
  }

  function SignedVal(rank: int, v: int): (r: nat)
    ensures r < UINTMAX
  {
    SignedOf(v, Modulus(rank)) % UINTMAX
  }

  function UnsignedVal(rank: int, v: int): (r: nat)
    ensures r < UINTMAX
  {
    v % Modulus(rank)
  }

  lemma Wrapped(v: int)
    ensures -0x100 <= 2 * v < 0x100 ==> v % 0x100 == if v < 0 then v + 0x100 else v
    ensures -0x1_0000 <= 2 * v < 0x1_0000 ==> v % 0x1_0000 == if v < 0 then v + 0x1_0000 else v
  {
  }

  lemma WrappedWide(v: int)
    ensures -0x1_0000_0000 <= 2 * v < 0x1_0000_0000 ==> v % 0x1_0000_0000 == if v < 0 then v + 0x1_0000_0000 else v
    ensures -0x1_0000_0000_0000_0000 <= 2 * v < 0x1_0000_0000_0000_0000
            ==> v % 0x1_0000_0000_0000_0000 == if v < 0 then v + 0x1_0000_0000_0000_0000 else v
  {
  }

  /** A signed argument in the range of its type is printed with its own sign and magnitude. */
  lemma SignedArgumentIsPrinted(rank: int, v: int, f: FlagSet)
    requires f.signed && -(Modulus(rank) as int) <= 2 * v < Modulus(rank)
    ensures var val := SignedVal(rank, v);
            && (Negative(val, f) <==> v < 0)
            && Magnitude(val, f) == if v < 0 then -v else v
  {
    Wrapped(v);
    WrappedWide(v);
  }

  // ---------- the state machine ----------

  datatype State = Normal | Flags | Width | Prec | Modifiers

  datatype Machine = Machine(state: State, flags: FlagSet, rank: int, width: nat, prec: int)

  datatype Effect = Effect(m: Machine, out: string, args: seq<Arg>, again: bool)

  const START := Machine(Normal, NO_FLAGS, RANK_INT, 0, -1)

  function SetFlag(f: FlagSet, ch: char): FlagSet {
    match ch
    case '-' => f.(minus := true)
    case '+' => f.(plus := true)
    case '\'' => f.(tick := true)
    case ' ' => f.(space := true)
    case '#' => f.(hash := true)
    case '0' => f.(zero := true)
    case _ => f
  }

  predicate IsFlag(ch: char) { ch in "-+' #0" }
  predicate IsDigit(ch: char) { '0' <= ch <= '9' }
  predicate IsModifier(ch: char) { ch in "hljztLq" }

  function NewRank(rank: int, ch: char): int {
    match ch
    case 'h' => rank - 1
    case 'l' => rank + 1
    case 'j' => RANK_LONGLONG
    case 'z' => RANK_LONG
    case 't' => RANK_LONG
    case _ => rank + 2
  }

  function Canonical(rank: int): int {
    if rank < RANK_CHAR then RANK_CHAR else if rank > RANK_LONGLONG then RANK_LONGLONG else rank
  }

  function StringText(s: string, f: FlagSet, width: int, prec: int): string
    requires prec >= -1
  {
    var shown := if prec != -1 && |s| > prec then s[..prec] else s;
    var pad := width - |shown|;
    Repeat(if f.zero then '0' else ' ', if f.minus then 0 else pad) + shown + Repeat(' ', if f.minus then pad else 0)
  }

  /** What a conversion prints, and the arguments it leaves. %n prints nothing; what it stores is not modelled. */
  function Conversion(ch: char, f: FlagSet, rank0: int, width: nat, prec: int, args: seq<Arg>): (string, seq<Arg>) {
    var rank := Canonical(rank0);
    var a := TakeNum(args);
    match ch
    case 'P' => (IntText(a % 0x1_0000_0000, f.(upper := true, hash := true), 16, width, POINTER_DIGITS), Rest(args))
    case 'p' => (IntText(a % 0x1_0000_0000, f.(hash := true), 16, width, POINTER_DIGITS), Rest(args))
    case 'd' => (IntText(SignedVal(rank, a), f.(signed := true), 10, width, prec), Rest(args))
    case 'i' => (IntText(SignedVal(rank, a), f.(signed := true), 10, width, prec), Rest(args))
    case 'o' => (IntText(UnsignedVal(rank, a), f, 8, width, prec), Rest(args))
    case 'u' => (IntText(UnsignedVal(rank, a), f, 10, width, prec), Rest(args))
    case 'X' => (IntText(UnsignedVal(rank, a), f.(upper := true), 16, width, prec), Rest(args))
    case 'x' => (IntText(UnsignedVal(rank, a), f, 16, width, prec), Rest(args))
    case 'c' => (if prec < -1 then "" else StringText([(a % 0x100) as char], f, width, prec), Rest(args))
    case 's' => (if prec < -1 then "" else StringText(TakeText(args), f, width, prec), Rest(args))
    case 'n' => ("", Rest(args))
    case _ => ([ch], args)
  }

  /** One turn of the loop over the format; `again` means that the same character is looked at once more. */
  function Step(m: Machine, ch: char, args: seq<Arg>): Effect {
    match m.state
    case Normal =>
      if ch == '%' then Effect(Machine(Flags, NO_FLAGS, RANK_INT, 0, -1), "", args, false)
      else Effect(m, [ch], args, false)
    case Flags =>
      if IsFlag(ch) then Effect(m.(flags := SetFlag(m.flags, ch)), "", args, false)
      else Effect(m.(state := Width), "", args, true)
    case Width =>
      if IsDigit(ch) then Effect(m.(width := m.width * 10 + (ch - '0') as nat), "", args, false)
      else if ch == '*' then
        var w := SignedOf(TakeNum(args), 0x1_0000_0000);
        Effect(if w < 0 then m.(width := -w, flags := m.flags.(minus := true)) else m.(width := w), "", Rest(args),
          false)
      else if ch == '.' then Effect(m.(state := Prec, prec := 0), "", args, false)
      else Effect(m.(state := Modifiers), "", args, true)
    case Prec =>
      if IsDigit(ch) then Effect(m.(prec := m.prec * 10 + (ch - '0') as nat), "", args, false)
      else if ch == '*' then
        var p := SignedOf(TakeNum(args), 0x1_0000_0000);
        Effect(m.(prec := if p < 0 then -1 else p), "", Rest(args), false)
      else Effect(m.(state := Modifiers), "", args, true)
    case Modifiers =>
      if IsModifier(ch) then Effect(m.(rank := NewRank(m.rank, ch)), "", args, false)
      else
        var (out, args') := Conversion(ch, m.flags, m.rank, m.width, m.prec, args);
        Effect(m.(state := Normal), out, args', false)
  }

  /** The second component of the measure: a character is looked at again only in a later state. */
  function Order(s: State): nat {
    match s case Flags => 3 case Width => 2 case Prec => 1 case Modifiers => 0 case Normal => 0
  }

  /** The unbounded output of the rest of a format. */
  function Run(m: Machine, fmt: string, args: seq<Arg>): string
    decreases |fmt|, Order(m.state)
  {
    if fmt == "" then ""
    else
      var e := Step(m, fmt[0], args);
      e.out + Run(e.m, if e.again then fmt else fmt[1..], e.args)
  }

  function Output(fmt: string, args: seq<Arg>): string {
    Run(START, fmt, args)
  }

  // ---------- the copy loop of a string conversion ----------

  // Its counter, and how far the pointer has moved into the argument.
  datatype Copying = Copying(i: int, pos: nat)

  /** for (i = slen; i; i--) sch = *sarg++: the state after t turns, whether or not it would have stopped before. */
  function After(slen: int, t: nat): Copying {
    if t == 0 then Copying(slen, 0) else var c := After(slen, t - 1); Copying(c.i - 1, c.pos + 1)
  }

  /** The loop comes to turn t: its counter has not been zero up to there. */
  ghost predicate ComesTo(slen: int, t: nat) {
    forall k: nat | k <= t :: After(slen, k).i != 0
  }

  ghost predicate Stops(slen: int) {
    exists t: nat :: !ComesTo(slen, t)
  }

  /** Every turn reads one of the `len` characters of the argument. */
  ghost predicate StaysInside(slen: int, len: nat) {
    forall t: nat | ComesTo(slen, t) :: After(slen, t).pos < len
  }

  lemma {:induction false} AfterTurns(slen: int, t: nat)
    ensures After(slen, t) == Copying(slen - t, t)
  {
    if t > 0 { AfterTurns(slen, t - 1); }
  }

  /** From a negative length the counter only moves away from zero: every index of the argument is read, that of its end
      and all those behind it included. */
  lemma NegativeLengthRunsAway(slen: int, t: nat)
    requires slen < 0
    ensures ComesTo(slen, t) && After(slen, t).pos == t
  {
    forall k: nat ensures After(slen, k) == Copying(slen - k, k) {
      AfterTurns(slen, k);
    }
  }

  /** The loop stops exactly for a length that is not negative, and reads nothing but the argument exactly if the length
      is moreover not more than there is. */
  lemma CopyIsSafeExactly(slen: int, len: nat)
    ensures Stops(slen) <==> slen >= 0
    ensures StaysInside(slen, len) <==> 0 <= slen <= len
  {
    forall k: nat ensures After(slen, k) == Copying(slen - k, k) {
      AfterTurns(slen, k);
    }
    if slen < 0 {
      forall t: nat ensures ComesTo(slen, t) {
        NegativeLengthRunsAway(slen, t);
      }
      assert After(slen, len).pos == len;
    } else {
      assert !ComesTo(slen, slen) && forall t: nat | ComesTo(slen, t) :: t < slen by {
        assert After(slen, slen).i == 0;
      }
      if slen > len {
        assert ComesTo(slen, len);
      }
    }
  }

  /** The number of characters that the loop is given, the precision taken as signed number as it is. */
  function CutLength(len: nat, prec: int): int {
    if prec != -1 && len > prec then prec else len
  }

  /** Every string or character conversion that is met copies its argument and stops. */
  ghost predicate Safe(m: Machine, fmt: string, args: seq<Arg>)
    decreases |fmt|, Order(m.state)
  {
    fmt == "" ||
    var e := Step(m, fmt[0], args);
    var len := if fmt[0] == 'c' then 1 else |TakeText(args)|;
    && (m.state == Modifiers && fmt[0] in "cs" ==>
          Stops(CutLength(len, m.prec)) && StaysInside(CutLength(len, m.prec), len))
    && Safe(e.m, if e.again then fmt else fmt[1..], e.args)
  }

  /** No string or character conversion is reached with a precision below -1. */
  predicate Bounded(m: Machine, fmt: string, args: seq<Arg>)
    decreases |fmt|, Order(m.state)
  {
    fmt == "" ||
    var e := Step(m, fmt[0], args);
    && (m.state == Modifiers && fmt[0] in "cs" ==> m.prec >= -1)
    && Bounded(e.m, if e.again then fmt else fmt[1..], e.args)
  }

  /** That is the exact condition for all copying to stop and to stay inside. */
  lemma {:induction false} SafeExactlyIfBounded(m: Machine, fmt: string, args: seq<Arg>)
    ensures Safe(m, fmt, args) <==> Bounded(m, fmt, args)
    decreases |fmt|, Order(m.state)
  {
    hide Conversion, SetFlag, NewRank, SignedOf, Stops, StaysInside;
    if fmt != "" {
      var e := Step(m, fmt[0], args);
      var len := if fmt[0] == 'c' then 1 else |TakeText(args)|;
      CopyIsSafeExactly(CutLength(len, m.prec), len);
      SafeExactlyIfBounded(e.m, if e.again then fmt else fmt[1..], e.args);
    }
  }

  predicate NoStarDigit(fmt: string) {
    forall i | 0 <= i < |fmt| - 1 :: !(fmt[i] == '*' && IsDigit(fmt[i + 1]))
  }

  /** The only way there is a digit right behind a star: without one, every format is bounded for all arguments. */
  lemma {:induction false} StarsWithoutDigitsAreBounded(m: Machine, fmt: string, args: seq<Arg>)
    requires NoStarDigit(fmt) && m.prec >= -1
    requires m.state == Prec && m.prec == -1 && fmt != "" ==> !IsDigit(fmt[0])
    ensures Bounded(m, fmt, args)
    decreases |fmt|, Order(m.state)
  {
    hide Conversion, SetFlag, NewRank, SignedOf;
    if fmt != "" {
      var e := Step(m, fmt[0], args);
      if e.again {
        StarsWithoutDigitsAreBounded(e.m, fmt, e.args);
      } else {
        assert |fmt| > 1 ==> fmt[1..][0] == fmt[1];
        StarsWithoutDigitsAreBounded(e.m, fmt[1..], e.args);
      }
    }
  }

  /** With one, a negative argument is enough to lose the bound: whatever the text is, its conversion does not stop. */
  lemma StarDigitRunsAway(text: string)
    ensures !Safe(START, "%.*5s", [Num(-1), Text(text)])
  {
    var args := [Num(-1), Text(text)];
    var m := Machine(Prec, NO_FLAGS, RANK_INT, 0, 0);
    StarFive(m, args);
    SafeExactlyIfBounded(START, "%.*5s", args);
    hide Conversion, SignedOf, Rest, TakeNum, Safe;
    assert "%.*5s"[1..] == ".*5s" && ".*5s"[1..] == "*5s";
    assert Step(START, '%', args) == Effect(m.(state := Flags, prec := -1), "", args, false);
    assert !Bounded(m.(state := Width, prec := -1), ".*5s", args);
    assert !Bounded(m.(state := Flags, prec := -1), ".*5s", args);
  }

  lemma StarFive(m: Machine, args: seq<Arg>)
    requires m.state == Prec && args != [] && args[0] == Num(-1)
    ensures !Bounded(m, "*5s", args)
  {
    hide Conversion;
    assert "*5s"[1..] == "5s" && "5s"[1..] == "s";
    assert Step(m, '*', args) == Effect(m.(prec := -1), "", args[1..], false);
    assert Step(m.(prec := -1), '5', args[1..]) == Effect(m.(prec := -5), "", args[1..], false);
    assert !Bounded(m.(prec := -5, state := Modifiers), "s", args[1..]);
    assert !Bounded(m.(prec := -5), "s", args[1..]);
    assert !Bounded(m.(prec := -1), "5s", args[1..]);
  }
}
