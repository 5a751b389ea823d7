/** Formats as a grammar: plain text and directives with flags, width, precision, length modifiers and a conversion.
    The character-by-character state machine prints what the grammar means. */
module VsnprintfFormat {
  import opened VsnprintfSpec

  datatype Amount = Omitted | Given(n: nat) | Star

  datatype Piece = Plain(text: string)
                 | Directive(flags: string, width: Amount, prec: Amount, mods: string, conv: char)

  predicate Conv(c: char) {
    !IsFlag(c) && !IsDigit(c) && c != '*' && c != '.' && !IsModifier(c)
  }

  predicate WellFormed(p: Piece) {
    match p
    case Plain(text) => forall i | 0 <= i < |text| :: text[i] != '%'
    case Directive(flags, width, prec, mods, conv) =>
      && (forall i | 0 <= i < |flags| :: IsFlag(flags[i]))
      && (forall i | 0 <= i < |mods| :: IsModifier(mods[i]))
      && (width.Given? ==> width.n > 0) && Conv(conv)
  }

  function Decimal(n: nat): (s: string)
    ensures s != "" && forall i | 0 <= i < |s| :: IsDigit(s[i])
    ensures n > 0 ==> s[0] != '0'
  {
    if n < 10 then ['0' + n as char] else Decimal(n / 10) + ['0' + (n % 10) as char]
  }

  function WidthText(w: Amount): string {
    match w case Omitted => "" case Given(n) => Decimal(n) case Star => "*"
  }

  function PrecText(p: Amount): string {
    match p case Omitted => "" case Given(n) => "." + Decimal(n) case Star => ".*"
  }

  function TextOf(p: Piece): string {
    match p
    case Plain(text) => text
    case Directive(flags, width, prec, mods, conv) =>
      "%" + (flags + (WidthText(width) + (PrecText(prec) + (mods + [conv]))))
  }

  function AllFlags(f: FlagSet, s: string): FlagSet
    decreases |s|
  {
    if s == "" then f else AllFlags(SetFlag(f, s[0]), s[1..])
  }

  function AllMods(rank: int, s: string): int
    decreases |s|
  {
    if s == "" then rank else AllMods(NewRank(rank, s[0]), s[1..])
  }

  function Int(args: seq<Arg>): int {
    SignedOf(TakeNum(args), 0x1_0000_0000)
  }

  /** What a piece prints for the arguments it is given, and what it leaves of them. */
  function Meaning(p: Piece, args: seq<Arg>): (string, seq<Arg>) {
    match p
    case Plain(text) => (text, args)
    case Directive(flags, width, prec, mods, conv) =>
      var f0 := AllFlags(NO_FLAGS, flags);
      var (w, f, args1) := match width
        case Omitted => (0, f0, args)
        case Given(n) => (n, f0, args)
        case Star => (if Int(args) < 0 then -Int(args) else Int(args), if Int(args) < 0 then f0.(minus := true)
          else f0, Rest(args));
      var (p, args2) := match prec
        case Omitted => (-1, args1)
        case Given(n) => (n, args1)
        case Star => (if Int(args1) < 0 then -1 else Int(args1), Rest(args1));
      Conversion(conv, f, AllMods(RANK_INT, mods), w, p, args2)
  }

  function Format(ps: seq<Piece>): string {
    if ps == [] then "" else TextOf(ps[0]) + Format(ps[1..])
  }

  function Denote(ps: seq<Piece>, args: seq<Arg>): string {
    if ps == [] then "" else Meaning(ps[0], args).0 + Denote(ps[1..], Meaning(ps[0], args).1)
  }

  lemma {:induction false} NormalForgets(m: Machine, m': Machine, fmt: string, args: seq<Arg>)
    requires m.state == Normal && m'.state == Normal
    ensures Run(m, fmt, args) == Run(m', fmt, args)
    decreases |fmt|
  {
    if fmt != "" && fmt[0] != '%' { NormalForgets(m, m', fmt[1..], args); }
  }

  lemma {:induction false} PlainRuns(m: Machine, text: string, rest: string, args: seq<Arg>)
    requires m.state == Normal && forall i | 0 <= i < |text| :: text[i] != '%'
    ensures Run(m, text + rest, args) == text + Run(m, rest, args)
    decreases |text|
  {
    hide Conversion;
    if text == "" {
      assert text + rest == rest && text + Run(m, rest, args) == Run(m, rest, args);
    } else {
      assert (text + rest)[0] == text[0] && (text + rest)[1..] == text[1..] + rest;
      PlainRuns(m, text[1..], rest, args);
      assert [text[0]] + (text[1..] + Run(m, rest, args)) == text + Run(m, rest, args);
    }
  }

  /** A silent step: nothing is printed and the character is consumed. */
  lemma Silent(m: Machine, c: char, rest: string, args: seq<Arg>, m': Machine, args': seq<Arg>)
    requires Step(m, c, args) == Effect(m', "", args', false)
    ensures Run(m, [c] + rest, args) == Run(m', rest, args')
  {
    hide Step;
    assert ([c] + rest)[1..] == rest;
    assert "" + Run(m', rest, args') == Run(m', rest, args');
  }

  /** The same character looked at again in another state. */
  lemma Again(m: Machine, fmt: string, args: seq<Arg>, m': Machine)
    requires fmt != "" && Step(m, fmt[0], args) == Effect(m', "", args, true)
    ensures Run(m, fmt, args) == Run(m', fmt, args)
  {
    hide Step;
    assert "" + Run(m', fmt, args) == Run(m', fmt, args);
  }

  lemma {:induction false} FlagsRun(m: Machine, s: string, rest: string, args: seq<Arg>)
    requires m.state == Flags && forall i | 0 <= i < |s| :: IsFlag(s[i])
    ensures Run(m, s + rest, args) == Run(m.(flags := AllFlags(m.flags, s)), rest, args)
    decreases |s|
  {
    hide SetFlag, Run;
    if s == "" {
      assert s + rest == rest && m.(flags := AllFlags(m.flags, s)) == m;
    } else {
      var m' := m.(flags := SetFlag(m.flags, s[0]));
      assert s + rest == [s[0]] + (s[1..] + rest);
      Silent(m, s[0], s[1..] + rest, args, m', args);
      FlagsRun(m', s[1..], rest, args);
      assert m'.(flags := AllFlags(m'.flags, s[1..])) == m.(flags := AllFlags(m.flags, s));
    }
  }

  lemma {:induction false} ModsRun(m: Machine, s: string, rest: string, args: seq<Arg>)
    requires m.state == Modifiers && forall i | 0 <= i < |s| :: IsModifier(s[i])
    ensures Run(m, s + rest, args) == Run(m.(rank := AllMods(m.rank, s)), rest, args)
    decreases |s|
  {
    hide NewRank, Run, Conversion;
    if s == "" {
      assert s + rest == rest && m.(rank := AllMods(m.rank, s)) == m;
    } else {
      var m' := m.(rank := NewRank(m.rank, s[0]));
      assert s + rest == [s[0]] + (s[1..] + rest);
      Silent(m, s[0], s[1..] + rest, args, m', args);
      ModsRun(m', s[1..], rest, args);
      assert m'.(rank := AllMods(m'.rank, s[1..])) == m.(rank := AllMods(m.rank, s));
    }
  }

  /** The number n in front of digits that multiply it up: a decimal read behind what was read before. */
  function Shift(w: int, n: nat): int {
    if n < 10 then w * 10 + n else Shift(w, n / 10) * 10 + n % 10
  }

  lemma {:induction false} ShiftZero(n: nat)
    ensures Shift(0, n) == n
  {
    if n >= 10 { ShiftZero(n / 10); }
  }

  lemma {:induction false} WidthDigitsRun(m: Machine, n: nat, rest: string, args: seq<Arg>)
    requires m.state == Width
    ensures Shift(m.width, n) >= 0
    ensures Run(m, Decimal(n) + rest, args) == Run(m.(width := Shift(m.width, n)), rest, args)
    decreases n
  {
    hide Run;
    if n < 10 {
      Silent(m, '0' + n as char, rest, args, m.(width := Shift(m.width, n)), args);
    } else {
      var c := '0' + (n % 10) as char;
      WidthDigitsRun(m, n / 10, [c] + rest, args);
      var m' := m.(width := Shift(m.width, n / 10));
      Silent(m', c, rest, args, m'.(width := m'.width * 10 + n % 10), args);
      assert Decimal(n) + rest == Decimal(n / 10) + ([c] + rest);
    }
  }

  lemma {:induction false} PrecDigitsRun(m: Machine, n: nat, rest: string, args: seq<Arg>)
    requires m.state == Prec
    ensures Run(m, Decimal(n) + rest, args) == Run(m.(prec := Shift(m.prec, n)), rest, args)
    decreases n
  {
    hide Run;
    if n < 10 {
      Silent(m, '0' + n as char, rest, args, m.(prec := Shift(m.prec, n)), args);
    } else {
      var c := '0' + (n % 10) as char;
      PrecDigitsRun(m, n / 10, [c] + rest, args);
      var m' := m.(prec := Shift(m.prec, n / 10));
      Silent(m', c, rest, args, m'.(prec := m'.prec * 10 + n % 10), args);
      assert Decimal(n) + rest == Decimal(n / 10) + ([c] + rest);
    }
  }

  /** From the width state, a width (or none) and whatever does not extend it. */
  lemma WidthRuns(m: Machine, w: Amount, rest: string, args: seq<Arg>, m': Machine, args': seq<Arg>)
    requires m.state == Width && m.width == 0
    requires m' == (match w
                    case Omitted => m
                    case Given(n) => m.(width := n)
                    case Star => if Int(args) < 0 then m.(width := -Int(args), flags := m.flags.(minus := true))
                      else m.(width := Int(args)))
    requires args' == if w == Star then Rest(args) else args
    ensures Run(m, WidthText(w) + rest, args) == Run(m', rest, args')
  {
    hide Run, SignedOf, TakeNum, Rest;
    match w
    case Omitted => assert "" + rest == rest;
    case Given(n) =>
      WidthDigitsRun(m, n, rest, args);
      ShiftZero(n);
    case Star => Silent(m, '*', rest, args, m', args');
  }

  /** From the width state through the precision (or none) into the modifiers. */
  lemma PrecRuns(m: Machine, p: Amount, rest: string, args: seq<Arg>, m': Machine, args': seq<Arg>)
    requires m.state == Width && m.prec == -1
    requires rest != "" && (IsModifier(rest[0]) || Conv(rest[0]))
    requires m' == m.(state := Modifiers, prec := match p
                                            case Omitted => -1
                                            case Given(n) => n
                                            case Star => if Int(args) < 0 then -1 else Int(args))
    requires args' == if p == Star then Rest(args) else args
    ensures Run(m, PrecText(p) + rest, args) == Run(m', rest, args')
  {
    hide Run, SignedOf, TakeNum, Rest;
    match p
    case Omitted =>
      assert "" + rest == rest;
      Again(m, rest, args, m');
    case Given(n) =>
      var m1 := m.(state := Prec, prec := 0);
      assert PrecText(p) + rest == ['.'] + (Decimal(n) + rest);
      Silent(m, '.', Decimal(n) + rest, args, m1, args);
      PrecDigitsRun(m1, n, rest, args);
      ShiftZero(n);
      Again(m1.(prec := n), rest, args, m');
    case Star =>
      var m1 := m.(state := Prec, prec := 0);
      assert PrecText(p) + rest == ['.'] + (['*'] + rest);
      Silent(m, '.', ['*'] + rest, args, m1, args);
      Silent(m1, '*', rest, args, m1.(prec := m'.prec), args');
      Again(m1.(prec := m'.prec), rest, args', m');
  }

  lemma StartsWidth(w: Amount, p: Amount, mods: string, conv: char, rest: string)
    requires (w.Given? ==> w.n > 0) && Conv(conv) && forall i | 0 <= i < |mods| :: IsModifier(mods[i])
    ensures var tail := WidthText(w) + (PrecText(p) + (mods + [conv] + rest)); tail != "" && !IsFlag(tail[0])
    ensures var tail := mods + [conv] + rest; tail != "" && (IsModifier(tail[0]) || Conv(tail[0]))
  {
    hide Decimal;
  }

  lemma ConvRuns(m: Machine, c: char, rest: string, args: seq<Arg>)
    requires m.state == Modifiers && Conv(c)
    ensures var (out, args') := Conversion(c, m.flags, m.rank, m.width, m.prec, args);
            Run(m, [c] + rest, args) == out + Run(START, rest, args')
  {
    hide Conversion;
    var (out, args') := Conversion(c, m.flags, m.rank, m.width, m.prec, args);
    assert ([c] + rest)[1..] == rest;
    NormalForgets(m.(state := Normal), START, rest, args');
  }

  /** The percent sign and the flags, up to the state that waits for a width. */
  lemma FlagsPart(m: Machine, flags: string, t: string, args: seq<Arg>)
    requires m.state == Normal && (forall i | 0 <= i < |flags| :: IsFlag(flags[i])) && t != "" && !IsFlag(t[0])
    ensures Run(m, ['%'] + (flags + t), args)
            == Run(Machine(Width, AllFlags(NO_FLAGS, flags), RANK_INT, 0, -1), t, args)
  {
    hide Run, AllFlags;
    var m0 := Machine(Flags, NO_FLAGS, RANK_INT, 0, -1);
    Silent(m, '%', flags + t, args, m0, args);
    FlagsRun(m0, flags, t, args);
    Again(m0.(flags := AllFlags(NO_FLAGS, flags)), t, args, m0.(flags := AllFlags(NO_FLAGS, flags), state := Width));
  }

  /** The modifiers and the conversion. */
  lemma EndPart(m: Machine, mods: string, conv: char, rest: string, args: seq<Arg>)
    requires m.state == Modifiers && Conv(conv) && forall i | 0 <= i < |mods| :: IsModifier(mods[i])
    ensures var (out, args') := Conversion(conv, m.flags, AllMods(m.rank, mods), m.width, m.prec, args);
            Run(m, mods + [conv] + rest, args) == out + Run(START, rest, args')
  {
    hide Run, AllMods, Conversion;
    assert mods + [conv] + rest == mods + ([conv] + rest);
    ModsRun(m, mods, [conv] + rest, args);
    ConvRuns(m.(rank := AllMods(m.rank, mods)), conv, rest, args);
  }

  /** A directive prints what it means, whatever follows it. */
  lemma DirectiveRuns(m: Machine, d: Piece, rest: string, args: seq<Arg>)
    requires m.state == Normal && d.Directive? && WellFormed(d)
    ensures Run(m, TextOf(d) + rest, args) == Meaning(d, args).0 + Run(START, rest, Meaning(d, args).1)
  {
    hide Run, Conversion, Int, Rest, WidthText, PrecText, AllFlags, AllMods, IsFlag, IsModifier, Conv, Step;
    var Directive(flags, width, prec, mods, conv) := d;
    var tail := mods + [conv] + rest;
    var t1 := WidthText(width) + (PrecText(prec) + tail);
    assert TextOf(d) + rest == ['%'] + (flags + t1);
    StartsWidth(width, prec, mods, conv, rest);
    FlagsPart(m, flags, t1, args);
    var m2 := Machine(Width, AllFlags(NO_FLAGS, flags), RANK_INT, 0, -1);
    var w: nat := match width case Omitted => 0 case Given(n) => n case Star => if Int(args) < 0 then -Int(args)
          else Int(args);
    var m3 := if width == Star && Int(args) < 0 then m2.(width := w, flags := m2.flags.(minus := true))
          else m2.(width := w);
    var args1 := if width == Star then Rest(args) else args;
    WidthRuns(m2, width, PrecText(prec) + tail, args, m3, args1);
    var p := match prec case Omitted => -1 case Given(n) => n case Star => if Int(args1) < 0 then -1 else Int(args1);
    var m4 := m3.(state := Modifiers, prec := p);
    var args2 := if prec == Star then Rest(args1) else args1;
    PrecRuns(m3, prec, tail, args1, m4, args2);
    EndPart(m4, mods, conv, rest, args2);
    assert Meaning(d, args) == Conversion(conv, m4.flags, AllMods(RANK_INT, mods), w, p, args2);
  }

  /** The output of a format is the meaning of its pieces, one after the other. */
  lemma {:induction false} OutputIsDenotation(ps: seq<Piece>, args: seq<Arg>)
    requires forall i | 0 <= i < |ps| :: WellFormed(ps[i])
    ensures Output(Format(ps), args) == Denote(ps, args)
  {
    if ps != [] {
      hide Run, Meaning, TextOf, WellFormed;
      var rest := Format(ps[1..]);
      match ps[0] {
        case Plain(text) => PlainPiece(ps[0], rest, args);
        case Directive(_, _, _, _, _) => DirectiveRuns(START, ps[0], rest, args);
      }
      OutputIsDenotation(ps[1..], Meaning(ps[0], args).1);
    }
  }

  lemma PlainPiece(p: Piece, rest: string, args: seq<Arg>)
    requires p.Plain? && WellFormed(p)
    ensures Run(START, TextOf(p) + rest, args) == Meaning(p, args).0 + Run(START, rest, Meaning(p, args).1)
  {
    hide Run;
    PlainRuns(START, p.text, rest, args);
  }
}
