/** Reading a printed integer back: white space, sign, 0x and digits, the way strtol takes a number apart. */
module VsnprintfReadBack {
  import opened VsnprintfSpec

  function SkipSpaces(s: string): string {
    if s != "" && s[0] == ' ' then SkipSpaces(s[1..]) else s
  }

  function UpToSpace(s: string): string {
    if s == "" || s[0] == ' ' then "" else [s[0]] + UpToSpace(s[1..])
  }

  function SkipSign(s: string): string {
    if s != "" && (s[0] == '-' || s[0] == '+') then s[1..] else s
  }

  function SkipPrefix(s: string): string {
    if |s| >= 2 && s[0] == '0' && (s[1] == 'x' || s[1] == 'X') then s[2..] else s
  }

  function ReadBack(s: string, base: nat): int {
    var t := SkipSpaces(s);
    var m: int := Parse(Strip(UpToSpace(SkipPrefix(SkipSign(t)))), base);
    if t != "" && t[0] == '-' then -m else m
  }

  /** A run of digits and ticks that starts with a digit. */
  predicate Digits(s: string) {
    s != "" && s[0] != '_' && forall i | 0 <= i < |s| :: DigitOrTick(s[i])
  }

  predicate DigitOrTick(c: char) {
    c == '_' || '0' <= c <= '9' || 'a' <= c <= 'f' || 'A' <= c <= 'F'
  }

  lemma {:induction false} TickedDigits(v: nat, base: nat, upper: bool, skip: nat, b: nat, d: nat)
    requires Base(base) && skip > 0 && d > 0
    ensures Digits(Ticked(v, base, upper, skip, b, d))
    decreases d
  {
    hide Shifted, Lowest;
    if d > 1 {
      TickedDigits(Shifted(v, base), base, upper, skip, if b == 0 then skip - 1 else b - 1, d - 1);
    } else {
      assert Ticked(Shifted(v, base), base, upper, skip, if b == 0 then skip - 1 else b - 1, 0) == "";
    }
  }

  lemma {:induction false} SkipsAllSpaces(k: int, s: string)
    requires s != "" && s[0] != ' '
    ensures SkipSpaces(Repeat(' ', k) + s) == s
    decreases if k < 0 then 0 else k
  {
    if k <= 0 {
      assert Repeat(' ', k) + s == s;
    } else {
      assert (Repeat(' ', k) + s)[1..] == Repeat(' ', k - 1) + s;
      SkipsAllSpaces(k - 1, s);
    }
  }

  lemma {:induction false} StopsAtSpace(s: string, k: int)
    requires forall i | 0 <= i < |s| :: s[i] != ' '
    ensures UpToSpace(s + Repeat(' ', k)) == s
    decreases |s|
  {
    if s == "" {
      assert s + Repeat(' ', k) == Repeat(' ', k);
    } else {
      assert (s + Repeat(' ', k))[1..] == s[1..] + Repeat(' ', k);
      StopsAtSpace(s[1..], k);
    }
  }

  lemma ZeroAlone(base: nat)
    ensures Parse(Strip("0"), base) == 0
  {
    assert Strip("0"[..0]) == "" && Strip("0") == "0";
    assert Parse("0"[..0], base) == 0;
  }

  lemma {:induction false} LeadingZero(s: string, base: nat)
    ensures Parse(Strip("0" + s), base) == Parse(Strip(s), base)
    decreases |s|
  {
    hide Strip, Parse;
    if s == "" {
      assert "0" + s == "0";
      ZeroAlone(base);
      StripParseEmpty(base);
    } else {
      var t, c := s[..|s| - 1], s[|s| - 1];
      LeadingZero(t, base);
      assert "0" + s == ("0" + t) + [c] && s == t + [c];
      StripAppend("0" + t, c);
      StripAppend(t, c);
      if c == '_' {
        assert Strip("0" + t) + "" == Strip("0" + t) && Strip(t) + "" == Strip(t);
      } else {
        ParseAppend(Strip("0" + t), c, base);
        ParseAppend(Strip(t), c, base);
      }
    }
  }

  lemma {:induction false} LeadingZeros(k: int, s: string, base: nat)
    ensures Parse(Strip(Repeat('0', k) + s), base) == Parse(Strip(s), base)
    decreases if k < 0 then 0 else k
  {
    hide Strip, Parse;
    if k <= 0 {
      assert Repeat('0', k) + s == s;
    } else {
      LeadingZeros(k - 1, s, base);
      LeadingZero(Repeat('0', k - 1) + s, base);
      assert Repeat('0', k) + s == "0" + (Repeat('0', k - 1) + s);
    }
  }

  lemma SignAndPrefixAreSkipped(val: nat, f: FlagSet, base: nat, body: string)
    requires body != "" && Digits(body[..1]) && forall i | 0 <= i < |body| :: DigitOrTick(body[i]) || body[i] == ' '
    ensures var t := (if Sign(val, f) == " " then "" else Sign(val, f)) + Prefix(f, base) + body;
            && t[0] != ' ' && SkipPrefix(SkipSign(t)) == body
            && (t[0] == '-' <==> Negative(val, f))
  {
    var sign := if Sign(val, f) == " " then "" else Sign(val, f);
    var t := sign + Prefix(f, base) + body;
    assert body[0] == body[..1][0];
    assert DigitOrTick(body[0]) && body[0] != ' ' && body[0] != '_';
    assert SkipSign(t) == Prefix(f, base) + body;
    assert Prefix(f, base) != "" ==> (Prefix(f, base) + body)[2..] == body;
    assert Prefix(f, base) == "" ==> Prefix(f, base) + body == body;
  }

  lemma Regroup(early: int, sign: string, prefix: string, zeros: string, number: string, late: string)
    ensures var early' := (if early > 0 then early else 0) + if sign == " " then 1 else 0;
            Repeat(' ', early) + sign + prefix + zeros + number + late
            == Repeat(' ', early') + ((if sign == " " then "" else sign) + prefix + ((zeros + number) + late))
  {
    if sign == " " {
      assert Repeat(' ', early) + sign == Repeat(' ', (if early > 0 then early else 0) + 1);
    } else {
      assert Repeat(' ', early) == Repeat(' ', if early > 0 then early else 0);
    }
  }

  lemma NumberIsDigits(mag: nat, f: FlagSet, base: nat, prec: int)
    requires Base(base)
    ensures Digits(Number(mag, f, base, prec))
  {
    hide DigitCount, Skip, Digits;
    var d := DigitCount(mag, f, base, prec);
    TickedDigits(mag, base, f.upper, Skip(f, base, d), Skip(f, base, d), d);
  }

  lemma ZerosThenDigits(zeros: int, number: string, late: int)
    requires Digits(number)
    ensures var digits := Repeat('0', zeros) + number;
            var body := digits + Repeat(' ', late);
            && digits != "" && Digits(body[..1])
            && (forall i | 0 <= i < |digits| :: digits[i] != ' ')
            && forall i | 0 <= i < |body| :: DigitOrTick(body[i]) || body[i] == ' '
  {
  }

  /** Whatever the flags, width and precision: the text of an integer conversion reads back as the integer. */
  lemma IntTextReadsBack(val: nat, f: FlagSet, base: nat, width: int, prec: int)
    requires Base(base) && val < UINTMAX
    ensures ReadBack(IntText(val, f, base, width, prec), base)
            == if Negative(val, f) then -(Magnitude(val, f) as int) else Magnitude(val, f)
  {
    hide Parse, Strip, Number, UpToSpace, SkipSpaces, SkipPrefix, SkipSign, DigitCount, Skip, Digits, DigitOrTick, Sign,
         Prefix, Repeat, Negative, Magnitude;
    var mag := Magnitude(val, f);
    var number := Number(mag, f, base, prec);
    var sign, prefix := Sign(val, f), Prefix(f, base);
    var pad := width - (|sign| + |prefix| + |number|);
    var early := if !f.minus && !f.zero then pad else 0;
    var late := if f.minus then pad else 0;
    var zeros := if f.zero && !f.minus then pad else 0;
    var digits := Repeat('0', zeros) + number;
    var body := digits + Repeat(' ', late);
    var early' := (if early > 0 then early else 0) + if sign == " " then 1 else 0;
    var t := (if sign == " " then "" else sign) + prefix + body;
    NumberIsDigits(mag, f, base, prec);
    ZerosThenDigits(zeros, number, late);
    SignAndPrefixAreSkipped(val, f, base, body);
    Regroup(early, sign, prefix, Repeat('0', zeros), number, Repeat(' ', late));
    SkipsAllSpaces(early', t);
    StopsAtSpace(digits, late);
    LeadingZeros(zeros, number, base);
    NumberParsesBack(val, f, base, prec);
  }
}
