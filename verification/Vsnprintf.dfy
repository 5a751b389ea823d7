/** vsnprintf into a bounded buffer: one pass, a cursor that stops at the bound, and a count that does not. */
module Vsnprintf {
  import opened VsnprintfSpec

  /** The first n cells from `at` on show the first n characters of `out`; every other cell is as it was. */
  ghost predicate Shows(now: string, was: string, at: nat, n: nat, out: string) {
    && |now| == |was| && (n > 0 ==> at + n <= |was|)
    && forall i | 0 <= i < |was| ::
         now[i] == if at <= i < at + n && i - at < |out| then out[i - at] else was[i]
  }

  /** Cursor and count agree as long as the bound has not been passed. */
  predicate Cursor(at: nat, n: nat, q: nat, o: nat) {
    o <= n ==> q == at + o
  }

  lemma NothingShown(was: string, at: nat, n: nat)
    requires n > 0 ==> at + n <= |was|
    ensures Shows(was, was, at, n, "")
  {
  }

  /** What a callee shows behind what was shown before. */
  lemma ShowsBehind(was: string, mid: string, now: string, n: nat, q: nat, out: string, text: string)
    requires Shows(mid, was, 0, n, out) && Cursor(0, n, q, |out|)
    requires Shows(now, mid, q, if |out| < n then n - |out| else 0, text)
    ensures Shows(now, was, 0, n, out + text)
  {
  }

  /** EMIT: store if there is room, count in any case. */
  method Emit(buffer: array<char>, ghost at: nat, n: nat, q: nat, o: nat, x: char, ghost was: string, ghost out: string)
    returns (q': nat, o': nat)
    requires Shows(buffer[..], was, at, n, out) && o == |out| && Cursor(at, n, q, o)
    modifies buffer
    ensures Shows(buffer[..], was, at, n, out + [x]) && o' == o + 1 && Cursor(at, n, q', o')
  {
    q', o' := q, o;
    if o < n {
      buffer[q] := x;
      q' := q + 1;
    }
    o' := o + 1;
  }

  /** The padding loops: EMIT until width has come down to nchars. */
  method Pad(buffer: array<char>, ghost at: nat, n: nat, q: nat, o: nat, x: char, width: int, nchars: nat,
             ghost was: string, ghost out: string)
    returns (q': nat, o': nat)
    requires Shows(buffer[..], was, at, n, out) && o == |out| && Cursor(at, n, q, o)
    modifies buffer
    ensures Shows(buffer[..], was, at, n, out + Repeat(x, width - nchars))
    ensures o' == o + |Repeat(x, width - nchars)| && Cursor(at, n, q', o')
  {
    hide Shows;
    q', o' := q, o;
    var w := width;
    assert out + Repeat(x, 0) == out;
    while w > nchars
      invariant w <= width && (w < nchars ==> w == width)
      invariant o' == o + (width - w) && Cursor(at, n, q', o')
      invariant Shows(buffer[..], was, at, n, out + Repeat(x, width - w))
    {
      q', o' := Emit(buffer, at, n, q', o', x, was, out + Repeat(x, width - w));
      assert out + Repeat(x, width - w) + [x] == out + Repeat(x, width - (w - 1));
      w := w - 1;
    }
    assert Repeat(x, width - w) == Repeat(x, width - nchars);
  }

  /** Cells of the number: those from position r of it on have been written. */
  ghost predicate Half(now: string, was: string, at: nat, n: nat, o: nat, number: string, r: nat) {
    && |now| == |was|
    && forall i | 0 <= i < |was| ::
         now[i] == if at <= i < at + n && o + r <= i - at < o + |number| then number[i - at - o] else was[i]
  }

  /** One character of the number, stored only if its place is within the bound. */
  method PutChar(buffer: array<char>, ghost at: nat, n: nat, qq: nat, oo: nat, x: char,
                 ghost o: nat, ghost was: string, ghost number: string, ghost r: nat)
    requires (n > 0 ==> at + n <= buffer.Length) && r < |number| && number[r] == x
    requires oo == o + r && (o <= n ==> qq == at + oo)
    requires Half(buffer[..], was, at, n, o, number, r + 1)
    modifies buffer
    ensures Half(buffer[..], was, at, n, o, number, r)
  {
    if oo < n { buffer[qq] := x; }
  }

  /** The digits, generated from the last one backwards. */
  method PutNumber(buffer: array<char>, ghost at: nat, n: nat, q: nat, o: nat, val0: nat, base: nat, upper: bool,
                   tickskip: nat, ndigits0: nat, ghost d: nat)
    returns (q': nat, o': nat)
    requires Base(base) && tickskip > 0 && (n > 0 ==> at + n <= buffer.Length) && Cursor(at, n, q, o)
    requires ndigits0 == |Ticked(val0, base, upper, tickskip, tickskip, d)|
    modifies buffer
    ensures Half(buffer[..], old(buffer[..]), at, n, o, Ticked(val0, base, upper, tickskip, tickskip, d), 0)
    ensures q' == q + ndigits0 && o' == o + ndigits0 && Cursor(at, n, q', o')
  {
    hide Shifted, Lowest, DigitChar, Half, Ticked;
    ghost var number := Ticked(val0, base, upper, tickskip, tickskip, d);
    ghost var was := buffer[..];
    q', o' := q + ndigits0, o + ndigits0;
    var qq, oo, ndigits: nat, val, b4tick := q', o', ndigits0, val0, tickskip;
    ghost var left := d;
    NothingWritten(was, at, n, o, number);
    assert number[..ndigits] == number;
    while ndigits > 0
      invariant qq == q + ndigits && oo == o + ndigits && ndigits <= |number|
      invariant number[..ndigits] == Ticked(val, base, upper, tickskip, b4tick, left)
      invariant Half(buffer[..], was, at, n, o, number, ndigits)
    {
      TickedEnd(val, base, upper, tickskip, b4tick, left);
      ghost var s := number[..ndigits];
      if b4tick == 0 {
        assert s[|s| - 1] == number[ndigits - 1] && s[|s| - 2] == number[ndigits - 2];
        qq, oo, ndigits := qq - 1, oo - 1, ndigits - 1;
        PutChar(buffer, at, n, qq, oo, '_', o, was, number, ndigits);
        b4tick := tickskip - 1;
        assert s[..|s| - 2] == number[..ndigits - 1];
      } else {
        assert s[|s| - 1] == number[ndigits - 1];
        b4tick := b4tick - 1;
        assert s[..|s| - 1] == number[..ndigits - 1];
      }
      qq, oo, ndigits := qq - 1, oo - 1, ndigits - 1;
      PutChar(buffer, at, n, qq, oo, DigitChar(upper, Lowest(val, base)), o, was, number, ndigits);
      val := Shifted(val, base);
      left := left - 1;
    }
  }

  lemma NothingWritten(was: string, at: nat, n: nat, o: nat, number: string)
    ensures Half(was, was, at, n, o, number, |number|)
  {
  }

  lemma TickedEnd(v: nat, base: nat, upper: bool, skip: nat, b: nat, d: nat)
    requires Base(base) && skip > 0 && |Ticked(v, base, upper, skip, b, d)| > 0
    ensures d > 0
    ensures var s, c := Ticked(v, base, upper, skip, b, d), DigitChar(upper, Lowest(v, base));
            && (b == 0 ==> |s| >= 2 && s[|s| - 1] == '_' && s[|s| - 2] == c
                           && s[..|s| - 2] == Ticked(Shifted(v, base), base, upper, skip, skip - 1, d - 1))
            && (b > 0 ==> s[|s| - 1] == c
                          && s[..|s| - 1] == Ticked(Shifted(v, base), base, upper, skip, b - 1, d - 1))
  {
    hide Shifted, Lowest, DigitChar;
  }

  lemma HalfToShows(now: string, mid: string, was: string, at: nat, n: nat, out: string, number: string)
    requires Shows(mid, was, at, n, out) && Half(now, mid, at, n, |out|, number, 0)
    ensures Shows(now, was, at, n, out + number)
  {
  }

  method CountDigits(val: nat, base: nat) returns (nd: nat)
    requires Base(base)
    ensures nd == Count(val, base)
  {
    hide Shifted;
    nd := 0;
    var tmpval := val;
    while tmpval != 0
      invariant nd + Count(tmpval, base) == Count(val, base)
    {
      tmpval := Shifted(tmpval, base);
      nd := nd + 1;
    }
  }

  /** The first half of format_int: the magnitude, and how many characters and digits the number takes. */
  method Measure(val: nat, f: FlagSet, base: nat, prec0: int)
    returns (minus: bool, mag: nat, tickskip: nat, ndigits: nat, nchars: nat)
    requires Base(base) && val < UINTMAX
    ensures minus == Negative(val, f) && mag == Magnitude(val, f)
    ensures tickskip == Skip(f, base, DigitCount(mag, f, base, prec0))
    ensures ndigits == |Number(mag, f, base, prec0)|
    ensures nchars == ndigits + |Sign(val, f)| + |Prefix(f, base)|
  {
    hide Ticked, Count;
    minus, mag := false, val;
    if f.signed && 2 * val >= UINTMAX {
      minus := true;
      mag := UINTMAX - val;
    }
    ndigits := CountDigits(mag, base);
    CountOfZero(mag, base);
    var prec := prec0;
    if f.hash && base == 8 && prec < ndigits + 1 {
      prec := ndigits + 1;
    }
    if ndigits < prec {
      ndigits := prec;
    } else if mag == 0 {
      ndigits := 1;
    }
    tickskip := if f.tick then (if base == 16 then 4 else 3) else ndigits;
    TickedLength(mag, base, f.upper, tickskip, tickskip, ndigits);
    TicksCounted(ndigits, tickskip);
    ndigits := ndigits + (ndigits - 1) / tickskip;
    nchars := ndigits;
    if minus || f.plus || f.space { nchars := nchars + 1; }
    if f.hash && base == 16 { nchars := nchars + 2; }
  }

  lemma CountOfZero(v: nat, base: nat)
    requires Base(base)
    ensures Count(v, base) == 0 <==> v == 0
  {
  }

  lemma TicksCounted(d: nat, skip: nat)
    requires d > 0 && (skip == 3 || skip == 4 || skip == d)
    ensures (d - 1) / skip == if d <= skip then 0 else 1 + (if skip == 4 then (d - 5) / 4 else (d - 4) / 3)
  {
    if skip == d && skip != 3 && skip != 4 { SmallQuotient(d - 1, d); }
  }

  lemma SmallQuotient(a: nat, b: nat)
    requires a < b
    ensures a / b == 0
  {
  }

  method FormatInt(buffer: array<char>, at: nat, n: nat, val: nat, f: FlagSet, base: nat, width: int, prec: int)
    returns (o: nat)
    requires Base(base) && val < UINTMAX && (n > 0 ==> at + n <= buffer.Length)
    modifies buffer
    ensures Shows(buffer[..], old(buffer[..]), at, n, IntText(val, f, base, width, prec))
    ensures o == |IntText(val, f, base, width, prec)|
  {
    hide Shows, Half, Cursor, Ticked, Negative, Magnitude, DigitCount, Skip;
    ghost var was := buffer[..];
    NothingShown(was, at, n);
    StartOfBuffer(at, n);
    var minus, mag, tickskip, ndigits, nchars := Measure(val, f, base, prec);
    var q := at;
    o := 0;
    ghost var pad := width - nchars;
    ghost var early := Repeat(' ', if !f.minus && !f.zero then pad else 0);
    if !f.minus && !f.zero && width > nchars {
      q, o := Pad(buffer, at, n, q, o, ' ', width, nchars, was, "");
    }
    assert "" + early == early;
    q, o := EmitSign(buffer, at, n, q, o, minus, f, base, val, was, early);
    ghost var head := early + Sign(val, f) + Prefix(f, base);
    ghost var zeros := Repeat('0', if f.zero && !f.minus then pad else 0);
    if f.zero && !f.minus && width > ndigits {
      q, o := Pad(buffer, at, n, q, o, '0', width, nchars, was, head);
    }
    assert zeros == "" ==> head + zeros == head;
    ghost var number := Number(mag, f, base, prec);
    q, o := Digits(buffer, at, n, q, o, mag, f, base, tickskip, ndigits, prec, was, head + zeros);
    ghost var late := Repeat(' ', if f.minus then pad else 0);
    if f.minus {
      q, o := Pad(buffer, at, n, q, o, ' ', width, nchars, was, head + zeros + number);
    }
    assert late == "" ==> head + zeros + number + late == head + zeros + number;
  }

  lemma StartOfBuffer(at: nat, n: nat)
    ensures Cursor(at, n, at, 0)
  {
  }

  /** The characters in front of the digits. */
  method EmitSign(buffer: array<char>, ghost at: nat, n: nat, q0: nat, o0: nat, minus: bool, f: FlagSet, base: nat,
                  ghost val: nat, ghost was: string, ghost out: string)
    returns (q: nat, o: nat)
    requires Shows(buffer[..], was, at, n, out) && o0 == |out| && Cursor(at, n, q0, o0) && minus == Negative(val, f)
    modifies buffer
    ensures var t := out + Sign(val, f) + Prefix(f, base);
            Shows(buffer[..], was, at, n, t) && o == |t| && Cursor(at, n, q, o)
  {
    hide Shows, Cursor, Negative;
    q, o := q0, o0;
    if minus {
      q, o := Emit(buffer, at, n, q, o, '-', was, out);
    } else if f.plus {
      q, o := Emit(buffer, at, n, q, o, '+', was, out);
    } else if f.space {
      q, o := Emit(buffer, at, n, q, o, ' ', was, out);
    }
    ghost var signed := out + Sign(val, f);
    assert Sign(val, f) == "" ==> signed == out;
    if f.hash && base == 16 {
      q, o := Emit(buffer, at, n, q, o, '0', was, signed);
      q, o := Emit(buffer, at, n, q, o, if f.upper then 'X' else 'x', was, signed + "0");
      assert signed + "0" + [if f.upper then 'X' else 'x'] == signed + Prefix(f, base);
    } else {
      assert signed + Prefix(f, base) == signed;
    }
  }

  method Digits(buffer: array<char>, ghost at: nat, n: nat, q0: nat, o0: nat, mag: nat, f: FlagSet, base: nat,
                tickskip: nat, ndigits: nat, ghost prec: int, ghost was: string, ghost out: string)
    returns (q: nat, o: nat)
    requires Base(base) && Shows(buffer[..], was, at, n, out) && o0 == |out| && Cursor(at, n, q0, o0)
    requires tickskip == Skip(f, base, DigitCount(mag, f, base, prec)) && ndigits == |Number(mag, f, base, prec)|
    modifies buffer
    ensures var t := out + Number(mag, f, base, prec);
            Shows(buffer[..], was, at, n, t) && o == |t| && Cursor(at, n, q, o)
  {
    hide Half, Cursor, Ticked, Skip, DigitCount;
    ghost var mid := buffer[..];
    q, o := PutNumber(buffer, at, n, q0, o0, mag, base, f.upper, tickskip, ndigits, DigitCount(mag, f, base, prec));
    HalfToShows(buffer[..], mid, was, at, n, out, Number(mag, f, base, prec));
  }

  /** The is_string label: precision cuts, width pads on the left (with zeros for 0) or, for -, on the right. */
  method PutString(buffer: array<char>, n: nat, q0: nat, o0: nat, sarg: string, f: FlagSet, width: int, prec: int,
                   ghost was: string, ghost out: string)
    returns (q: nat, o: nat)
    requires prec >= -1 && Shows(buffer[..], was, 0, n, out) && o0 == |out| && Cursor(0, n, q0, o0)
    modifies buffer
    ensures var t := out + StringText(sarg, f, width, prec);
            Shows(buffer[..], was, 0, n, t) && o == |t| && Cursor(0, n, q, o)
  {
    hide Shows, Cursor, Repeat, StringText;
    q, o := q0, o0;
    StringTextIs(out, sarg, f, width, prec);
    var slen := |sarg|;
    if prec != -1 && slen > prec { slen := prec; }
    ghost var pad := width - slen;
    ghost var early := out + Repeat(if f.zero then '0' else ' ', if f.minus then 0 else pad);
    if !f.minus {
      q, o := Pad(buffer, 0, n, q, o, if f.zero then '0' else ' ', width, slen, was, out);
    } else {
      RepeatNone(if f.zero then '0' else ' ', 0);
      assert early == out;
    }
    q, o := PutChars(buffer, n, q, o, sarg, slen, was, early);
    ghost var shown := sarg[..slen];
    if f.minus {
      q, o := Pad(buffer, 0, n, q, o, ' ', width, slen, was, early + shown);
    } else {
      RepeatNone(' ', 0);
      assert early + shown + "" == early + shown;
    }
    assert shown == if prec != -1 && |sarg| > prec then sarg[..prec] else sarg;
  }

  method PutChars(buffer: array<char>, n: nat, q0: nat, o0: nat, sarg: string, slen: nat,
                  ghost was: string, ghost out: string)
    returns (q: nat, o: nat)
    requires slen <= |sarg| && Shows(buffer[..], was, 0, n, out) && o0 == |out| && Cursor(0, n, q0, o0)
    modifies buffer
    ensures Shows(buffer[..], was, 0, n, out + sarg[..slen]) && o == |out| + slen && Cursor(0, n, q, o)
  {
    hide Shows, Cursor;
    q, o := q0, o0;
    var i: nat := slen;
    assert out + sarg[..0] == out;
    while i > 0
      invariant i <= slen
      invariant Shows(buffer[..], was, 0, n, out + sarg[..slen - i]) && o == |out| + slen - i && Cursor(0, n, q, o)
    {
      q, o := Emit(buffer, 0, n, q, o, sarg[slen - i], was, out + sarg[..slen - i]);
      assert out + sarg[..slen - i] + [sarg[slen - i]] == out + sarg[..slen - (i - 1)];
      i := i - 1;
    }
  }

  lemma RoomLeft(now: string, was: string, n: nat, q: nat, out: string)
    requires Shows(now, was, 0, n, out) && Cursor(0, n, q, |out|)
    ensures |out| < n ==> q + (n - |out|) <= |now|
  {
  }

  lemma StringTextIs(out: string, sarg: string, f: FlagSet, width: int, prec: int)
    requires prec >= -1
    ensures var shown := if prec != -1 && |sarg| > prec then sarg[..prec] else sarg;
            var pad := width - |shown|;
            out + StringText(sarg, f, width, prec)
            == out + Repeat(if f.zero then '0' else ' ', if f.minus then 0 else pad) + shown
               + Repeat(' ', if f.minus then pad else 0)
  {
    hide Repeat;
  }

  lemma RepeatNone(x: char, k: int)
    requires k <= 0
    ensures Repeat(x, k) == ""
  {
  }

  /** The is_integer label: the callee gets what is left of the buffer. */
  method PutInt(buffer: array<char>, n: nat, q0: nat, o0: nat, val: nat, f: FlagSet, base: nat, width: int, prec: int,
                ghost was: string, ghost out: string)
    returns (q: nat, o: nat)
    requires Base(base) && val < UINTMAX
    requires Shows(buffer[..], was, 0, n, out) && o0 == |out| && Cursor(0, n, q0, o0)
    modifies buffer
    ensures var t := out + IntText(val, f, base, width, prec);
            Shows(buffer[..], was, 0, n, t) && o == |t| && Cursor(0, n, q, o)
  {
    hide IntText, Shows;
    ghost var mid := buffer[..];
    RoomLeft(mid, was, n, q0, out);
    var sz := FormatInt(buffer, q0, if o0 < n then n - o0 else 0, val, f, base, width, prec);
    ShowsBehind(was, mid, buffer[..], n, q0, out, IntText(val, f, base, width, prec));
    q, o := q0 + sz, o0 + sz;
  }

  /** The terminal sequences of st_modifiers. */
  method Convert(buffer: array<char>, n: nat, q0: nat, o0: nat, ch: char, f: FlagSet, rank0: int, width: nat,
                 prec: int, args: seq<Arg>, ghost was: string, ghost out: string)
    returns (q: nat, o: nat, args': seq<Arg>)
    requires Shows(buffer[..], was, 0, n, out) && o0 == |out| && Cursor(0, n, q0, o0)
    requires ch in "cs" ==> prec >= -1
    modifies buffer
    ensures var (text, rest) := Conversion(ch, f, rank0, width, prec, args);
            Shows(buffer[..], was, 0, n, out + text) && o == |out + text| && Cursor(0, n, q, o) && args' == rest
  {
    hide Shows, Cursor, IntText, StringText, SignedVal, UnsignedVal;
    q, o := q0, o0;
    var rank := if rank0 < RANK_CHAR then RANK_CHAR else if rank0 > RANK_LONGLONG then RANK_LONGLONG else rank0;
    var a := TakeNum(args);
    args' := Rest(args);
    match ch {
      case 'P' =>
        q, o := PutInt(buffer, n, q, o, a % 0x1_0000_0000, f.(upper := true, hash := true), 16, width,
          POINTER_DIGITS, was, out);
      case 'p' =>
        q, o := PutInt(buffer, n, q, o, a % 0x1_0000_0000, f.(hash := true), 16, width, POINTER_DIGITS, was, out);
      case 'd' =>
        q, o := PutInt(buffer, n, q, o, SignedVal(rank, a), f.(signed := true), 10, width, prec, was, out);
      case 'i' =>
        q, o := PutInt(buffer, n, q, o, SignedVal(rank, a), f.(signed := true), 10, width, prec, was, out);
      case 'o' =>
        q, o := PutInt(buffer, n, q, o, UnsignedVal(rank, a), f, 8, width, prec, was, out);
      case 'u' =>
        q, o := PutInt(buffer, n, q, o, UnsignedVal(rank, a), f, 10, width, prec, was, out);
      case 'X' =>
        q, o := PutInt(buffer, n, q, o, UnsignedVal(rank, a), f.(upper := true), 16, width, prec, was, out);
      case 'x' =>
        q, o := PutInt(buffer, n, q, o, UnsignedVal(rank, a), f, 16, width, prec, was, out);
      case 'c' =>
        q, o := PutString(buffer, n, q, o, [(a % 0x100) as char], f, width, prec, was, out);
      case 's' =>
        q, o := PutString(buffer, n, q, o, TakeText(args), f, width, prec, was, out);
      case 'n' =>
        assert out + "" == out;
      case _ =>
        q, o := Emit(buffer, 0, n, q, o, ch, was, out);
        args' := args;
    }
  }

  /** vsnprintf. At most n cells are touched; they hold as much of the unbounded output as fits, and a NUL. */
  method Vsnprintf(buffer: array<char>, n: nat, format: string, ap: seq<Arg>) returns (o: nat)
    requires n <= buffer.Length && Safe(START, format, ap)
    modifies buffer
    ensures o == |Output(format, ap)|
    ensures n > 0 ==> var k := if o < n then o else n - 1;
                      buffer[..k] == Output(format, ap)[..k] && buffer[k] == '\0'
    ensures forall i | 0 <= i < buffer.Length && (i >= n || i > o) :: buffer[i] == old(buffer[i])
  {
    hide Shows, Cursor, Conversion, Run, Bounded, Safe, Rest, TakeNum, SignedOf;
    SafeExactlyIfBounded(START, format, ap);
    ghost var was := buffer[..];
    NothingShown(was, 0, n);
    StartOfBuffer(0, n);
    assert format[0..] == format && "" + Output(format, ap) == Output(format, ap);
    var q: nat, p := 0, 0;
    o := 0;
    var args := ap;
    var state, flags, rank, width, prec := Normal, NO_FLAGS, RANK_INT, 0, -1;
    ghost var out := "";
    while p < |format|
      invariant 0 <= p <= |format| && width >= 0
      invariant Shows(buffer[..], was, 0, n, out) && o == |out| && Cursor(0, n, q, o)
      invariant Bounded(Machine(state, flags, rank, width, prec), format[p..], args)
      invariant out + Run(Machine(state, flags, rank, width, prec), format[p..], args) == Output(format, ap)
      decreases |format| - p, Order(state)
    {
      var ch := format[p];
      p := p + 1;
      ghost var m := Machine(state, flags, rank, width, prec);
      ghost var e := Step(m, ch, args);
      Unroll(m, format, p - 1, args, out);
      match state {
        case Normal =>
          if ch == '%' {
            state, flags, rank, width, prec := Flags, NO_FLAGS, RANK_INT, 0, -1;
          } else {
            q, o := Emit(buffer, 0, n, q, o, ch, was, out);
          }
        case Flags =>
          match ch {
            case '-' => flags := flags.(minus := true);
            case '+' => flags := flags.(plus := true);
            case '\'' => flags := flags.(tick := true);
            case ' ' => flags := flags.(space := true);
            case '#' => flags := flags.(hash := true);
            case '0' => flags := flags.(zero := true);
            case _ =>
              state := Width;
              p := p - 1;
          }
        case Width =>
          if '0' <= ch <= '9' {
            width := width * 10 + (ch - '0') as int;
          } else if ch == '*' {
            width := SignedOf(TakeNum(args), 0x1_0000_0000);
            args := Rest(args);
            if width < 0 {
              width := -width;
              flags := flags.(minus := true);
            }
          } else if ch == '.' {
            prec := 0;
            state := Prec;
          } else {
            state := Modifiers;
            p := p - 1;
          }
        case Prec =>
          if '0' <= ch <= '9' {
            prec := prec * 10 + (ch - '0') as int;
          } else if ch == '*' {
            prec := SignedOf(TakeNum(args), 0x1_0000_0000);
            args := Rest(args);
            if prec < 0 { prec := -1; }
          } else {
            state := Modifiers;
            p := p - 1;
          }
        case Modifiers =>
          match ch {
            case 'h' => rank := rank - 1;
            case 'l' => rank := rank + 1;
            case 'j' => rank := RANK_LONGLONG;
            case 'z' => rank := RANK_LONG;
            case 't' => rank := RANK_LONG;
            case 'L' => rank := rank + 2;
            case 'q' => rank := rank + 2;
            case _ =>
              state := Normal;
              q, o, args := Convert(buffer, n, q, o, ch, flags, rank, width, prec, args, was, out);
          }
      }
      assert Machine(state, flags, rank, width, prec) == e.m && args == e.args;
      assert out + "" == out;
      out := out + e.out;
    }
    assert out + "" == out;
    RunEnds(Machine(state, flags, rank, width, prec), format[p..], args);
    Terminate(buffer, n, q, o, was, out);
  }

  lemma RunEnds(m: Machine, fmt: string, args: seq<Arg>)
    requires fmt == ""
    ensures Run(m, fmt, args) == ""
  {
  }

  lemma Unroll(m: Machine, format: string, p: nat, args: seq<Arg>, out: string)
    requires p < |format| && Bounded(m, format[p..], args)
    ensures m.state == Modifiers && format[p] in "cs" ==> m.prec >= -1
    ensures var e := Step(m, format[p], args); Bounded(e.m, format[if e.again then p else p + 1..], e.args)
    ensures var e := Step(m, format[p], args);
            out + Run(m, format[p..], args) == out + e.out + Run(e.m, format[if e.again then p else p + 1..], e.args)
  {
    hide Step;
    assert format[p..][1..] == format[p + 1..];
  }

  method Terminate(buffer: array<char>, n: nat, q: nat, o: nat, ghost was: string, ghost out: string)
    requires Shows(buffer[..], was, 0, n, out) && o == |out| && Cursor(0, n, q, o) && n <= buffer.Length
    modifies buffer
    ensures n > 0 ==> var k := if o < n then o else n - 1; buffer[..k] == out[..k] && buffer[k] == '\0'
    ensures forall i | 0 <= i < buffer.Length && (i >= n || i > o) :: buffer[i] == was[i]
  {
    if o < n {
      buffer[q] := '\0';
    } else if n > 0 {
      buffer[n - 1] := '\0';
    }
  }
}
