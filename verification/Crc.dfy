/** The CRC-32 that guards the records of the key-value store, computed a byte at a time with a table. */
module Crc {

  const POLY: bv32 := 0xedb88320

  // The few operations on words are named, so that proofs about long computations need not look at single bits.

  function Xor(a: bv32, b: bv32): bv32 { a ^ b }
  function Not(a: bv32): bv32 { a ^ 0xFFFF_FFFF }
  function Wide(b: bv8): bv32 { b as bv32 }
  function Half(c: bv32): bv32 { c >> 1 }
  predicate Odd(c: bv32) { c & 1 == 1 }
  function Down8(c: bv32): bv32 { c >> 8 }

  /** One step of the division by the polynomial, lowest bit first. */
  function Shift(c: bv32): bv32 {
    if Odd(c) then Xor(Half(c), POLY) else Half(c)
  }

  function Eight(c: bv32): bv32 {
    Shift(Shift(Shift(Shift(Shift(Shift(Shift(Shift(c))))))))
  }

  /** One more byte, by definition: it is added at the low end, then eight steps of the division. */
  function Step(c: bv32, b: bv8): bv32 {
    Eight(Xor(c, Wide(b)))
  }

  function Steps(c: bv32, d: seq<bv8>): bv32 {
    if d == [] then c else Step(Steps(c, d[..|d| - 1]), d[|d| - 1])
  }

  function Crc32(crc: bv32, d: seq<bv8>): bv32 {
    Not(Steps(Not(crc), d))
  }

  // ---------- the table, by rows of sixteen ----------

  function Row0(n: bv8): bv32 {
    if n == 0 then 0x00000000 else if n == 1 then 0x77073096 else if n == 2 then 0xee0e612c else
    if n == 3 then 0x990951ba else if n == 4 then 0x076dc419 else if n == 5 then 0x706af48f else
    if n == 6 then 0xe963a535 else if n == 7 then 0x9e6495a3 else if n == 8 then 0x0edb8832 else
    if n == 9 then 0x79dcb8a4 else if n == 10 then 0xe0d5e91e else if n == 11 then 0x97d2d988 else
    if n == 12 then 0x09b64c2b else if n == 13 then 0x7eb17cbd else if n == 14 then 0xe7b82d07 else
    0x90bf1d91
  }

  function Row1(n: bv8): bv32 {
    if n == 0 then 0x1db71064 else if n == 1 then 0x6ab020f2 else if n == 2 then 0xf3b97148 else
    if n == 3 then 0x84be41de else if n == 4 then 0x1adad47d else if n == 5 then 0x6ddde4eb else
    if n == 6 then 0xf4d4b551 else if n == 7 then 0x83d385c7 else if n == 8 then 0x136c9856 else
    if n == 9 then 0x646ba8c0 else if n == 10 then 0xfd62f97a else if n == 11 then 0x8a65c9ec else
    if n == 12 then 0x14015c4f else if n == 13 then 0x63066cd9 else if n == 14 then 0xfa0f3d63 else
    0x8d080df5
  }

  function Row2(n: bv8): bv32 {
    if n == 0 then 0x3b6e20c8 else if n == 1 then 0x4c69105e else if n == 2 then 0xd56041e4 else
    if n == 3 then 0xa2677172 else if n == 4 then 0x3c03e4d1 else if n == 5 then 0x4b04d447 else
    if n == 6 then 0xd20d85fd else if n == 7 then 0xa50ab56b else if n == 8 then 0x35b5a8fa else
    if n == 9 then 0x42b2986c else if n == 10 then 0xdbbbc9d6 else if n == 11 then 0xacbcf940 else
    if n == 12 then 0x32d86ce3 else if n == 13 then 0x45df5c75 else if n == 14 then 0xdcd60dcf else
    0xabd13d59
  }

  function Row3(n: bv8): bv32 {
    if n == 0 then 0x26d930ac else if n == 1 then 0x51de003a else if n == 2 then 0xc8d75180 else
    if n == 3 then 0xbfd06116 else if n == 4 then 0x21b4f4b5 else if n == 5 then 0x56b3c423 else
    if n == 6 then 0xcfba9599 else if n == 7 then 0xb8bda50f else if n == 8 then 0x2802b89e else
    if n == 9 then 0x5f058808 else if n == 10 then 0xc60cd9b2 else if n == 11 then 0xb10be924 else
    if n == 12 then 0x2f6f7c87 else if n == 13 then 0x58684c11 else if n == 14 then 0xc1611dab else
    0xb6662d3d
  }

  function Row4(n: bv8): bv32 {
    if n == 0 then 0x76dc4190 else if n == 1 then 0x01db7106 else if n == 2 then 0x98d220bc else
    if n == 3 then 0xefd5102a else if n == 4 then 0x71b18589 else if n == 5 then 0x06b6b51f else
    if n == 6 then 0x9fbfe4a5 else if n == 7 then 0xe8b8d433 else if n == 8 then 0x7807c9a2 else
    if n == 9 then 0x0f00f934 else if n == 10 then 0x9609a88e else if n == 11 then 0xe10e9818 else
    if n == 12 then 0x7f6a0dbb else if n == 13 then 0x086d3d2d else if n == 14 then 0x91646c97 else
    0xe6635c01
  }

  function Row5(n: bv8): bv32 {
    if n == 0 then 0x6b6b51f4 else if n == 1 then 0x1c6c6162 else if n == 2 then 0x856530d8 else
    if n == 3 then 0xf262004e else if n == 4 then 0x6c0695ed else if n == 5 then 0x1b01a57b else
    if n == 6 then 0x8208f4c1 else if n == 7 then 0xf50fc457 else if n == 8 then 0x65b0d9c6 else
    if n == 9 then 0x12b7e950 else if n == 10 then 0x8bbeb8ea else if n == 11 then 0xfcb9887c else
    if n == 12 then 0x62dd1ddf else if n == 13 then 0x15da2d49 else if n == 14 then 0x8cd37cf3 else
    0xfbd44c65
  }

  function Row6(n: bv8): bv32 {
    if n == 0 then 0x4db26158 else if n == 1 then 0x3ab551ce else if n == 2 then 0xa3bc0074 else
    if n == 3 then 0xd4bb30e2 else if n == 4 then 0x4adfa541 else if n == 5 then 0x3dd895d7 else
    if n == 6 then 0xa4d1c46d else if n == 7 then 0xd3d6f4fb else if n == 8 then 0x4369e96a else
    if n == 9 then 0x346ed9fc else if n == 10 then 0xad678846 else if n == 11 then 0xda60b8d0 else
    if n == 12 then 0x44042d73 else if n == 13 then 0x33031de5 else if n == 14 then 0xaa0a4c5f else
    0xdd0d7cc9
  }

  function Row7(n: bv8): bv32 {
    if n == 0 then 0x5005713c else if n == 1 then 0x270241aa else if n == 2 then 0xbe0b1010 else
    if n == 3 then 0xc90c2086 else if n == 4 then 0x5768b525 else if n == 5 then 0x206f85b3 else
    if n == 6 then 0xb966d409 else if n == 7 then 0xce61e49f else if n == 8 then 0x5edef90e else
    if n == 9 then 0x29d9c998 else if n == 10 then 0xb0d09822 else if n == 11 then 0xc7d7a8b4 else
    if n == 12 then 0x59b33d17 else if n == 13 then 0x2eb40d81 else if n == 14 then 0xb7bd5c3b else
    0xc0ba6cad
  }

  function Row8(n: bv8): bv32 {
    if n == 0 then 0xedb88320 else if n == 1 then 0x9abfb3b6 else if n == 2 then 0x03b6e20c else
    if n == 3 then 0x74b1d29a else if n == 4 then 0xead54739 else if n == 5 then 0x9dd277af else
    if n == 6 then 0x04db2615 else if n == 7 then 0x73dc1683 else if n == 8 then 0xe3630b12 else
    if n == 9 then 0x94643b84 else if n == 10 then 0x0d6d6a3e else if n == 11 then 0x7a6a5aa8 else
    if n == 12 then 0xe40ecf0b else if n == 13 then 0x9309ff9d else if n == 14 then 0x0a00ae27 else
    0x7d079eb1
  }

  function Row9(n: bv8): bv32 {
    if n == 0 then 0xf00f9344 else if n == 1 then 0x8708a3d2 else if n == 2 then 0x1e01f268 else
    if n == 3 then 0x6906c2fe else if n == 4 then 0xf762575d else if n == 5 then 0x806567cb else
    if n == 6 then 0x196c3671 else if n == 7 then 0x6e6b06e7 else if n == 8 then 0xfed41b76 else
    if n == 9 then 0x89d32be0 else if n == 10 then 0x10da7a5a else if n == 11 then 0x67dd4acc else
    if n == 12 then 0xf9b9df6f else if n == 13 then 0x8ebeeff9 else if n == 14 then 0x17b7be43 else
    0x60b08ed5
  }

  function Row10(n: bv8): bv32 {
    if n == 0 then 0xd6d6a3e8 else if n == 1 then 0xa1d1937e else if n == 2 then 0x38d8c2c4 else
    if n == 3 then 0x4fdff252 else if n == 4 then 0xd1bb67f1 else if n == 5 then 0xa6bc5767 else
    if n == 6 then 0x3fb506dd else if n == 7 then 0x48b2364b else if n == 8 then 0xd80d2bda else
    if n == 9 then 0xaf0a1b4c else if n == 10 then 0x36034af6 else if n == 11 then 0x41047a60 else
    if n == 12 then 0xdf60efc3 else if n == 13 then 0xa867df55 else if n == 14 then 0x316e8eef else
    0x4669be79
  }

  function Row11(n: bv8): bv32 {
    if n == 0 then 0xcb61b38c else if n == 1 then 0xbc66831a else if n == 2 then 0x256fd2a0 else
    if n == 3 then 0x5268e236 else if n == 4 then 0xcc0c7795 else if n == 5 then 0xbb0b4703 else
    if n == 6 then 0x220216b9 else if n == 7 then 0x5505262f else if n == 8 then 0xc5ba3bbe else
    if n == 9 then 0xb2bd0b28 else if n == 10 then 0x2bb45a92 else if n == 11 then 0x5cb36a04 else
    if n == 12 then 0xc2d7ffa7 else if n == 13 then 0xb5d0cf31 else if n == 14 then 0x2cd99e8b else
    0x5bdeae1d
  }

  function Row12(n: bv8): bv32 {
    if n == 0 then 0x9b64c2b0 else if n == 1 then 0xec63f226 else if n == 2 then 0x756aa39c else
    if n == 3 then 0x026d930a else if n == 4 then 0x9c0906a9 else if n == 5 then 0xeb0e363f else
    if n == 6 then 0x72076785 else if n == 7 then 0x05005713 else if n == 8 then 0x95bf4a82 else
    if n == 9 then 0xe2b87a14 else if n == 10 then 0x7bb12bae else if n == 11 then 0x0cb61b38 else
    if n == 12 then 0x92d28e9b else if n == 13 then 0xe5d5be0d else if n == 14 then 0x7cdcefb7 else
    0x0bdbdf21
  }

  function Row13(n: bv8): bv32 {
    if n == 0 then 0x86d3d2d4 else if n == 1 then 0xf1d4e242 else if n == 2 then 0x68ddb3f8 else
    if n == 3 then 0x1fda836e else if n == 4 then 0x81be16cd else if n == 5 then 0xf6b9265b else
    if n == 6 then 0x6fb077e1 else if n == 7 then 0x18b74777 else if n == 8 then 0x88085ae6 else
    if n == 9 then 0xff0f6a70 else if n == 10 then 0x66063bca else if n == 11 then 0x11010b5c else
    if n == 12 then 0x8f659eff else if n == 13 then 0xf862ae69 else if n == 14 then 0x616bffd3 else
    0x166ccf45
  }

  function Row14(n: bv8): bv32 {
    if n == 0 then 0xa00ae278 else if n == 1 then 0xd70dd2ee else if n == 2 then 0x4e048354 else
    if n == 3 then 0x3903b3c2 else if n == 4 then 0xa7672661 else if n == 5 then 0xd06016f7 else
    if n == 6 then 0x4969474d else if n == 7 then 0x3e6e77db else if n == 8 then 0xaed16a4a else
    if n == 9 then 0xd9d65adc else if n == 10 then 0x40df0b66 else if n == 11 then 0x37d83bf0 else
    if n == 12 then 0xa9bcae53 else if n == 13 then 0xdebb9ec5 else if n == 14 then 0x47b2cf7f else
    0x30b5ffe9
  }

  function Row15(n: bv8): bv32 {
    if n == 0 then 0xbdbdf21c else if n == 1 then 0xcabac28a else if n == 2 then 0x53b39330 else
    if n == 3 then 0x24b4a3a6 else if n == 4 then 0xbad03605 else if n == 5 then 0xcdd70693 else
    if n == 6 then 0x54de5729 else if n == 7 then 0x23d967bf else if n == 8 then 0xb3667a2e else
    if n == 9 then 0xc4614ab8 else if n == 10 then 0x5d681b02 else if n == 11 then 0x2a6f2b94 else
    if n == 12 then 0xb40bbe37 else if n == 13 then 0xc30c8ea1 else if n == 14 then 0x5a05df1b else
    0x2d02ef8d
  }


  lemma Row0Is(i: bv8)
    requires i >> 4 == 0
    ensures Row0(i & 15) == Eight(Wide(i))
  {
  }

  lemma Row1Is(i: bv8)
    requires i >> 4 == 1
    ensures Row1(i & 15) == Eight(Wide(i))
  {
  }

  lemma Row2Is(i: bv8)
    requires i >> 4 == 2
    ensures Row2(i & 15) == Eight(Wide(i))
  {
  }

  lemma Row3Is(i: bv8)
    requires i >> 4 == 3
    ensures Row3(i & 15) == Eight(Wide(i))
  {
  }

  lemma Row4Is(i: bv8)
    requires i >> 4 == 4
    ensures Row4(i & 15) == Eight(Wide(i))
  {
  }

  lemma Row5Is(i: bv8)
    requires i >> 4 == 5
    ensures Row5(i & 15) == Eight(Wide(i))
  {
  }

  lemma Row6Is(i: bv8)
    requires i >> 4 == 6
    ensures Row6(i & 15) == Eight(Wide(i))
  {
  }

  lemma Row7Is(i: bv8)
    requires i >> 4 == 7
    ensures Row7(i & 15) == Eight(Wide(i))
  {
  }

  lemma Row8Is(i: bv8)
    requires i >> 4 == 8
    ensures Row8(i & 15) == Eight(Wide(i))
  {
  }

  lemma Row9Is(i: bv8)
    requires i >> 4 == 9
    ensures Row9(i & 15) == Eight(Wide(i))
  {
  }

  lemma Row10Is(i: bv8)
    requires i >> 4 == 10
    ensures Row10(i & 15) == Eight(Wide(i))
  {
  }

  lemma Row11Is(i: bv8)
    requires i >> 4 == 11
    ensures Row11(i & 15) == Eight(Wide(i))
  {
  }

  lemma Row12Is(i: bv8)
    requires i >> 4 == 12
    ensures Row12(i & 15) == Eight(Wide(i))
  {
  }

  lemma Row13Is(i: bv8)
    requires i >> 4 == 13
    ensures Row13(i & 15) == Eight(Wide(i))
  {
  }

  lemma Row14Is(i: bv8)
    requires i >> 4 == 14
    ensures Row14(i & 15) == Eight(Wide(i))
  {
  }

  lemma Row15Is(i: bv8)
    requires i >> 4 == 15
    ensures Row15(i & 15) == Eight(Wide(i))
  {
  }

  function Table(i: bv8): bv32 {
    var n := i & 15;
    if i >> 4 == 0 then Row0(n) else if i >> 4 == 1 then Row1(n) else if i >> 4 == 2 then Row2(n)
    else if i >> 4 == 3 then Row3(n) else if i >> 4 == 4 then Row4(n) else if i >> 4 == 5 then Row5(n)
    else if i >> 4 == 6 then Row6(n) else if i >> 4 == 7 then Row7(n) else if i >> 4 == 8 then Row8(n)
    else if i >> 4 == 9 then Row9(n) else if i >> 4 == 10 then Row10(n) else if i >> 4 == 11 then Row11(n)
    else if i >> 4 == 12 then Row12(n) else if i >> 4 == 13 then Row13(n) else if i >> 4 == 14 then Row14(n)
    else Row15(n)
  }

  /** Every entry of the table is what eight steps make of its index. */
  lemma TableIsEightSteps(i: bv8)
    ensures Table(i) == Eight(Wide(i))
  {
    hide Eight, Wide, Row0, Row1, Row2, Row3, Row4, Row5, Row6, Row7, Row8, Row9, Row10, Row11, Row12, Row13,
         Row14, Row15;
    HighNibble(i);
    if i >> 4 == 0 { Row0Is(i); } else if i >> 4 == 1 { Row1Is(i); } else if i >> 4 == 2 { Row2Is(i); }
    else if i >> 4 == 3 { Row3Is(i); } else if i >> 4 == 4 { Row4Is(i); } else if i >> 4 == 5 { Row5Is(i); }
    else if i >> 4 == 6 { Row6Is(i); } else if i >> 4 == 7 { Row7Is(i); } else if i >> 4 == 8 { Row8Is(i); }
    else if i >> 4 == 9 { Row9Is(i); } else if i >> 4 == 10 { Row10Is(i); } else if i >> 4 == 11 { Row11Is(i); }
    else if i >> 4 == 12 { Row12Is(i); } else if i >> 4 == 13 { Row13Is(i); } else if i >> 4 == 14 { Row14Is(i); }
    else { Row15Is(i); }
  }

  lemma HighNibble(i: bv8)
    ensures i >> 4 <= 15
  {
  }

  // ---------- the division is linear and loses nothing ----------

  lemma HalfLinear(a: bv32, b: bv32)
    ensures Half(Xor(a, b)) == Xor(Half(a), Half(b))
  {
  }

  lemma OddLinear(a: bv32, b: bv32)
    ensures Odd(Xor(a, b)) <==> Odd(a) != Odd(b)
  {
  }

  lemma XorAssociates(a: bv32, b: bv32, c: bv32)
    ensures Xor(Xor(a, b), c) == Xor(a, Xor(b, c))
  {
  }

  lemma XorCommutes(a: bv32, b: bv32)
    ensures Xor(a, b) == Xor(b, a) && Xor(Xor(a, b), b) == a
  {
  }

  lemma XorShuffle(a: bv32, b: bv32, p: bv32)
    ensures Xor(Xor(a, b), p) == Xor(Xor(a, p), b) && Xor(Xor(a, b), p) == Xor(a, Xor(b, p))
    ensures Xor(a, b) == Xor(Xor(a, p), Xor(b, p))
  {
    hide Xor;
    XorAssociates(a, b, p);
    XorCommutes(b, p);
    XorAssociates(a, p, b);
    XorAssociates(a, p, Xor(p, b));
    XorAssociates(p, p, b);
    XorCommutes(p, Xor(p, b));
    XorCommutes(p, b);
    XorCommutes(b, p);
    XorCommutes(Xor(p, b), p);
  }

  lemma ShiftLinear(a: bv32, b: bv32)
    ensures Shift(Xor(a, b)) == Xor(Shift(a), Shift(b))
  {
    hide Half, Odd, Xor;
    HalfLinear(a, b);
    OddLinear(a, b);
    XorShuffle(Half(a), Half(b), POLY);
  }

  /** The top bit of the polynomial tells whether it was added. */
  lemma ShiftInjective(a: bv32, b: bv32)
    ensures Shift(a) == Shift(b) ==> a == b
  {
  }

  lemma EightLinear(a: bv32, b: bv32)
    ensures Eight(Xor(a, b)) == Xor(Eight(a), Eight(b))
  {
    hide Shift, Xor;
    for k := 0 to 8
      invariant Times(k, Xor(a, b)) == Xor(Times(k, a), Times(k, b))
    {
      ShiftLinear(Times(k, a), Times(k, b));
    }
    EightIsTimes(a);
    EightIsTimes(b);
    EightIsTimes(Xor(a, b));
  }

  function Times(k: nat, c: bv32): bv32 {
    if k == 0 then c else Shift(Times(k - 1, c))
  }

  lemma EightIsTimes(c: bv32)
    ensures Eight(c) == Times(8, c)
  {
    hide Shift;
    assert Times(0, c) == c;
    assert Times(2, c) == Shift(Times(1, c));
    assert Times(4, c) == Shift(Times(3, c));
    assert Times(6, c) == Shift(Times(5, c));
  }

  lemma EightInjective(a: bv32, b: bv32)
    ensures Eight(a) == Eight(b) ==> a == b
  {
    hide Shift;
    EightIsTimes(a);
    EightIsTimes(b);
    for k := 0 to 8
      invariant Times(k, a) == Times(k, b) ==> a == b
    {
      ShiftInjective(Times(k, a), Times(k, b));
    }
  }

  predicate LowByteClear(y: bv32) { y & 0xFF == 0 }

  lemma EightOfHigh(y: bv32)
    requires LowByteClear(y)
    ensures Eight(y) == Down8(y)
  {
    LowBitsClear(y);
    ShiftsAdd(y);
  }

  lemma LowBitsClear(y: bv32)
    requires y & 0xFF == 0
    ensures y & 1 == 0 && (y >> 1) & 1 == 0 && (y >> 2) & 1 == 0 && (y >> 3) & 1 == 0
    ensures (y >> 4) & 1 == 0 && (y >> 5) & 1 == 0 && (y >> 6) & 1 == 0 && (y >> 7) & 1 == 0
  {
  }

  lemma ShiftsAdd(y: bv32)
    ensures (y >> 1) >> 1 == y >> 2 && (y >> 2) >> 1 == y >> 3 && (y >> 3) >> 1 == y >> 4 && (y >> 4) >> 1 == y >> 5
    ensures (y >> 5) >> 1 == y >> 6 && (y >> 6) >> 1 == y >> 7 && (y >> 7) >> 1 == y >> 8
  {
  }

  // ---------- the table-driven form ----------

  function LowByte(c: bv32): bv8 { (c & 0xFF) as bv8 }
  function HighPart(c: bv32): bv32 { c & 0xFFFF_FF00 }

  lemma SplitLow(x: bv32)
    ensures x == Xor(Wide(LowByte(x)), HighPart(x)) && LowByteClear(HighPart(x)) && Down8(HighPart(x)) == Down8(x)
  {
  }

  lemma ByteIsLow(c: bv32, b: bv8)
    ensures Down8(Xor(c, Wide(b))) == Down8(c)
  {
  }

  lemma TableStep(c: bv32, b: bv8)
    ensures Xor(Table(LowByte(Xor(c, Wide(b)))), Down8(c)) == Step(c, b)
  {
    hide Table, Eight, Xor, Wide, LowByte, HighPart, Down8, LowByteClear;
    var x := Xor(c, Wide(b));
    SplitLow(x);
    ByteIsLow(c, b);
    TableIsEightSteps(LowByte(x));
    EightLinear(Wide(LowByte(x)), HighPart(x));
    EightOfHigh(HighPart(x));
  }

  /** fdb_calc_crc32. */
  method CalcCrc32(crc0: bv32, buf: seq<bv8>) returns (crc: bv32)
    ensures crc == Crc32(crc0, buf)
  {
    hide Table, Step, Xor, Wide, LowByte, Down8, Not;
    crc := Not(crc0);
    var p := 0;
    while p < |buf|
      invariant 0 <= p <= |buf| && crc == Steps(Not(crc0), buf[..p])
    {
      assert buf[..p + 1][..p] == buf[..p];
      TableStep(crc, buf[p]);
      crc := Xor(Table(LowByte(Xor(crc, Wide(buf[p])))), Down8(crc));
      p := p + 1;
    }
    assert buf[..p] == buf;
    crc := Not(crc);
  }

  /** The loop of read_kv: the checksum of a record's name and value, read in pieces of 32 bytes. */
  method CrcInPieces(crc0: bv32, data: seq<bv8>) returns (crc: bv32)
    ensures crc == Crc32(crc0, data)
  {
    hide Crc32;
    crc := crc0;
    var len := 0;
    CrcOfNothing(crc0);
    while len < |data|
      invariant 0 <= len <= |data| && crc == Crc32(crc0, data[..len])
    {
      var size := if len + 32 < |data| then 32 else |data| - len;
      PiecesCompose(crc0, data[..len], data[len..len + size]);
      assert data[..len] + data[len..len + size] == data[..len + size];
      crc := CalcCrc32(crc, data[len..len + size]);
      len := len + size;
    }
    assert data[..len] == data;
  }

  const START: bv32 := 0xFFFF_FFFF

  /** One more byte. */
  lemma StepsNext(d: seq<bv8>, e: seq<bv8>, b: bv8, c: bv32, c': bv32)
    requires Steps(START, d) == c && e == d + [b] && Step(c, b) == c'
    ensures Steps(START, e) == c'
  {
    hide Step;
    assert e[..|d|] == d;
  }

  lemma StepsOfCheck()
    ensures Step(START, 0x31) == 0x7C23_1048
    ensures Step(0x7C23_1048, 0x32) == 0xB0AC_BB32
    ensures Step(0xB0AC_BB32, 0x33) == 0x77B7_9C2D
    ensures Step(0x77B7_9C2D, 0x34) == 0x641C_1F5C
    ensures Step(0x641C_1F5C, 0x35) == 0x340A_C5E3
    ensures Step(0x340A_C5E3, 0x36) == 0xF68D_2C9E
    ensures Step(0xF68D_2C9E, 0x37) == 0xAFFC_9660
    ensures Step(0xAFFC_9660, 0x38) == 0x651F_2550
    ensures Step(0x651F_2550, 0x39) == 0x340B_C6D9
  {
  }

  /** The check value of CRC-32: that of the characters "123456789". */
  lemma CheckValue()
    ensures Crc32(0, [0x31, 0x32, 0x33, 0x34, 0x35, 0x36, 0x37, 0x38, 0x39]) == 0xCBF4_3926
  {
    StepsOfCheck();
    hide Step;
    var d1: seq<bv8>, d2: seq<bv8>, d3: seq<bv8> := [0x31], [0x31, 0x32], [0x31, 0x32, 0x33];
    var d4, d5, d6 := d3 + [0x34], d3 + [0x34, 0x35], d3 + [0x34, 0x35, 0x36];
    var d7, d8, d9 := d6 + [0x37], d6 + [0x37, 0x38], d6 + [0x37, 0x38, 0x39];
    StepsNext([], d1, 0x31, START, 0x7C23_1048);
    hide Steps;
    StepsNext(d1, d2, 0x32, 0x7C23_1048, 0xB0AC_BB32);
    StepsNext(d2, d3, 0x33, 0xB0AC_BB32, 0x77B7_9C2D);
    StepsNext(d3, d4, 0x34, 0x77B7_9C2D, 0x641C_1F5C);
    StepsNext(d4, d5, 0x35, 0x641C_1F5C, 0x340A_C5E3);
    StepsNext(d5, d6, 0x36, 0x340A_C5E3, 0xF68D_2C9E);
    StepsNext(d6, d7, 0x37, 0xF68D_2C9E, 0xAFFC_9660);
    StepsNext(d7, d8, 0x38, 0xAFFC_9660, 0x651F_2550);
    StepsNext(d8, d9, 0x39, 0x651F_2550, 0x340B_C6D9);
    assert d9 == [0x31, 0x32, 0x33, 0x34, 0x35, 0x36, 0x37, 0x38, 0x39];
    assert Not(0) == START && Not(0x340B_C6D9) == 0xCBF4_3926;
  }

  lemma NotNot(c: bv32)
    ensures Not(Not(c)) == c
  {
  }

  lemma CrcOfNothing(crc: bv32)
    ensures Crc32(crc, []) == crc
  {
    NotNot(crc);
  }

  lemma {:induction false} StepsCompose(c: bv32, a: seq<bv8>, b: seq<bv8>)
    ensures Steps(c, a + b) == Steps(Steps(c, a), b)
    decreases |b|
  {
    hide Step;
    if b == [] {
      assert a + b == a;
    } else {
      assert (a + b)[..|a + b| - 1] == a + b[..|b| - 1];
      StepsCompose(c, a, b[..|b| - 1]);
    }
  }

  /** The checksum of a whole is that of its second piece, started with that of the first. */
  lemma PiecesCompose(crc: bv32, a: seq<bv8>, b: seq<bv8>)
    ensures Crc32(crc, a + b) == Crc32(Crc32(crc, a), b)
  {
    hide Steps, Not;
    StepsCompose(Not(crc), a, b);
    NotNot(Steps(Not(crc), a));
  }

  // ---------- what the checksum detects ----------

  lemma XorInjective(a: bv32, b: bv32, x: bv32)
    ensures Xor(a, x) == Xor(b, x) ==> a == b
    ensures Xor(x, a) == Xor(x, b) ==> a == b
  {
  }

  /** Different states stay different under the same bytes. */
  lemma {:induction false} StepsInjective(c: bv32, c': bv32, d: seq<bv8>)
    requires c != c'
    ensures Steps(c, d) != Steps(c', d)
    decreases |d|
  {
    hide Eight, Xor, Wide;
    if d != [] {
      var x, y, b := Steps(c, d[..|d| - 1]), Steps(c', d[..|d| - 1]), Wide(d[|d| - 1]);
      StepsInjective(c, c', d[..|d| - 1]);
      XorInjective(x, y, b);
      EightInjective(Xor(x, b), Xor(y, b));
    }
  }

  function Up8(c: bv32): bv32 { c << 8 }

  function Word(w: seq<bv8>): bv32
    requires |w| == 4
  {
    Xor(Xor(Xor(Wide(w[0]), Up8(Wide(w[1]))), Up8(Up8(Wide(w[2])))), Up8(Up8(Up8(Wide(w[3])))))
  }

  lemma WordBytes(w: seq<bv8>, a: bv8, b: bv8, c: bv8, d: bv8)
    requires w == [a, b, c, d]
    ensures var x := Word(w);
            LowByte(x) == a && LowByte(Down8(x)) == b && LowByte(Down8(Down8(x))) == c
              && LowByte(Down8(Down8(Down8(x)))) == d
  {
    WordParts(a, b, c, d);
  }

  lemma WordParts(a: bv8, b: bv8, c: bv8, d: bv8)
    ensures var x := Xor(Xor(Xor(Wide(a), Up8(Wide(b))), Up8(Up8(Wide(c)))), Up8(Up8(Up8(Wide(d)))));
            LowByte(x) == a && LowByte(Down8(x)) == b && LowByte(Down8(Down8(x))) == c
              && LowByte(Down8(Down8(Down8(x)))) == d
  {
  }

  lemma WordInjective(w: seq<bv8>, w': seq<bv8>)
    requires |w| == 4 && |w'| == 4
    ensures Word(w) == Word(w') ==> w == w'
  {
    hide Word, LowByte, Down8;
    WordBytes(w, w[0], w[1], w[2], w[3]);
    WordBytes(w', w'[0], w'[1], w'[2], w'[3]);
  }

  lemma UpIsHigh(b: bv8)
    ensures var y := Wide(b);
            && LowByteClear(Up8(y)) && Down8(Up8(y)) == y
            && LowByteClear(Up8(Up8(y))) && Down8(Up8(Up8(y))) == Up8(y)
            && LowByteClear(Up8(Up8(Up8(y)))) && Down8(Up8(Up8(Up8(y)))) == Up8(Up8(y))
  {
  }

  /** A byte taken in later is a byte added higher up earlier. */
  lemma Earlier(x: bv32, y: bv32)
    requires LowByteClear(Up8(y)) && Down8(Up8(y)) == y
    ensures Xor(Eight(x), y) == Eight(Xor(x, Up8(y)))
  {
    hide Eight, Xor, Up8, Down8, LowByteClear;
    EightOfHigh(Up8(y));
    EightLinear(x, Up8(y));
  }

  lemma Regroup(c: bv32, y0: bv32, y1: bv32, y2: bv32, y3: bv32)
    ensures Xor(Xor(Xor(Xor(c, y0), y1), y2), y3) == Xor(c, Xor(Xor(Xor(y0, y1), y2), y3))
  {
  }

  /** Four bytes are taken in as one word. */
  lemma FourAtOnce(c: bv32, w: seq<bv8>)
    requires |w| == 4
    ensures Steps(c, w) == Eight(Eight(Eight(Eight(Xor(c, Word(w))))))
  {
    hide Eight, Xor, Up8, Down8, LowByteClear, Wide;
    assert w[..3][..2] == w[..2] && w[..2][..1] == w[..1] && w[..1][..0] == [];
    var y1, y2, y3 := Wide(w[1]), Wide(w[2]), Wide(w[3]);
    UpIsHigh(w[1]);
    UpIsHigh(w[2]);
    UpIsHigh(w[3]);
    var x0 := Xor(c, Wide(w[0]));
    assert Steps(c, w[..1]) == Eight(x0);
    Earlier(x0, y1);
    var x1 := Xor(x0, Up8(y1));
    assert Steps(c, w[..2]) == Eight(Eight(x1));
    Earlier(Eight(x1), y2);
    Earlier(x1, Up8(y2));
    var x2 := Xor(x1, Up8(Up8(y2)));
    assert Steps(c, w[..3]) == Eight(Eight(Eight(x2)));
    Earlier(Eight(Eight(x2)), y3);
    Earlier(Eight(x2), Up8(y3));
    Earlier(x2, Up8(Up8(y3)));
    Regroup(c, Wide(w[0]), Up8(y1), Up8(Up8(y2)), Up8(Up8(Up8(y3))));
  }

  /** Any change that is confined to four consecutive bytes changes the checksum. */
  lemma BurstIsDetected(crc: bv32, a: seq<bv8>, w: seq<bv8>, w': seq<bv8>, z: seq<bv8>)
    requires |w| == 4 && |w'| == 4 && w != w'
    ensures Crc32(crc, a + w + z) != Crc32(crc, a + w' + z)
  {
    hide Eight, Steps, Word, Not, Xor;
    var s := Not(crc);
    var c := Steps(s, a);
    StepsCompose(s, a + w, z);
    StepsCompose(s, a + w', z);
    StepsCompose(s, a, w);
    StepsCompose(s, a, w');
    FourAtOnce(c, w);
    FourAtOnce(c, w');
    WordInjective(w, w');
    XorInjective(Word(w), Word(w'), c);
    var x, y := Xor(c, Word(w)), Xor(c, Word(w'));
    EightInjective(x, y);
    EightInjective(Eight(x), Eight(y));
    EightInjective(Eight(Eight(x)), Eight(Eight(y)));
    EightInjective(Eight(Eight(Eight(x))), Eight(Eight(Eight(y))));
    StepsInjective(Steps(c, w), Steps(c, w'), z);
    NotNot(Steps(s, a + w + z));
    NotNot(Steps(s, a + w' + z));
  }
}
