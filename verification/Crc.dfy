/**
 The 16-bit checksum of data blocks, computed a byte at a time from a table.  It is proved
 equal to bit-at-a-time division by x^16 + x^12 + x^5 + 1 (section 2 of ITU-T Recommendation
 V.41), and to detect every change confined to 16 adjacent bits and every change of an odd number
 of bits.
 */
module Crc {

  const CRC_INIT_VALUE: bv16 := 0xffff
  const CRC_XOR_VALUE: bv16 := 0x0000

  // ----- Division, one bit at a time ----------------------------------------------------------

  /**
   Multiply the remainder by x and reduce: the bit shifted out of x^15 comes back in at
   x^12, x^5 and 1.
   */
  function Shift(r: bv16): bv16 {
    (r << 1) ^ ((r >> 15) << 12) ^ ((r >> 15) << 5) ^ (r >> 15)
  }

  /** Addition of remainders. */
  function Xor(a: bv16, b: bv16): bv16 { a ^ b }

  /** A message byte at the top of a remainder. */
  function Top(b: bv8): bv16 { (b as bv16) << 8 }

  /** The usual way to write it: subtract the divisor when a bit falls out. */
  lemma ShiftSubtractsDivisor(r: bv16)
    ensures Shift(r) == if r & 0x8000 != 0 then (r << 1) ^ 0x1021 else r << 1
  {
    if r & 0x8000 == 0 { assert r >> 15 == 0; } else { assert r >> 15 == 1; }
  }

  function Shifts(n: nat, r: bv16): bv16 {
    if n == 0 then r else Shift(Shifts(n - 1, r))
  }

  /** Feed the next 8 message bits into the top of the remainder and divide them out. */
  function DivideByte(r: bv16, b: bv8): bv16 {
    Shifts(8, Xor(r, Top(b)))
  }

  /** The remainder of a message, starting from remainder `r`. */
  function Remainder(r: bv16, data: seq<bv8>): bv16
    decreases |data|
  {
    if data == [] then r else DivideByte(Remainder(r, data[..|data| - 1]), data[|data| - 1])
  }

  // ----- The table ------------------------------------------------------------------------------

  function TableEntry(hi: bv16, lo: bv16): bv16 {
    if hi == 0 then
      if lo == 0 then 0x0000 else if lo == 1 then 0x1021 else if lo == 2 then 0x2042 else if lo == 3 then 0x3063 else
      if lo == 4 then 0x4084 else if lo == 5 then 0x50a5 else if lo == 6 then 0x60c6 else if lo == 7 then 0x70e7 else
      if lo == 8 then 0x8108 else if lo == 9 then 0x9129 else if lo == 10 then 0xa14a else if lo == 11 then 0xb16b else
      if lo == 12 then 0xc18c else if lo == 13 then 0xd1ad else if lo == 14 then 0xe1ce else 0xf1ef
    else if hi == 1 then
      if lo == 0 then 0x1231 else if lo == 1 then 0x0210 else if lo == 2 then 0x3273 else if lo == 3 then 0x2252 else
      if lo == 4 then 0x52b5 else if lo == 5 then 0x4294 else if lo == 6 then 0x72f7 else if lo == 7 then 0x62d6 else
      if lo == 8 then 0x9339 else if lo == 9 then 0x8318 else if lo == 10 then 0xb37b else if lo == 11 then 0xa35a else
      if lo == 12 then 0xd3bd else if lo == 13 then 0xc39c else if lo == 14 then 0xf3ff else 0xe3de
    else if hi == 2 then
      if lo == 0 then 0x2462 else if lo == 1 then 0x3443 else if lo == 2 then 0x0420 else if lo == 3 then 0x1401 else
      if lo == 4 then 0x64e6 else if lo == 5 then 0x74c7 else if lo == 6 then 0x44a4 else if lo == 7 then 0x5485 else
      if lo == 8 then 0xa56a else if lo == 9 then 0xb54b else if lo == 10 then 0x8528 else if lo == 11 then 0x9509 else
      if lo == 12 then 0xe5ee else if lo == 13 then 0xf5cf else if lo == 14 then 0xc5ac else 0xd58d
    else if hi == 3 then
      if lo == 0 then 0x3653 else if lo == 1 then 0x2672 else if lo == 2 then 0x1611 else if lo == 3 then 0x0630 else
      if lo == 4 then 0x76d7 else if lo == 5 then 0x66f6 else if lo == 6 then 0x5695 else if lo == 7 then 0x46b4 else
      if lo == 8 then 0xb75b else if lo == 9 then 0xa77a else if lo == 10 then 0x9719 else if lo == 11 then 0x8738 else
      if lo == 12 then 0xf7df else if lo == 13 then 0xe7fe else if lo == 14 then 0xd79d else 0xc7bc
    else if hi == 4 then
      if lo == 0 then 0x48c4 else if lo == 1 then 0x58e5 else if lo == 2 then 0x6886 else if lo == 3 then 0x78a7 else
      if lo == 4 then 0x0840 else if lo == 5 then 0x1861 else if lo == 6 then 0x2802 else if lo == 7 then 0x3823 else
      if lo == 8 then 0xc9cc else if lo == 9 then 0xd9ed else if lo == 10 then 0xe98e else if lo == 11 then 0xf9af else
      if lo == 12 then 0x8948 else if lo == 13 then 0x9969 else if lo == 14 then 0xa90a else 0xb92b
    else if hi == 5 then
      if lo == 0 then 0x5af5 else if lo == 1 then 0x4ad4 else if lo == 2 then 0x7ab7 else if lo == 3 then 0x6a96 else
      if lo == 4 then 0x1a71 else if lo == 5 then 0x0a50 else if lo == 6 then 0x3a33 else if lo == 7 then 0x2a12 else
      if lo == 8 then 0xdbfd else if lo == 9 then 0xcbdc else if lo == 10 then 0xfbbf else if lo == 11 then 0xeb9e else
      if lo == 12 then 0x9b79 else if lo == 13 then 0x8b58 else if lo == 14 then 0xbb3b else 0xab1a
    else if hi == 6 then
      if lo == 0 then 0x6ca6 else if lo == 1 then 0x7c87 else if lo == 2 then 0x4ce4 else if lo == 3 then 0x5cc5 else
      if lo == 4 then 0x2c22 else if lo == 5 then 0x3c03 else if lo == 6 then 0x0c60 else if lo == 7 then 0x1c41 else
      if lo == 8 then 0xedae else if lo == 9 then 0xfd8f else if lo == 10 then 0xcdec else if lo == 11 then 0xddcd else
      if lo == 12 then 0xad2a else if lo == 13 then 0xbd0b else if lo == 14 then 0x8d68 else 0x9d49
    else if hi == 7 then
      if lo == 0 then 0x7e97 else if lo == 1 then 0x6eb6 else if lo == 2 then 0x5ed5 else if lo == 3 then 0x4ef4 else
      if lo == 4 then 0x3e13 else if lo == 5 then 0x2e32 else if lo == 6 then 0x1e51 else if lo == 7 then 0x0e70 else
      if lo == 8 then 0xff9f else if lo == 9 then 0xefbe else if lo == 10 then 0xdfdd else if lo == 11 then 0xcffc else
      if lo == 12 then 0xbf1b else if lo == 13 then 0xaf3a else if lo == 14 then 0x9f59 else 0x8f78
    else if hi == 8 then
      if lo == 0 then 0x9188 else if lo == 1 then 0x81a9 else if lo == 2 then 0xb1ca else if lo == 3 then 0xa1eb else
      if lo == 4 then 0xd10c else if lo == 5 then 0xc12d else if lo == 6 then 0xf14e else if lo == 7 then 0xe16f else
      if lo == 8 then 0x1080 else if lo == 9 then 0x00a1 else if lo == 10 then 0x30c2 else if lo == 11 then 0x20e3 else
      if lo == 12 then 0x5004 else if lo == 13 then 0x4025 else if lo == 14 then 0x7046 else 0x6067
    else if hi == 9 then
      if lo == 0 then 0x83b9 else if lo == 1 then 0x9398 else if lo == 2 then 0xa3fb else if lo == 3 then 0xb3da else
      if lo == 4 then 0xc33d else if lo == 5 then 0xd31c else if lo == 6 then 0xe37f else if lo == 7 then 0xf35e else
      if lo == 8 then 0x02b1 else if lo == 9 then 0x1290 else if lo == 10 then 0x22f3 else if lo == 11 then 0x32d2 else
      if lo == 12 then 0x4235 else if lo == 13 then 0x5214 else if lo == 14 then 0x6277 else 0x7256
    else if hi == 10 then
      if lo == 0 then 0xb5ea else if lo == 1 then 0xa5cb else if lo == 2 then 0x95a8 else if lo == 3 then 0x8589 else
      if lo == 4 then 0xf56e else if lo == 5 then 0xe54f else if lo == 6 then 0xd52c else if lo == 7 then 0xc50d else
      if lo == 8 then 0x34e2 else if lo == 9 then 0x24c3 else if lo == 10 then 0x14a0 else if lo == 11 then 0x0481 else
      if lo == 12 then 0x7466 else if lo == 13 then 0x6447 else if lo == 14 then 0x5424 else 0x4405
    else if hi == 11 then
      if lo == 0 then 0xa7db else if lo == 1 then 0xb7fa else if lo == 2 then 0x8799 else if lo == 3 then 0x97b8 else
      if lo == 4 then 0xe75f else if lo == 5 then 0xf77e else if lo == 6 then 0xc71d else if lo == 7 then 0xd73c else
      if lo == 8 then 0x26d3 else if lo == 9 then 0x36f2 else if lo == 10 then 0x0691 else if lo == 11 then 0x16b0 else
      if lo == 12 then 0x6657 else if lo == 13 then 0x7676 else if lo == 14 then 0x4615 else 0x5634
    else if hi == 12 then
      if lo == 0 then 0xd94c else if lo == 1 then 0xc96d else if lo == 2 then 0xf90e else if lo == 3 then 0xe92f else
      if lo == 4 then 0x99c8 else if lo == 5 then 0x89e9 else if lo == 6 then 0xb98a else if lo == 7 then 0xa9ab else
      if lo == 8 then 0x5844 else if lo == 9 then 0x4865 else if lo == 10 then 0x7806 else if lo == 11 then 0x6827 else
      if lo == 12 then 0x18c0 else if lo == 13 then 0x08e1 else if lo == 14 then 0x3882 else 0x28a3
    else if hi == 13 then
      if lo == 0 then 0xcb7d else if lo == 1 then 0xdb5c else if lo == 2 then 0xeb3f else if lo == 3 then 0xfb1e else
      if lo == 4 then 0x8bf9 else if lo == 5 then 0x9bd8 else if lo == 6 then 0xabbb else if lo == 7 then 0xbb9a else
      if lo == 8 then 0x4a75 else if lo == 9 then 0x5a54 else if lo == 10 then 0x6a37 else if lo == 11 then 0x7a16 else
      if lo == 12 then 0x0af1 else if lo == 13 then 0x1ad0 else if lo == 14 then 0x2ab3 else 0x3a92
    else if hi == 14 then
      if lo == 0 then 0xfd2e else if lo == 1 then 0xed0f else if lo == 2 then 0xdd6c else if lo == 3 then 0xcd4d else
      if lo == 4 then 0xbdaa else if lo == 5 then 0xad8b else if lo == 6 then 0x9de8 else if lo == 7 then 0x8dc9 else
      if lo == 8 then 0x7c26 else if lo == 9 then 0x6c07 else if lo == 10 then 0x5c64 else if lo == 11 then 0x4c45 else
      if lo == 12 then 0x3ca2 else if lo == 13 then 0x2c83 else if lo == 14 then 0x1ce0 else 0x0cc1
    else
      if lo == 0 then 0xef1f else if lo == 1 then 0xff3e else if lo == 2 then 0xcf5d else if lo == 3 then 0xdf7c else
      if lo == 4 then 0xaf9b else if lo == 5 then 0xbfba else if lo == 6 then 0x8fd9 else if lo == 7 then 0x9ff8 else
      if lo == 8 then 0x6e17 else if lo == 9 then 0x7e36 else if lo == 10 then 0x4e55 else if lo == 11 then 0x5e74 else
      if lo == 12 then 0x2e93 else if lo == 13 then 0x3eb2 else if lo == 14 then 0x0ed1 else 0x1ef0
  }

  /** Entry `i` of the table, by high and low half-byte. */
  function CrcTable(i: bv8): bv16 {
    TableEntry((i as bv16) >> 4, (i as bv16) & 0xf)
  }

  /** Dividing eight bits out in one go. */
  function Fold(i: bv16): bv16 {
    var x := i ^ (i >> 4);
    (x << 12) ^ (x << 5) ^ x
  }

  lemma TableIsFold(i: bv16)
    requires i & 0xff00 == 0
    ensures TableEntry(i >> 4, i & 0xf) == Fold(i)
  {
  }

  lemma Shifts8(r: bv16)
    ensures Shifts(8, r) == Shift(Shift(Shift(Shift(Shift(Shift(Shift(Shift(r))))))))
  {
    hide Shift;
    assert Shifts(1, r) == Shift(r);
    assert Shifts(2, r) == Shift(Shifts(1, r));
    assert Shifts(4, r) == Shift(Shift(Shifts(2, r)));
    assert Shifts(6, r) == Shift(Shift(Shifts(4, r)));
    assert Shifts(8, r) == Shift(Shift(Shifts(6, r)));
  }

  lemma FoldIsDivision(i: bv16)
    requires i & 0xff00 == 0
    ensures Fold(i) == Shift(Shift(Shift(Shift(Shift(Shift(Shift(Shift(i << 8))))))))
  {
  }

  /** Every entry of the table is the remainder of its own index. */
  lemma TableIsDivision(i: bv8)
    ensures CrcTable(i) == Shifts(8, Top(i))
  {
    hide TableEntry, Shift, Fold;
    assert (i as bv16) & 0xff00 == 0;
    TableIsFold(i as bv16);
    FoldIsDivision(i as bv16);
    Shifts8((i as bv16) << 8);
  }

  // ----- Division is linear and loses nothing --------------------------------------------------

  lemma ShiftXor(a: bv16, b: bv16)
    ensures Shift(a ^ b) == Shift(a) ^ Shift(b)
  {
  }

  lemma ShiftLinear(a: bv16, b: bv16)
    ensures Shift(Xor(a, b)) == Xor(Shift(a), Shift(b))
  {
    hide Shift;
    ShiftXor(a, b);
  }

  lemma ShiftInjective(a: bv16, b: bv16)
    requires Shift(a) == Shift(b)
    ensures a == b
  {
  }

  lemma {:induction false} ShiftsLinear(n: nat, a: bv16, b: bv16)
    ensures Shifts(n, Xor(a, b)) == Xor(Shifts(n, a), Shifts(n, b))
  {
    hide Shift, Xor;
    if n > 0 {
      ShiftsLinear(n - 1, a, b);
      ShiftLinear(Shifts(n - 1, a), Shifts(n - 1, b));
    }
  }

  lemma {:induction false} ShiftsInjective(n: nat, a: bv16, b: bv16)
    requires Shifts(n, a) == Shifts(n, b)
    ensures a == b
  {
    hide Shift;
    if n > 0 {
      ShiftInjective(Shifts(n - 1, a), Shifts(n - 1, b));
      ShiftsInjective(n - 1, a, b);
    }
  }

  lemma LowByteMovesUp(r: bv16)
    requires r & 0xff00 == 0
    ensures Shifts(8, r) == r << 8
  {
    Shifts8(r);
    LowByteShifts(r);
  }

  lemma LowByteShifts(r: bv16)
    requires r & 0xff00 == 0
    ensures Shift(Shift(Shift(Shift(Shift(Shift(Shift(Shift(r)))))))) == r << 8
  {
  }

  // ----- The checksum as it runs --------------------------------------------------------------

  method ProcessByte(crcvalue: bv16, data: bv8) returns (crc: bv16)
    ensures crc == DivideByte(crcvalue, data)
  {
    crc := TableStep(crcvalue, data);
    TableStepIsDivision(crcvalue, data);
  }

  function TableStep(crc: bv16, data: bv8): bv16 {
    Xor(crc << 8, CrcTable((crc >> 8) as bv8 ^ data))
  }

  /** The byte taken out of the remainder and the byte left in it. */
  lemma SplitRemainder(crc: bv16, data: bv8)
    ensures (crc & 0xff) & 0xff00 == 0 && (crc & 0xff) << 8 == crc << 8
    ensures Xor(crc & 0xff, Top((crc >> 8) as bv8 ^ data)) == Xor(crc, Top(data))
  {
    HighByte(crc, data);
    assert (crc & 0xff) ^ ((crc >> 8) << 8) == crc;
  }

  lemma HighByte(crc: bv16, data: bv8)
    ensures Top((crc >> 8) as bv8 ^ data) == ((crc >> 8) << 8) ^ Top(data)
  {
  }

  lemma TableStepIsDivision(crc: bv16, data: bv8)
    ensures TableStep(crc, data) == DivideByte(crc, data)
  {
    hide Shifts, CrcTable, Xor, Top;
    var hi, lo := (crc >> 8) as bv8 ^ data, crc & 0xff;
    TableIsDivision(hi);
    SplitRemainder(crc, data);
    LowByteMovesUp(lo);
    ShiftsLinear(8, lo, Top(hi));
  }

  /** The checksum of a block is its remainder from 0xffff. */
  method CrcBlock(data: array<bv8>, size: nat) returns (crc: bv16)
    requires size <= data.Length
    ensures crc == Remainder(CRC_INIT_VALUE, data[..size]) ^ CRC_XOR_VALUE
  {
    hide DivideByte, TableStep;
    crc := CRC_INIT_VALUE;
    var i := 0;
    while i < size
      invariant 0 <= i <= size && crc == Remainder(CRC_INIT_VALUE, data[..i])
    {
      TableStepIsDivision(crc, data[i]);
      crc := TableStep(crc, data[i]);
      i := i + 1;
      assert data[..i][..i - 1] == data[..i - 1];
    }
    crc := crc ^ CRC_XOR_VALUE;
  }

  /** The same checksum, folded byte by byte with the incremental interface. */
  method CrcIncremental(data: seq<bv8>) returns (crc: bv16)
    ensures crc == Remainder(CRC_INIT_VALUE, data) ^ CRC_XOR_VALUE
  {
    hide DivideByte;
    crc := CRC_INIT_VALUE;
    for i := 0 to |data|
      invariant crc == Remainder(CRC_INIT_VALUE, data[..i])
    {
      crc := ProcessByte(crc, data[i]);
      assert data[..i + 1][..i] == data[..i];
    }
    assert data[..|data|] == data;
    crc := crc ^ CRC_XOR_VALUE;
  }

  // ----- Error detection -----------------------------------------------------------------------

  lemma DivideByteInjective(r: bv16, s: bv16, b: bv8)
    requires DivideByte(r, b) == DivideByte(s, b)
    ensures r == s
  {
    hide Shifts;
    ShiftsInjective(8, Xor(r, Top(b)), Xor(s, Top(b)));
    XorCancel(r, s, Top(b));
  }

  lemma XorCancel(a: bv16, b: bv16, c: bv16)
    requires Xor(a, c) == Xor(b, c)
    ensures a == b
  {
  }

  /** Two bytes enter the remainder as one 16-bit number. */
  lemma TwoBytes(r: bv16, a: bv8, b: bv8)
    ensures DivideByte(DivideByte(r, a), b) == Shifts(8, Shifts(8, Xor(Xor(r, Top(a)), b as bv16)))
  {
    hide Shifts, Xor;
    LowByte(b);
    LowByteMovesUp(b as bv16);
    ShiftsLinear(8, Xor(r, Top(a)), b as bv16);
  }

  lemma LowByte(b: bv8)
    ensures (b as bv16) & 0xff00 == 0 && Top(b) == (b as bv16) << 8
  {
  }

  lemma PairInjective(r: bv16, a: bv8, b: bv8, c: bv8, d: bv8)
    requires Xor(Xor(r, Top(a)), b as bv16) == Xor(Xor(r, Top(c)), d as bv16)
    ensures a == c && b == d
  {
  }

  lemma TwoBytesInjective(r: bv16, a: bv8, b: bv8, c: bv8, d: bv8)
    requires DivideByte(DivideByte(r, a), b) == DivideByte(DivideByte(r, c), d)
    ensures a == c && b == d
  {
    hide Shifts, DivideByte, Xor, Top;
    TwoBytes(r, a, b);
    TwoBytes(r, c, d);
    var x, y := Xor(Xor(r, Top(a)), b as bv16), Xor(Xor(r, Top(c)), d as bv16);
    ShiftsInjective(8, Shifts(8, x), Shifts(8, y));
    ShiftsInjective(8, x, y);
    PairInjective(r, a, b, c, d);
  }

  lemma {:induction false} SuffixKeepsDifference(r: bv16, x: seq<bv8>, y: seq<bv8>, n: nat)
    requires |x| == |y| && n <= |x| && x[n..] == y[n..]
    requires Remainder(r, x) == Remainder(r, y)
    ensures Remainder(r, x[..n]) == Remainder(r, y[..n])
    decreases |x| - n
  {
    hide DivideByte;
    var k := |x| - 1;
    if n == |x| {
      assert x[..n] == x && y[..n] == y;
    } else {
      assert x[k] == x[n..][k - n] == y[n..][k - n] == y[k];
      DivideByteInjective(Remainder(r, x[..k]), Remainder(r, y[..k]), x[k]);
      assert x[..k][n..] == x[n..][..k - n] && y[..k][n..] == y[n..][..k - n];
      SuffixKeepsDifference(r, x[..k], y[..k], n);
      assert x[..k][..n] == x[..n] && y[..k][..n] == y[..n];
    }
  }

  lemma LastTwo(r: bv16, x: seq<bv8>, k: nat)
    requires k + 2 <= |x|
    ensures Remainder(r, x[..k + 2]) == DivideByte(DivideByte(Remainder(r, x[..k]), x[k]), x[k + 1])
  {
    hide DivideByte;
    assert x[..k + 2][..k + 1] == x[..k + 1];
    assert x[..k + 1][..k] == x[..k];
  }

  /** Blocks of equal length that differ only within two adjacent bytes have different checksums. */
  lemma DetectsTwoByteChange(x: seq<bv8>, y: seq<bv8>, k: nat)
    requires |x| == |y| && k + 2 <= |x| && x != y
    requires x[..k] == y[..k] && x[k + 2..] == y[k + 2..]
    ensures Remainder(CRC_INIT_VALUE, x) ^ CRC_XOR_VALUE != Remainder(CRC_INIT_VALUE, y) ^ CRC_XOR_VALUE
  {
    hide DivideByte, Remainder;
    var r := CRC_INIT_VALUE;
    if Remainder(r, x) == Remainder(r, y) {
      SuffixKeepsDifference(r, x, y, k + 2);
      LastTwo(r, x, k);
      LastTwo(r, y, k);
      assert x == x[..k] + [x[k], x[k + 1]] + x[k + 2..] && y == y[..k] + [y[k], y[k + 1]] + y[k + 2..];
      TwoBytesInjective(Remainder(r, x[..k]), x[k], x[k + 1], y[k], y[k + 1]);
      assert false;
    }
  }

  // ----- Bursts ----------------------------------------------------------------------------------

  /** The bits of a byte, highest first, and of a block. */
  function ByteBits(b: bv8): seq<bool> {
    [b & 128 != 0, b & 64 != 0, b & 32 != 0, b & 16 != 0, b & 8 != 0, b & 4 != 0, b & 2 != 0, b & 1 != 0]
  }

  function Bits(data: seq<bv8>): (bs: seq<bool>)
    ensures |bs| == 8 * |data|
    decreases |data|
  {
    if data == [] then [] else Bits(data[..|data| - 1]) + ByteBits(data[|data| - 1])
  }

  function High(b: bool): bv16 { if b then 0x8000 else 0 }

  /** The remainder after one more message bit, and after several. */
  function DivideBit(r: bv16, b: bool): bv16 { Shift(Xor(r, High(b))) }

  function BitRemainder(r: bv16, bs: seq<bool>): bv16
    decreases |bs|
  {
    if bs == [] then r else DivideBit(BitRemainder(r, bs[..|bs| - 1]), bs[|bs| - 1])
  }

  lemma {:induction false} BitRemainderAdds(r: bv16, a: seq<bool>, b: seq<bool>)
    ensures BitRemainder(r, a + b) == BitRemainder(BitRemainder(r, a), b)
    decreases |b|
  {
    hide DivideBit;
    if b == [] {
      assert a + b == a;
    } else {
      var k := |b| - 1;
      assert (a + b)[..|a| + k] == a + b[..k];
      BitRemainderAdds(r, a, b[..k]);
    }
  }

  /** Up to 16 bits enter the remainder as one number, in which the bit after n others has this weight. */
  function Weight(n: nat): bv16
    requires n < 16
  {
    if n == 0 then 0x8000 else if n == 1 then 0x4000 else if n == 2 then 0x2000 else if n == 3 then 0x1000
    else if n == 4 then 0x0800 else if n == 5 then 0x0400 else if n == 6 then 0x0200 else if n == 7 then 0x0100
    else if n == 8 then 0x0080 else if n == 9 then 0x0040 else if n == 10 then 0x0020 else if n == 11 then 0x0010
    else if n == 12 then 0x0008 else if n == 13 then 0x0004 else if n == 14 then 0x0002 else 0x0001
  }

  /** The weights of the bits after n others, taken together. */
  function Tail(n: nat): bv16
    requires n <= 16
  {
    if n == 16 then 0 else Weight(n) | (Weight(n) - 1)
  }

  function Weighted(b: bool, n: nat): bv16
    requires n < 16
  {
    if b then Weight(n) else 0
  }

  function Number(bs: seq<bool>): bv16
    requires |bs| <= 16
    decreases |bs|
  {
    if bs == [] then 0 else Xor(Number(bs[..|bs| - 1]), Weighted(bs[|bs| - 1], |bs| - 1))
  }

  lemma ShiftOfWeight(n: nat)
    requires 1 <= n < 16
    ensures Shift(Weight(n)) == Weight(n - 1)
  {
  }

  lemma ShiftOfZero()
    ensures Shift(0) == 0
  {
  }

  lemma {:induction false} ShiftsAdd(m: nat, n: nat, r: bv16)
    ensures Shifts(m + n, r) == Shifts(m, Shifts(n, r))
  {
    hide Shift;
    if m > 0 { ShiftsAdd(m - 1, n, r); }
  }

  /** After n shifts a bit of weight n has reached the top. */
  lemma {:induction false} WeightReachesTop(b: bool, n: nat)
    requires n < 16
    ensures Shifts(n, Weighted(b, n)) == High(b)
  {
    hide Shift, Weight;
    if n == 0 {
      WeightAtTop();
    } else {
      WeightReachesTop(b, n - 1);
      ShiftOfWeight(n);
      ShiftOfZero();
      ShiftsAdd(n - 1, 1, Weighted(b, n));
      assert Shifts(1, Weighted(b, n)) == Shift(Weighted(b, n));
    }
  }

  lemma WeightAtTop()
    ensures Weight(0) == 0x8000
  {
  }

  lemma {:induction false} BitsEnterAsNumber(r: bv16, bs: seq<bool>)
    requires |bs| <= 16
    ensures BitRemainder(r, bs) == Shifts(|bs|, Xor(r, Number(bs)))
    decreases |bs|
  {
    hide Shift, Weighted, High, Xor;
    if bs == [] {
      XorZero(r);
    } else {
      var n := |bs| - 1;
      var x, w := Xor(r, Number(bs[..n])), Weighted(bs[n], n);
      BitsEnterAsNumber(r, bs[..n]);
      WeightReachesTop(bs[n], n);
      ShiftsLinear(n, x, w);
      XorAssociates(r, Number(bs[..n]), w);
    }
  }

  lemma XorZero(a: bv16)
    ensures Xor(a, 0) == a
  {
  }

  lemma XorAssociates(a: bv16, b: bv16, c: bv16)
    ensures Xor(Xor(a, b), c) == Xor(a, Xor(b, c))
  {
  }

  lemma TailStep(z: bv16, b: bool, n: nat)
    requires n < 16 && z & Tail(n) == 0
    ensures Xor(z, Weighted(b, n)) & Tail(n + 1) == 0
  {
  }

  lemma {:induction false} NumberHasNoTail(bs: seq<bool>)
    requires |bs| <= 16
    ensures Number(bs) & Tail(|bs|) == 0
    decreases |bs|
  {
    hide Tail, Weighted, Xor;
    if bs == [] {
      assert 0 & Tail(0) == 0;
    } else {
      var n := |bs| - 1;
      NumberHasNoTail(bs[..n]);
      TailStep(Number(bs[..n]), bs[n], n);
    }
  }

  lemma LastBitShows(y: bv16, z: bv16, b: bool, c: bool, n: nat)
    requires n < 16 && y & Tail(n) == 0 && z & Tail(n) == 0
    requires Xor(y, Weighted(b, n)) == Xor(z, Weighted(c, n))
    ensures y == z && b == c
  {
  }

  lemma {:induction false} NumberInjective(a: seq<bool>, b: seq<bool>)
    requires |a| == |b| <= 16 && Number(a) == Number(b)
    ensures a == b
    decreases |a|
  {
    hide Tail, Weighted, Xor;
    if a != [] {
      var n := |a| - 1;
      NumberHasNoTail(a[..n]);
      NumberHasNoTail(b[..n]);
      LastBitShows(Number(a[..n]), Number(b[..n]), a[n], b[n], n);
      NumberInjective(a[..n], b[..n]);
      assert a == a[..n] + [a[n]] && b == b[..n] + [b[n]];
    }
  }

  lemma BurstInjective(r: bv16, a: seq<bool>, b: seq<bool>)
    requires |a| == |b| <= 16 && BitRemainder(r, a) == BitRemainder(r, b)
    ensures a == b
  {
    hide Shifts, Number, BitRemainder, Xor;
    BitsEnterAsNumber(r, a);
    BitsEnterAsNumber(r, b);
    ShiftsInjective(|a|, Xor(r, Number(a)), Xor(r, Number(b)));
    XorCancelFirst(r, Number(a), Number(b));
    NumberInjective(a, b);
  }

  lemma XorCancelFirst(a: bv16, b: bv16, c: bv16)
    requires Xor(a, b) == Xor(a, c)
    ensures b == c
  {
  }

  lemma {:induction false} SameBitsKeepDifference(r: bv16, s: bv16, bs: seq<bool>)
    requires BitRemainder(r, bs) == BitRemainder(s, bs)
    ensures r == s
    decreases |bs|
  {
    hide Shift, Xor, High;
    if bs != [] {
      var k := |bs| - 1;
      var x, y := BitRemainder(r, bs[..k]), BitRemainder(s, bs[..k]);
      ShiftInjective(Xor(x, High(bs[k])), Xor(y, High(bs[k])));
      XorCancel(x, y, High(bs[k]));
      SameBitsKeepDifference(r, s, bs[..k]);
    }
  }

  lemma ByteNumber(b: bv8)
    ensures Number(ByteBits(b)) == Top(b)
  {
    hide Weighted, ByteBits, Number, Xor;
    EightBits(b);
    var bs := ByteBits(b);
    NumberNext(bs, 0); NumberNext(bs, 1); NumberNext(bs, 2); NumberNext(bs, 3);
    NumberNext(bs, 4); NumberNext(bs, 5); NumberNext(bs, 6); NumberNext(bs, 7);
    assert bs[..8] == bs && bs[..0] == [];
    NumberOfNone();
    ByteOfBits(b);
  }

  lemma NumberOfNone()
    ensures Number([]) == 0
  {
  }

  lemma NumberNext(bs: seq<bool>, n: nat)
    requires n < |bs| <= 16
    ensures Number(bs[..n + 1]) == Xor(Number(bs[..n]), Weighted(bs[n], n))
  {
    hide Weighted, Xor;
    assert bs[..n + 1][..n] == bs[..n];
  }

  lemma ByteOfBits(b: bv8)
    ensures var bs := ByteBits(b);
      Top(b) == Xor(Xor(Xor(Xor(Xor(Xor(Xor(Xor(0, Weighted(bs[0], 0)), Weighted(bs[1], 1)), Weighted(bs[2], 2)),
        Weighted(bs[3], 3)), Weighted(bs[4], 4)), Weighted(bs[5], 5)), Weighted(bs[6], 6)), Weighted(bs[7], 7))
  {
  }

  /** Dividing byte by byte is dividing bit by bit. */
  lemma {:induction false} RemainderOfBits(r: bv16, data: seq<bv8>)
    ensures Remainder(r, data) == BitRemainder(r, Bits(data))
    decreases |data|
  {
    hide BitRemainder, Shifts, Xor, Top, Number, ByteBits;
    if data == [] {
      NoBits(r);
    } else {
      var k := |data| - 1;
      RemainderOfBits(r, data[..k]);
      BitRemainderAdds(r, Bits(data[..k]), ByteBits(data[k]));
      ByteNumber(data[k]);
      EightBits(data[k]);
      BitsEnterAsNumber(Remainder(r, data[..k]), ByteBits(data[k]));
    }
  }

  lemma NoBits(r: bv16)
    ensures BitRemainder(r, []) == r
  {
  }

  lemma EightBits(b: bv8)
    ensures |ByteBits(b)| == 8
  {
  }

  lemma ByteBitsInjective(a: bv8, b: bv8)
    requires ByteBits(a) == ByteBits(b)
    ensures a == b
  {
    ByteNumber(a);
    ByteNumber(b);
    TopInjective(a, b);
  }

  lemma TopInjective(a: bv8, b: bv8)
    requires Top(a) == Top(b)
    ensures a == b
  {
  }

  lemma {:induction false} BitsInjective(x: seq<bv8>, y: seq<bv8>)
    requires |x| == |y| && Bits(x) == Bits(y)
    ensures x == y
    decreases |x|
  {
    hide ByteBits;
    if x != [] {
      var k := |x| - 1;
      EightBits(x[k]);
      EightBits(y[k]);
      assert Bits(x)[..8 * k] == Bits(x[..k]) && Bits(y)[..8 * k] == Bits(y[..k]);
      assert Bits(x)[8 * k..] == ByteBits(x[k]) && Bits(y)[8 * k..] == ByteBits(y[k]);
      BitsInjective(x[..k], y[..k]);
      ByteBitsInjective(x[k], y[k]);
      assert x == x[..k] + [x[k]] && y == y[..k] + [y[k]];
    }
  }

  /** Blocks of equal length that differ only within 16 adjacent bits have different checksums. */
  lemma DetectsBurst(x: seq<bv8>, y: seq<bv8>, k: nat, w: nat)
    requires |x| == |y| && x != y && w <= 16 && k + w <= 8 * |x|
    requires Bits(x)[..k] == Bits(y)[..k] && Bits(x)[k + w..] == Bits(y)[k + w..]
    ensures Remainder(CRC_INIT_VALUE, x) ^ CRC_XOR_VALUE != Remainder(CRC_INIT_VALUE, y) ^ CRC_XOR_VALUE
  {
    hide Remainder, BitRemainder, Bits;
    var r, a, b := CRC_INIT_VALUE, Bits(x), Bits(y);
    if Remainder(r, x) == Remainder(r, y) {
      RemainderOfBits(r, x);
      RemainderOfBits(r, y);
      ThreeParts(r, a, k, w);
      ThreeParts(r, b, k, w);
      var s := BitRemainder(r, a[..k]);
      SameBitsKeepDifference(BitRemainder(s, a[k..k + w]), BitRemainder(s, b[k..k + w]), a[k + w..]);
      BurstInjective(s, a[k..k + w], b[k..k + w]);
      assert a == a[..k] + a[k..k + w] + a[k + w..] && b == b[..k] + b[k..k + w] + b[k + w..];
      BitsInjective(x, y);
      assert false;
    }
  }

  lemma ThreeParts(r: bv16, bs: seq<bool>, k: nat, w: nat)
    requires k + w <= |bs|
    ensures BitRemainder(r, bs) == BitRemainder(BitRemainder(BitRemainder(r, bs[..k]), bs[k..k + w]), bs[k + w..])
  {
    hide BitRemainder;
    assert bs == bs[..k] + bs[k..] && bs[k..] == bs[k..k + w] + bs[k + w..];
    BitRemainderAdds(r, bs[..k], bs[k..]);
    BitRemainderAdds(BitRemainder(r, bs[..k]), bs[k..k + w], bs[k + w..]);
  }

  // ----- Errors of an odd number of bits --------------------------------------------------------

  function BitOf(r: bv16, k: nat): bool
    requires k < 16
  {
    Mask(r, Weight(15 - k)) != 0
  }

  function Mask(r: bv16, w: bv16): bv16 { r & w }

  /** Whether an odd number of the lowest `n` bits of a remainder are set. */
  function OddUpTo(n: nat, r: bv16): bool
    requires n <= 16
  {
    n > 0 && OddUpTo(n - 1, r) != BitOf(r, n - 1)
  }

  function Odd(r: bv16): bool { OddUpTo(16, r) }

  lemma BitOfShift(r: bv16, k: nat)
    requires k < 16
    ensures BitOf(Shift(r), k) == ((k > 0 && BitOf(r, k - 1)) != (BitOf(r, 15) && (k == 0 || k == 5 || k == 12)))
  {
    hide Shift, BitOf, Xor;
    ShiftSubtractsDivisor(r);
    TopBit(r);
    XorParts(r << 1);
    BitMovesUp(r, k);
    BitOfDivisor(k);
    BitOfXor(r << 1, 0x1021, k);
  }

  lemma TopBit(r: bv16)
    ensures BitOf(r, 15) <==> r & 0x8000 != 0
  {
  }

  lemma XorParts(a: bv16)
    ensures Xor(a, 0x1021) == a ^ 0x1021
  {
  }

  lemma BitOfDivisor(k: nat)
    requires k < 16
    ensures BitOf(0x1021, k) <==> k == 0 || k == 5 || k == 12
  {
  }

  lemma BitMovesUp(r: bv16, k: nat)
    requires k < 16
    ensures BitOf(r << 1, k) <==> k > 0 && BitOf(r, k - 1)
  {
    hide Weight, Mask;
    HalfWeight(15 - k);
    MaskMovesUp(r, Weight(15 - k));
    NoMask(r);
  }

  lemma NoMask(r: bv16)
    ensures Mask(r, 0) == 0
  {
  }

  lemma HalfWeight(n: nat)
    requires n < 16
    ensures Weight(n) >> 1 == if n < 15 then Weight(n + 1) else 0
  {
  }

  lemma MaskMovesUp(r: bv16, w: bv16)
    ensures Mask(r << 1, w) != 0 <==> Mask(r, w >> 1) != 0
  {
  }

  lemma {:induction false} OddOfShift(n: nat, r: bv16)
    requires n <= 16
    ensures OddUpTo(n, Shift(r)) ==
      (OddUpTo(if n == 0 then 0 else n - 1, r) != (BitOf(r, 15) && (0 < n <= 5 || 12 < n)))
  {
    hide Shift, BitOf;
    if n > 0 {
      OddOfShift(n - 1, r);
      BitOfShift(r, n - 1);
    }
  }

  /** The three bits that come back for the one that falls out keep the sum of the bits odd or even. */
  lemma ShiftKeepsOdd(r: bv16)
    ensures Odd(Shift(r)) == Odd(r)
  {
    hide Shift, BitOf;
    OddOfShift(16, r);
  }

  lemma BitOfXor(a: bv16, b: bv16, k: nat)
    requires k < 16
    ensures BitOf(Xor(a, b), k) == (BitOf(a, k) != BitOf(b, k))
  {
    hide Weight, Xor, Mask;
    var w := Weight(15 - k);
    OneBit(a, 15 - k);
    OneBit(b, 15 - k);
    MaskOfXor(a, b, w);
    XorSelf(w);
    XorZero(w);
    XorZero(0);
    XorCommutes(0, w);
  }

  lemma OneBit(a: bv16, n: nat)
    requires n < 16
    ensures Weight(n) != 0 && (Mask(a, Weight(n)) == 0 || Mask(a, Weight(n)) == Weight(n))
  {
  }

  lemma MaskOfXor(a: bv16, b: bv16, w: bv16)
    ensures Mask(Xor(a, b), w) == Xor(Mask(a, w), Mask(b, w))
  {
  }

  lemma XorSelf(a: bv16)
    ensures Xor(a, a) == 0
  {
  }

  lemma XorCommutes(a: bv16, b: bv16)
    ensures Xor(a, b) == Xor(b, a)
  {
  }

  lemma {:induction false} OddOfXor(n: nat, a: bv16, b: bv16)
    requires n <= 16
    ensures OddUpTo(n, Xor(a, b)) == (OddUpTo(n, a) != OddUpTo(n, b))
  {
    hide BitOf, Xor;
    if n > 0 {
      OddOfXor(n - 1, a, b);
      BitOfXor(a, b, n - 1);
    }
  }

  lemma BitOfHigh(b: bool, k: nat)
    requires k < 16
    ensures BitOf(High(b), k) == (b && k == 15)
  {
  }

  lemma {:induction false} OddOfHigh(n: nat, b: bool)
    requires n <= 16
    ensures OddUpTo(n, High(b)) == (b && n == 16)
  {
    hide BitOf, High;
    if n > 0 {
      OddOfHigh(n - 1, b);
      BitOfHigh(b, n - 1);
    }
  }

  lemma OddOfDivideBit(r: bv16, b: bool)
    ensures Odd(DivideBit(r, b)) == (Odd(r) != b)
  {
    hide Shift, Xor, High, OddUpTo;
    ShiftKeepsOdd(Xor(r, High(b)));
    OddOfXor(16, r, High(b));
    OddOfHigh(16, b);
  }

  /** The number of places in which two messages of equal length differ. */
  function Differing(a: seq<bool>, b: seq<bool>): nat
    requires |a| == |b|
    decreases |a|
  {
    if a == [] then 0
    else
      var k := |a| - 1;
      Differing(a[..k], b[..k]) + if a[k] == b[k] then 0 else 1
  }

  /** One remainder is odd and the other even exactly if the messages differ in an odd number of bits. */
  lemma {:induction false} OddRemainders(r: bv16, a: seq<bool>, b: seq<bool>)
    requires |a| == |b|
    ensures Odd(BitRemainder(r, a)) != Odd(BitRemainder(r, b)) <==> Differing(a, b) % 2 == 1
    decreases |a|
  {
    hide DivideBit, Odd;
    if a != [] {
      var k := |a| - 1;
      OddRemainders(r, a[..k], b[..k]);
      OddOfDivideBit(BitRemainder(r, a[..k]), a[k]);
      OddOfDivideBit(BitRemainder(r, b[..k]), b[k]);
    }
  }

  /** The divisor has the factor x + 1: a change of an odd number of bits, anywhere, changes the checksum. */
  lemma DetectsOddChange(x: seq<bv8>, y: seq<bv8>)
    requires |x| == |y| && Differing(Bits(x), Bits(y)) % 2 == 1
    ensures Remainder(CRC_INIT_VALUE, x) ^ CRC_XOR_VALUE != Remainder(CRC_INIT_VALUE, y) ^ CRC_XOR_VALUE
  {
    hide Remainder, BitRemainder, Bits, Odd, Differing;
    RemainderOfBits(CRC_INIT_VALUE, x);
    RemainderOfBits(CRC_INIT_VALUE, y);
    OddRemainders(CRC_INIT_VALUE, Bits(x), Bits(y));
  }
}
