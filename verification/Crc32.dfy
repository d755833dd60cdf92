/** The CRC of section 8 of RFC 1952, computed half a byte at a time. */
module Crc32 {
  import opened Folding

  type Word = bv32

  const POLYNOMIAL: Word := 0xedb8_8320

  const TABLE: seq<Word> := [
    0x0000_0000, 0x1db7_1064, 0x3b6e_20c8, 0x26d9_30ac, 0x76dc_4190, 0x6b6b_51f4, 0x4db2_6158, 0x5005_713c,
    0xedb8_8320, 0xf00f_9344, 0xd6d6_a3e8, 0xcb61_b38c, 0x9b64_c2b0, 0x86d3_d2d4, 0xa00a_e278, 0xbdbd_f21c]

  ghost predicate Is(r: Word, value: Word) {
    forall k {:trigger Unfold(k)} | Unfold(k) :: r == value
  }

  /** Exclusive or. */
  ghost function Xor(a: Word, b: Word): (r: Word)
    ensures Is(r, a ^ b)
  {
    assert Is(a ^ b, a ^ b);
    var r :| Is(r, a ^ b);
    r
  }

  /** A step of the CRC by one bit, as the standard has it. */
  function Shifted(c: Word): Word {
    if c & 1 == 1 then POLYNOMIAL ^ (c >> 1) else c >> 1
  }

  ghost function Bit(c: Word): (r: Word)
    ensures Is(r, Shifted(c))
  {
    assert Is(Shifted(c), Shifted(c));
    var r :| Is(r, Shifted(c));
    r
  }

  /** Several steps. */
  ghost function Bits(c: Word, n: nat): Word
    decreases n, c
  {
    if n == 0 then c else Bit(Bits(c, n - 1))
  }

  /** The CRC register after a run of bytes, bit by bit. */
  ghost function Update(crc: Word, data: seq<bv8>): Word {
    if data == [] then crc else Bits(Xor(Update(crc, data[..|data| - 1]), data[|data| - 1] as Word), 8)
  }

  ghost function Crc(data: seq<bv8>): Word {
    Xor(Update(0xffff_ffff, data), 0xffff_ffff)
  }

  lemma XorIsXor(a: Word, b: Word)
    ensures Xor(a, b) == a ^ b
  {
    assert Unfold(0);
  }

  lemma BitIsShifted(c: Word)
    ensures Bit(c) == Shifted(c)
  {
    assert Unfold(0);
  }

  lemma XorCancels(a: Word, b: Word)
    ensures Xor(Xor(a, b), b) == a
  {
    XorIsXor(a, b);
    XorIsXor(a ^ b, b);
  }

  lemma XorRegroups(a: Word, b: Word, c: Word)
    ensures Xor(Xor(a, b), c) == Xor(a, Xor(b, c))
  {
    XorOf(Xor(a, b), a, b);
    XorOf(Xor(b, c), b, c);
    XorOf(Xor(Xor(a, b), c), Xor(a, b), c);
    XorOf(Xor(a, Xor(b, c)), a, Xor(b, c));
    Regroup(a, b, c);
  }

  lemma ShiftedIsLinear(x: Word, y: Word)
    ensures Shifted(x ^ y) == Shifted(x) ^ Shifted(y)
  {
    ShiftXor(x, y);
    Regroup(POLYNOMIAL, x >> 1, y >> 1);
  }

  lemma Regroup(p: Word, a: Word, b: Word)
    ensures (p ^ a) ^ (p ^ b) == a ^ b
    ensures p ^ (a ^ b) == (p ^ a) ^ b == a ^ (p ^ b)
  {
  }

  lemma ShiftXor(x: Word, y: Word)
    ensures (x ^ y) >> 1 == (x >> 1) ^ (y >> 1)
    ensures (x ^ y) & 1 == (x & 1) ^ (y & 1)
    ensures (x & 1 == 0 || x & 1 == 1) && (y & 1 == 0 || y & 1 == 1)
  {
  }

  /** The register is linear in its bits. */
  lemma BitIsLinear(x: Word, y: Word)
    ensures Bit(Xor(x, y)) == Xor(Bit(x), Bit(y))
  {
    XorIsXor(x, y);
    BitIsShifted(x);
    BitIsShifted(y);
    BitIsShifted(x ^ y);
    ShiftedIsLinear(x, y);
    XorIsXor(Shifted(x), Shifted(y));
  }

  lemma {:induction false} BitsAreLinear(x: Word, y: Word, n: nat)
    ensures Bits(Xor(x, y), n) == Xor(Bits(x, n), Bits(y, n))
  {
    if n > 0 {
      BitsAreLinear(x, y, n - 1);
      BitIsLinear(Bits(x, n - 1), Bits(y, n - 1));
    }
  }

  lemma {:induction false} BitsJoin(c: Word, m: nat, n: nat)
    ensures Bits(Bits(c, m), n) == Bits(c, m + n)
  {
    if n > 0 {
      BitsJoin(c, m, n - 1);
    }
  }

  /** Four steps, written out. */
  function Shifted4(c: Word): Word {
    Shifted(Shifted(Shifted(Shifted(c))))
  }

  lemma FourBits(c: Word)
    ensures Bits(c, 4) == Bit(Bit(Bit(Bit(c))))
  {
    assert Bits(c, 1) == Bit(Bits(c, 0)) == Bit(c);
    assert Bits(c, 2) == Bit(Bits(c, 1));
    assert Bits(c, 3) == Bit(Bits(c, 2));
  }

  lemma Shifted4IsFour(c: Word)
    ensures Bits(c, 4) == Shifted4(c)
  {
    FourBits(c);
    BitIsShifted(c);
    BitIsShifted(Shifted(c));
    BitIsShifted(Shifted(Shifted(c)));
    BitIsShifted(Shifted(Shifted(Shifted(c))));
  }

  lemma ShiftOutFour(z: Word)
    requires z & 0xf == 0
    ensures Shifted4(z) == z >> 4
  {
  }

  /** The table's entry for the low half byte is what four steps make of it. */
  lemma TableEntry(c: Word)
    ensures 0 <= (c & 0xf) as int < |TABLE|
    ensures TABLE[(c & 0xf) as int] == Shifted4(c & 0xf)
  {
    var k := c & 0xf;
    assert k < 16;
    if k == 0 {} else if k == 1 {} else if k == 2 {} else if k == 3 {}
    else if k == 4 {} else if k == 5 {} else if k == 6 {} else if k == 7 {}
    else if k == 8 {} else if k == 9 {} else if k == 10 {} else if k == 11 {}
    else if k == 12 {} else if k == 13 {} else if k == 14 {} else { assert k == 15; }
  }

  /** Four bits by way of the table. */
  function Nibble(c: Word): Word {
    TableEntry(c);
    TABLE[(c & 0xf) as int] ^ (c >> 4)
  }

  lemma Halves(c: Word)
    ensures c == (c & 0xf) ^ (c & 0xffff_fff0)
    ensures (c & 0xffff_fff0) & 0xf == 0 && (c & 0xffff_fff0) >> 4 == c >> 4
  {
  }

  lemma HighHalf(c: Word)
    ensures Bits(c & 0xffff_fff0, 4) == c >> 4
  {
    Halves(c);
    ShiftOutFour(c & 0xffff_fff0);
    Shifted4IsFour(c & 0xffff_fff0);
  }

  lemma LowHalf(c: Word)
    ensures 0 <= (c & 0xf) as int < |TABLE|
    ensures TABLE[(c & 0xf) as int] == Bits(c & 0xf, 4)
  {
    TableEntry(c);
    Shifted4IsFour(c & 0xf);
  }

  /** A register is made of halves, ... */
  lemma RegisterParts(c: Word)
    ensures c == Xor(c & 0xf, c & 0xffff_fff0)
  {
    Halves(c);
    XorIsXor(c & 0xf, c & 0xffff_fff0);
  }

  /** ... and so is the half-byte step. */
  lemma NibbleParts(c: Word)
    ensures Nibble(c) == Xor(Bits(c & 0xf, 4), Bits(c & 0xffff_fff0, 4))
  {
    LowHalf(c);
    HighHalf(c);
    var a, b := TABLE[(c & 0xf) as int], c >> 4;
    XorIsXor(a, b);
  }

  /** The half-byte step is four one-bit steps. */
  lemma NibbleIsFour(c: Word)
    ensures Nibble(c) == Bits(c, 4)
  {
    RegisterParts(c);
    NibbleParts(c);
    BitsAreLinear(c & 0xf, c & 0xffff_fff0, 4);
  }

  lemma ByteIsEight(c: Word)
    ensures Nibble(Nibble(c)) == Bits(c, 8)
  {
    NibbleIsFour(c);
    NibbleIsFour(Nibble(c));
    BitsJoin(c, 4, 4);
  }

  /** One byte of the loop of crc32: two half-byte steps. */
  method Step(crc: Word, b: Word) returns (r: Word)
    ensures r == Bits(Xor(crc, b), 8)
  {
    XorIsXor(crc, b);
    r := crc ^ b;
    ByteIsEight(r);
    r := Nibble(r);
    r := Nibble(r);
  }

  /** crc32 */
  method ComputeCrc32(data: seq<bv8>) returns (r: Word)
    ensures r == Crc(data)
  {
    var crc: Word := 0xffff_ffff;
    for i := 0 to |data|
      invariant crc == Update(0xffff_ffff, data[..i])
    {
      assert data[..i + 1][..i] == data[..i];
      crc := Step(crc, data[i] as Word);
    }
    assert data[..|data|] == data;
    XorIsXor(crc, 0xffff_ffff);
    r := crc ^ 0xffff_ffff;
  }

  /** Half a byte, or all of it, of a worked example. */
  lemma HalfByte(x: Word, y: Word)
    requires Shifted4(x) == y
    ensures Bits(x, 4) == y
  {
    Shifted4IsFour(x);
  }

  lemma OneByte(data: seq<bv8>, n: nat, crc: Word, x: Word, y: Word, next: Word)
    requires n < |data| && Update(0xffff_ffff, data[..n]) == crc && x == crc ^ (data[n] as Word)
    requires Shifted4(x) == y && Shifted4(y) == next
    ensures Update(0xffff_ffff, data[..n + 1]) == next
  {
    HalfByte(x, y);
    HalfByte(y, next);
    XorIsXor(crc, data[n] as Word);
    ByteDone(data, n, crc, data[n] as Word, y);
  }

  lemma ByteDone(data: seq<bv8>, n: nat, crc: Word, b: Word, y: Word)
    requires n < |data| && Update(0xffff_ffff, data[..n]) == crc && b == data[n] as Word && Bits(Xor(crc, b), 4) == y
    ensures Update(0xffff_ffff, data[..n + 1]) == Bits(y, 4)
  {
    assert data[..n + 1][..n] == data[..n];
    BitsJoin(Xor(crc, b), 4, 4);
  }

  /** The check value of this CRC, which is that of the digits "123456789". */
  lemma CheckValue()
    ensures Crc([0x31, 0x32, 0x33, 0x34, 0x35, 0x36, 0x37, 0x38, 0x39]) == 0xcbf4_3926
  {
    var data: seq<bv8> := [0x31, 0x32, 0x33, 0x34, 0x35, 0x36, 0x37, 0x38, 0x39];
    assert data[..9] == data;
    FirstDigits(data);
    MoreDigits(data);
    LastDigits(data);
    XorIsXor(0x340b_c6d9, 0xffff_ffff);
  }

  lemma FirstDigits(data: seq<bv8>)
    requires |data| == 9 && data[0] == 0x31 && data[1] == 0x32 && data[2] == 0x33
    ensures Update(0xffff_ffff, data[..3]) == 0x77b7_9c2d
  {
    assert data[..0] == [];
    OneByte(data, 0, 0xffff_ffff, 0xffff_ffce, 0xaff5_1d84, 0x7c23_1048);
    OneByte(data, 1, 0x7c23_1048, 0x7c23_107a, 0xd114_92ef, 0xb0ac_bb32);
    OneByte(data, 2, 0xb0ac_bb32, 0xb0ac_bb01, 0x16bd_dbd4, 0x77b7_9c2d);
  }

  lemma MoreDigits(data: seq<bv8>)
    requires |data| == 9 && data[3] == 0x34 && data[4] == 0x35 && data[5] == 0x36
    requires Update(0xffff_ffff, data[..3]) == 0x77b7_9c2d
    ensures Update(0xffff_ffff, data[..6]) == 0xf68d_2c9e
  {
    OneByte(data, 3, 0x77b7_9c2d, 0x77b7_9c19, 0xf774_ea85, 0x641c_1f5c);
    OneByte(data, 4, 0x641c_1f5c, 0x641c_1f69, 0xf64e_52b2, 0x340a_c5e3);
    OneByte(data, 5, 0x340a_c5e3, 0x340a_c5d5, 0x682b_fda9, 0xf68d_2c9e);
  }

  lemma LastDigits(data: seq<bv8>)
    requires |data| == 9 && data[6] == 0x37 && data[7] == 0x38 && data[8] == 0x39
    requires Update(0xffff_ffff, data[..6]) == 0xf68d_2c9e
    ensures Update(0xffff_ffff, data[..9]) == 0x340b_c6d9
  {
    OneByte(data, 6, 0xf68d_2c9e, 0xf68d_2ca9, 0xff67_418e, 0xaffc_9660);
    OneByte(data, 7, 0xaffc_9660, 0xaffc_9658, 0xe747_4a45, 0x651f_2550);
    OneByte(data, 8, 0x651f_2550, 0x651f_2569, 0xf65e_6112, 0x340b_c6d9);
  }

  /** The standard's own form, with a table of 256 entries, does the same. */
  lemma ByteTableForm(c: Word, b: bv8)
    ensures Bits(Xor(c, b as Word), 8) == Xor(Bits(Xor(c, b as Word) & 0xff, 8), c >> 8)
  {
    XorIsXor(c, b as Word);
    SameHighPart(c, b);
    TableForm(Xor(c, b as Word));
  }

  lemma TableForm(x: Word)
    ensures Bits(x, 8) == Xor(Bits(x & 0xff, 8), x >> 8)
  {
    ByteParts(x);
    HighBytes(x);
    BitsAreLinear(x & 0xff, x & 0xffff_ff00, 8);
  }

  lemma ByteParts(x: Word)
    ensures x == Xor(x & 0xff, x & 0xffff_ff00)
  {
    XorIsXor(x & 0xff, x & 0xffff_ff00);
    assert x == (x & 0xff) ^ (x & 0xffff_ff00);
  }

  lemma HighBytes(x: Word)
    ensures Bits(x & 0xffff_ff00, 8) == x >> 8
  {
    assert (x & 0xffff_ff00) & 0xff == 0 && (x & 0xffff_ff00) >> 8 == x >> 8;
    EightShiftOut(x & 0xffff_ff00);
  }

  lemma SameHighPart(c: Word, b: bv8)
    ensures (c ^ (b as Word)) >> 8 == c >> 8
  {
  }

  lemma EightShiftOut(z: Word)
    requires z & 0xff == 0
    ensures Bits(z, 8) == z >> 8
  {
    LowBitsClear(z);
    Shifted4IsFour(z);
    ShiftOutFour(z);
    Shifted4IsFour(z >> 4);
    ShiftOutFour(z >> 4);
    BitsJoin(z, 4, 4);
  }

  lemma LowBitsClear(z: Word)
    requires z & 0xff == 0
    ensures z & 0xf == 0 && (z >> 4) & 0xf == 0 && (z >> 4) >> 4 == z >> 8
  {
  }

  /** What a step made a register from. */
  function Unshifted(c: Word): Word {
    if c & 0x8000_0000 != 0 then ((c ^ POLYNOMIAL) << 1) | 1 else c << 1
  }

  lemma ShiftedIsInjective(x: Word)
    ensures Unshifted(Shifted(x)) == x
  {
  }

  /** No two registers become the same. */
  lemma BitIsInjective(x: Word, y: Word)
    requires Bit(x) == Bit(y)
    ensures x == y
  {
    BitIsShifted(x);
    BitIsShifted(y);
    ShiftedIsInjective(x);
    ShiftedIsInjective(y);
  }

  lemma {:induction false} BitsAreInjective(x: Word, y: Word, n: nat)
    requires Bits(x, n) == Bits(y, n)
    ensures x == y
  {
    if n > 0 {
      BitIsInjective(Bits(x, n - 1), Bits(y, n - 1));
      BitsAreInjective(x, y, n - 1);
    }
  }

  /** Different registers stay different over the same bytes. */
  lemma {:induction false} StaysDifferent(x: Word, y: Word, data: seq<bv8>)
    requires Update(x, data) == Update(y, data)
    ensures x == y
  {
    if data != [] {
      var init, b := data[..|data| - 1], data[|data| - 1] as Word;
      BitsAreInjective(Xor(Update(x, init), b), Xor(Update(y, init), b), 8);
      XorCancels(Update(x, init), b);
      XorCancels(Update(y, init), b);
      StaysDifferent(x, y, init);
    }
  }

  /** The run may be cut anywhere. */
  lemma {:induction false} UpdateJoins(crc: Word, a: seq<bv8>, b: seq<bv8>)
    ensures Update(crc, a + b) == Update(Update(crc, a), b)
  {
    if b == [] {
      assert a + b == a;
    } else {
      var init := b[..|b| - 1];
      assert (a + b)[..|a + b| - 1] == a + init;
      UpdateJoins(crc, a, init);
    }
  }

  /** A byte as the `k`-th byte of a word. */
  function Placed(b: bv8, k: nat): Word
    requires k < 4
  {
    var w := b as Word;
    if k == 0 then w else if k == 1 then w << 8 else if k == 2 then w << 16 else w << 24
  }

  /** Its bits come out of the register unchanged. */
  lemma {:induction false} PlacedComesOut(b: bv8, k: nat)
    requires k < 4
    ensures Bits(Placed(b, k), 8 * k) == b as Word
  {
    if k > 0 {
      PlacedShifts(b, k);
      EightShiftOut(Placed(b, k));
      PlacedComesOut(b, k - 1);
      BitsJoin(Placed(b, k), 8, 8 * (k - 1));
    }
  }

  lemma PlacedShifts(b: bv8, k: nat)
    requires 0 < k < 4
    ensures Placed(b, k) & 0xff == 0 && Placed(b, k) >> 8 == Placed(b, k - 1)
  {
  }

  /** At most four bytes as a word. */
  ghost function Pack(data: seq<bv8>): Word
    requires |data| <= 4
  {
    if data == [] then 0 else Xor(Pack(data[..|data| - 1]), Placed(data[|data| - 1], |data| - 1))
  }

  /** Up to four bytes enter the register as one word. */
  lemma {:induction false} PackEnters(crc: Word, data: seq<bv8>)
    requires |data| <= 4
    ensures Update(crc, data) == Bits(Xor(crc, Pack(data)), 8 * |data|)
  {
    if data == [] {
      XorIsXor(crc, 0);
    } else {
      var n := |data| - 1;
      var init, b := data[..n], data[n];
      PackEnters(crc, init);
      PlacedComesOut(b, n);
      BitsAreLinear(Xor(crc, Pack(init)), Placed(b, n), 8 * n);
      BitsJoin(Xor(Xor(crc, Pack(init)), Placed(b, n)), 8 * n, 8);
      XorRegroups(crc, Pack(init), Placed(b, n));
    }
  }

  function ByteOf(data: seq<bv8>, k: nat): bv8 {
    if k < |data| then data[k] else 0
  }

  ghost function Join(b0: bv8, b1: bv8, b2: bv8, b3: bv8): Word {
    Xor(Xor(Xor(Placed(b0, 0), Placed(b1, 1)), Placed(b2, 2)), Placed(b3, 3))
  }

  lemma JoinIsXor(b0: bv8, b1: bv8, b2: bv8, b3: bv8)
    ensures Join(b0, b1, b2, b3) ==
      (((b0 as Word) ^ ((b1 as Word) << 8)) ^ ((b2 as Word) << 16)) ^ ((b3 as Word) << 24)
  {
    XorOfFour(Placed(b0, 0), Placed(b1, 1), Placed(b2, 2), Placed(b3, 3));
  }

  lemma XorOfFour(a: Word, b: Word, c: Word, d: Word)
    ensures Xor(Xor(Xor(a, b), c), d) == ((a ^ b) ^ c) ^ d
  {
    XorOf(Xor(a, b), a, b);
    XorOf(Xor(Xor(a, b), c), Xor(a, b), c);
    XorOf(Xor(Xor(Xor(a, b), c), d), Xor(Xor(a, b), c), d);
  }

  lemma XorOf(r: Word, a: Word, b: Word)
    requires r == Xor(a, b)
    ensures r == a ^ b
  {
    XorIsXor(a, b);
  }

  lemma JoinedApart(a0: bv8, a1: bv8, a2: bv8, a3: bv8, b0: bv8, b1: bv8, b2: bv8, b3: bv8)
    requires Join(a0, a1, a2, a3) == Join(b0, b1, b2, b3)
    ensures a0 == b0 && a1 == b1 && a2 == b2 && a3 == b3
  {
    JoinIsXor(a0, a1, a2, a3);
    JoinIsXor(b0, b1, b2, b3);
  }

  lemma XorZero(x: Word)
    ensures Xor(x, 0) == x && Xor(0, x) == x
  {
    XorIsXor(x, 0);
    XorIsXor(0, x);
  }

  lemma PackIsJoin(data: seq<bv8>)
    requires |data| <= 4
    ensures Pack(data) == Join(ByteOf(data, 0), ByteOf(data, 1), ByteOf(data, 2), ByteOf(data, 3))
  {
    var p0, p1 := Placed(ByteOf(data, 0), 0), Placed(ByteOf(data, 1), 1);
    var p2, p3 := Placed(ByteOf(data, 2), 2), Placed(ByteOf(data, 3), 3);
    XorZero(p0);
    XorZero(Xor(p0, p1));
    XorZero(Xor(Xor(p0, p1), p2));
    PackPrefix(data, |data|);
    assert data[..|data|] == data;
    if |data| == 0 {
      XorZero(0);
    }
  }

  /** The bytes packed one after the other. */
  lemma PackPrefix(data: seq<bv8>, n: nat)
    requires n <= |data| <= 4
    ensures n == 0 ==> Pack(data[..n]) == 0
    ensures n > 0 ==> Pack(data[..n]) == Xor(Pack(data[..n - 1]), Placed(data[n - 1], n - 1))
    ensures n > 1 ==> Pack(data[..n - 1]) == Xor(Pack(data[..n - 2]), Placed(data[n - 2], n - 2))
    ensures n > 2 ==> Pack(data[..n - 2]) == Xor(Pack(data[..n - 3]), Placed(data[n - 3], n - 3))
    ensures n > 3 ==> Pack(data[..n - 3]) == Xor(Pack(data[..n - 4]), Placed(data[n - 4], n - 4))
    ensures Pack(data[..0]) == 0
  {
    if n > 0 {
      assert data[..n][..n - 1] == data[..n - 1];
      PackPrefix(data, n - 1);
    }
  }

  lemma XorCancelsLeft(c: Word, a: Word, b: Word)
    requires Xor(c, a) == Xor(c, b)
    ensures a == b
  {
    XorIsXor(c, a);
    XorIsXor(c, b);
  }

  /** Different runs of up to four bytes make different registers. */
  lemma FourBytesShow(crc: Word, a: seq<bv8>, b: seq<bv8>)
    requires |a| == |b| <= 4 && Update(crc, a) == Update(crc, b)
    ensures a == b
  {
    PackEnters(crc, a);
    PackEnters(crc, b);
    BitsAreInjective(Xor(crc, Pack(a)), Xor(crc, Pack(b)), 8 * |a|);
    XorCancelsLeft(crc, Pack(a), Pack(b));
    PackIsJoin(a);
    PackIsJoin(b);
    JoinedApart(ByteOf(a, 0), ByteOf(a, 1), ByteOf(a, 2), ByteOf(a, 3),
                ByteOf(b, 0), ByteOf(b, 1), ByteOf(b, 2), ByteOf(b, 3));
    forall k | 0 <= k < |a|
      ensures a[k] == b[k]
    {
      assert ByteOf(a, k) == ByteOf(b, k);
    }
  }

  /** Inputs of the same length that differ only within four consecutive bytes never have the same CRC. */
  lemma BurstIsDetected(before: seq<bv8>, a: seq<bv8>, b: seq<bv8>, after: seq<bv8>)
    requires |a| == |b| <= 4 && a != b
    ensures Crc(before + a + after) != Crc(before + b + after)
  {
    if Crc(before + a + after) == Crc(before + b + after) {
      var x, y := Update(0xffff_ffff, before + a + after), Update(0xffff_ffff, before + b + after);
      XorCancels(x, 0xffff_ffff);
      XorCancels(y, 0xffff_ffff);
      UpdateJoins(0xffff_ffff, before + a, after);
      UpdateJoins(0xffff_ffff, before + b, after);
      StaysDifferent(Update(0xffff_ffff, before + a), Update(0xffff_ffff, before + b), after);
      UpdateJoins(0xffff_ffff, before, a);
      UpdateJoins(0xffff_ffff, before, b);
      FourBytesShow(Update(0xffff_ffff, before), a, b);
    }
  }
}
