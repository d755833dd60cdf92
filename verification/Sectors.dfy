/** Bytes, 512-byte sectors and the little-endian 32-bit words stored in them. */
module Sectors {

  const SECTOR_SIZE := 512
  const WORDS_PER_SECTOR := 128

  type Byte = x: int | 0 <= x < 256
  type Word = x: int | 0 <= x < 0x1_0000_0000
  type Sector = s: seq<Byte> | |s| == SECTOR_SIZE witness seq(SECTOR_SIZE, (i: int) => 0)

  /** The word a little-endian machine reads at 32-bit index `k` of a sector. */
  function WordAt(s: Sector, k: nat): Word
    requires k < WORDS_PER_SECTOR
  {
    var b0: int, b1: int, b2: int, b3: int := s[4 * k], s[4 * k + 1], s[4 * k + 2], s[4 * k + 3];
    b0 + 256 * b1 + 0x1_0000 * b2 + 0x100_0000 * b3
  }

  /** The sector after the word at index `k` has been overwritten. */
  function PutWord(s: Sector, k: nat, w: Word): Sector
    requires k < WORDS_PER_SECTOR
  {
    s[4 * k := w % 256][4 * k + 1 := w / 256 % 256][4 * k + 2 := w / 0x1_0000 % 256][4 * k + 3 := w / 0x100_0000]
  }

  lemma WordRecombines(w: Word)
    ensures 0 <= w / 0x100_0000 < 256
    ensures w == w % 256 + 256 * (w / 256 % 256) + 0x1_0000 * (w / 0x1_0000 % 256) + 0x100_0000 * (w / 0x100_0000)
  {
    assert w / 0x1_0000 == w / 256 / 256;
    assert w / 0x100_0000 == w / 0x1_0000 / 256;
  }

  /** The bytes of a word in its sector: the lowest stands first. */
  lemma WordBytes(s: Sector, k: nat)
    requires k < 128
    ensures s[4 * k] == WordAt(s, k) % 256 && s[4 * k + 1] == WordAt(s, k) / 256 % 256
    ensures s[4 * k + 2] == WordAt(s, k) / 65536 % 256 && s[4 * k + 3] == WordAt(s, k) / 16777216
  {
    var b0: int, b1: int, b2: int, b3: int := s[4 * k], s[4 * k + 1], s[4 * k + 2], s[4 * k + 3];
    SplitWord(b0, b1, b2, b3);
  }

  lemma SplitWord(b0: Byte, b1: Byte, b2: Byte, b3: Byte)
    ensures var w := b0 + 256 * b1 + 65536 * b2 + 16777216 * b3;
      w % 256 == b0 && w / 256 % 256 == b1 && w / 65536 % 256 == b2 && w / 16777216 == b3
  {
    var w := b0 + 256 * b1 + 65536 * b2 + 16777216 * b3;
    assert w / 256 == b1 + 256 * b2 + 65536 * b3;
    assert w / 65536 == b2 + 256 * b3;
  }

  /** Putting byte `x` at place `i` of a word changes the word by the difference, at the weight of that place, and no
      other word. */
  lemma ByteWeighs(s: Sector, k: nat, i: nat, x: Byte)
    requires k < 128 && i < 4
    ensures var weight := if i == 0 then 1 else if i == 1 then 256 else if i == 2 then 65536 else 16777216;
      var now := s[4 * k + i := x];
      && WordAt(now, k) == WordAt(s, k) + (x - s[4 * k + i]) * weight
      && forall j: nat | j < 128 && j != k :: WordAt(now, j) == WordAt(s, j)
  {
  }

  /** A word is written with its lowest byte first; no other byte of the sector changes. */
  lemma PutWordBytes(s: Sector, k: nat, w: Word)
    requires k < 128
    ensures var now := PutWord(s, k, w);
      var b0: int, b1: int, b2: int, b3: int := now[4 * k], now[4 * k + 1], now[4 * k + 2], now[4 * k + 3];
      && b0 + 256 * b1 + 65536 * b2 + 16777216 * b3 == w
      && forall y | 0 <= y < 512 && !(4 * k <= y < 4 * k + 4) :: now[y] == s[y]
  {
    WordRecombines(w);
  }

  /** Writing one word is read back, and leaves the other 127 words of the sector alone. */
  lemma PutWordSelects(s: Sector, k: nat, w: Word)
    requires k < WORDS_PER_SECTOR
    ensures WordAt(PutWord(s, k, w), k) == w
    ensures forall j: nat | j < WORDS_PER_SECTOR && j != k :: WordAt(PutWord(s, k, w), j) == WordAt(s, j)
  {
    WordRecombines(w);
  }
}
