/** Long file names in directories: writing them and reading them back. */
module LongNames {
  import opened Folding
  import opened Sectors
  import opened Directories
  import opened DirFiles

  const NAME_CHARS := 13             // characters per long slot
  const MAX_ORDER := 20
  const FILENAME_BYTES := 256
  const ATTR_LONG_NAME := 0x0f
  const ATTR_DIRECTORY := 0x10
  const LAST_LONG := 0x40

  /** Names of 1 to 255 seven-bit characters. */
  ghost predicate IsName(name: seq<Byte>) {
    1 <= |name| <= 255 && forall i | 0 <= i < |name| :: 0 < name[i] < 128
  }

  /** Slots for a name: one for every 13 characters, and the short one. */
  function SlotsFor(name: seq<Byte>): nat {
    (|name| + (NAME_CHARS - 1)) / NAME_CHARS + 1
  }

  /** Checksum of a short name: rotate right, add. */
  function Checksum(shortname: seq<Byte>): Byte {
    if shortname == [] then 0 else
      var c := Checksum(shortname[..|shortname| - 1]);
      ((if c % 2 == 1 then 0x80 else 0) + c / 2 + shortname[|shortname| - 1]) % 256
  }

  /** A byte of the two-byte character `l` of a name, of its terminating zero, or behind it. */
  function CharByte(name: seq<Byte>, l: int, high: bool, first: bool): Byte
    requires 0 <= l
  {
    if l < |name| then (if high then 0 else name[l])
    else if l == |name| || !first then 0 else 0xff
  }

  /** The bytes of a long slot that hold characters; which character, and which half of it. */
  predicate IsCharByte(p: int) {
    1 <= p <= 10 || 14 <= p <= 25 || 28 <= p <= 31
  }

  function CharIndex(p: int): nat
    requires IsCharByte(p)
  {
    if p <= 10 then (p - 1) / 2 else if p <= 25 then 5 + (p - 14) / 2 else 11 + (p - 28) / 2
  }

  function IsHigh(p: int): bool {
    if p <= 10 then p % 2 == 0 else p % 2 == 1
  }

  /** The slot of the 13 characters from `at` on, as FAT defines it. `first` is the slot that comes first in the
      directory, which is that of the last part of the name. */
  function LongSlot(name: seq<Byte>, at: nat, order: nat, first: bool, chksum: Byte): Slot
    requires 1 <= order <= MAX_ORDER
  {
    PartSlot(name, at, order, first, NAME_CHARS)[11 := ATTR_LONG_NAME][13 := chksum]
  }

  /** The same without attribute and checksum, with only the first `n` characters set. */
  function PartSlot(name: seq<Byte>, at: nat, order: nat, first: bool, n: nat): Slot
    requires 1 <= order <= MAX_ORDER
  {
    seq(32, (p: int) requires 0 <= p < 32 => PartByte(name, at, order, first, n, p))
  }

  function PartByte(name: seq<Byte>, at: nat, order: nat, first: bool, n: nat, p: int): Byte
    requires 1 <= order <= MAX_ORDER
  {
    if p == 0 then order + (if first then LAST_LONG else 0)
    else if !IsCharByte(p) then 0
    else if CharIndex(p) < n then CharByte(name, at + CharIndex(p), IsHigh(p), first)
    else if first then 0xff else 0
  }

  /** The short slot; `stamp` is the creation time in tenths, the time and the date. */
  function ShortSlot(shortname: seq<Byte>, isDirectory: bool, stamp: seq<Byte>): Slot
    requires |shortname| == 11 && |stamp| == 5
  {
    shortname + [if isDirectory then ATTR_DIRECTORY else 0, 0, stamp[0], stamp[1], stamp[2], stamp[3], stamp[4],
                 stamp[3], stamp[4], 0, 0, stamp[1], stamp[2], stamp[3], stamp[4], 0, 0, 0, 0, 0, 0]
  }

  /** The checksum begins at 0. With one more byte its lowest bit goes to the top, the others down, and the byte is
      added. */
  lemma NextChecksum(s: seq<Byte>, x: Byte, half: int, odd: int)
    requires Checksum(s) == 2 * half + odd && 0 <= odd < 2
    ensures Checksum(s + [x]) == (128 * odd + half + x) % 256
    ensures Checksum([]) == 0
  {
    assert (s + [x])[..|s|] == s;
  }

  lemma RotationTells(c: Byte, d: Byte, x: Byte, y: Byte)
    requires (128 * (c % 2) + c / 2 + x) % 256 == (128 * (d % 2) + d / 2 + y) % 256
    ensures c == d <==> x == y
  {
    var a: int, b: int := 128 * (c % 2) + c / 2, 128 * (d % 2) + d / 2;
    ResidueTells(a, b, x, y);
  }

  lemma ResidueTells(a: int, b: int, x: int, y: int)
    requires 0 <= a < 256 && 0 <= b < 256 && 0 <= x < 256 && 0 <= y < 256 && (a + x) % 256 == (b + y) % 256
    ensures a == b <==> x == y
  {
  }

  lemma SumTells(c: Byte, d: Byte, s: seq<Byte>, t: seq<Byte>, x: Byte, y: Byte)
    requires Checksum(s) == c && Checksum(t) == d && Checksum(s + [x]) == Checksum(t + [y])
    ensures c == d <==> x == y
  {
    NextChecksum(s, x, c / 2, c % 2);
    NextChecksum(t, y, d / 2, d % 2);
    RotationTells(c, d, x, y);
  }

  /** Short names that differ in one byte have different checksums. */
  lemma {:induction false} ChecksumTells(a: seq<Byte>, x: Byte, y: Byte, b: seq<Byte>)
    requires Checksum(a + [x] + b) == Checksum(a + [y] + b)
    ensures x == y
  {
    if b == [] {
      assert a + [x] + b == a + [x] && a + [y] + b == a + [y];
      SumTells(Checksum(a), Checksum(a), a, a, x, y);
    } else {
      var init, last := b[..|b| - 1], b[|b| - 1];
      var s, t := a + [x] + init, a + [y] + init;
      assert a + [x] + b == s + [last] && a + [y] + b == t + [last];
      SumTells(Checksum(s), Checksum(t), s, t, last, last);
      ChecksumTells(a, x, y, init);
    }
  }

  /** Where the parts of a short slot are: name, kind, and the time and date of creation and of the last change. */
  lemma ShortSlotBytes(shortname: seq<Byte>, isDirectory: bool, stamp: seq<Byte>)
    requires |shortname| == 11 && |stamp| == 5
    ensures var s := ShortSlot(shortname, isDirectory, stamp);
      && s[0..11] == shortname && s[11] == (if isDirectory then 16 else 0) && s[13] == stamp[0]
      && s[14] == s[22] == stamp[1] && s[15] == s[23] == stamp[2]
      && s[16] == s[18] == s[24] == stamp[3] && s[17] == s[19] == s[25] == stamp[4]
      && forall p | p == 12 || p == 20 || p == 21 || 26 <= p < 32 :: s[p] == 0
  {
  }

  /** Where the parts of a long slot are: its ordinal, the mark of its kind, the checksum ... */
  lemma LongSlotBytes(name: seq<Byte>, at: nat, order: nat, first: bool, chksum: Byte)
    requires 1 <= order <= 20
    ensures var s := LongSlot(name, at, order, first, chksum);
      && s[0] == (if first then order + 64 else order) && s[11] == 15 && s[13] == chksum
      && s[12] == s[26] == s[27] == 0
  {
  }

  /** ... and its thirteen characters of two bytes. */
  lemma LongSlotChars(name: seq<Byte>, at: nat, order: nat, first: bool, chksum: Byte, k: nat, p: int)
    requires 1 <= order <= 20 && k < 13 && p == [1, 3, 5, 7, 9, 14, 16, 18, 20, 22, 24, 28, 30][k]
    ensures var s := LongSlot(name, at, order, first, chksum);
      && (at + k < |name| ==> s[p] == name[at + k] && s[p + 1] == 0)
      && (at + k == |name| ==> s[p] == 0 && s[p + 1] == 0)
      && (at + k > |name| && first ==> s[p] == 255 && s[p + 1] == 255)
  {
    assert IsCharByte(p) && IsCharByte(p + 1) && CharIndex(p) == k && CharIndex(p + 1) == k;
  }

  /** A name takes a long slot for every 13 characters or part of them, and a short one. */
  lemma SlotsAreEnough(name: seq<Byte>)
    requires 1 <= |name| <= 255
    ensures 13 * (SlotsFor(name) - 2) < |name| <= 13 * (SlotsFor(name) - 1) && 2 <= SlotsFor(name) <= 21
  {
  }

  /** Slot `i` of those a name is stored in. */
  function NameSlot(name: seq<Byte>, shortname: seq<Byte>, isDirectory: bool, stamp: seq<Byte>, i: int): Slot
    requires 1 <= |name| <= 255 && |shortname| == 11 && |stamp| == 5 && 0 <= i < SlotsFor(name)
  {
    var longs := SlotsFor(name) - 1;
    if i < longs then LongSlot(name, NAME_CHARS * (longs - 1 - i), longs - i, i == 0, Checksum(shortname))
    else ShortSlot(shortname, isDirectory, stamp)
  }

  /** The checksum loop of write_long_name. */
  method ChecksumOf(shortname: seq<Byte>) returns (chksum: Byte)
    requires |shortname| == 11
    ensures chksum == Checksum(shortname)
  {
    chksum := 0;
    var j := 0;
    for i := 11 downto 0
      invariant j == 11 - i && chksum == Checksum(shortname[..j])
    {
      assert shortname[..j + 1][..j] == shortname[..j];
      chksum := ((if chksum % 2 == 1 then 0x80 else 0) + chksum / 2 + shortname[j]) % 256;
      j := j + 1;
    }
    assert shortname[..11] == shortname;
  }

  /** Where the last part of the name begins. */
  method LastPart(namelen: nat) returns (nameidx: nat)
    requires 1 <= namelen
    ensures nameidx == NAME_CHARS * ((namelen + (NAME_CHARS - 1)) / NAME_CHARS - 1)
  {
    nameidx := 0;
    ghost var n := 0;
    if namelen > NAME_CHARS {
      while nameidx < namelen - NAME_CHARS
        invariant nameidx == NAME_CHARS * n && nameidx < namelen
      {
        nameidx := nameidx + NAME_CHARS;
        n := n + 1;
      }
    }
  }

  /** Setting one more character. */
  lemma OneMoreChar(name: seq<Byte>, at: nat, order: nat, first: bool, n: nat, low: int)
    requires 1 <= order <= MAX_ORDER && n < NAME_CHARS && at + n <= |name|
    requires low == if n < 5 then 1 + 2 * n else if n < 11 then 14 + 2 * (n - 5) else 28 + 2 * (n - 11)
    ensures PartSlot(name, at, order, first, n)[low := if at + n < |name| then name[at + n] else 0][low + 1 := 0]
         == PartSlot(name, at, order, first, n + 1)
  {
    var l := PartSlot(name, at, order, first, n)[low := if at + n < |name| then name[at + n] else 0][low + 1 := 0];
    var r := PartSlot(name, at, order, first, n + 1);
    forall p | 0 <= p < 32
      ensures l[p] == r[p]
    {
      if IsCharByte(p) {
        assert CharIndex(p) == n <==> p == low || p == low + 1;
      }
    }
  }

  /** Behind the end of the name there is only padding. */
  lemma OnlyPadding(name: seq<Byte>, at: nat, order: nat, first: bool, n: nat, m: nat)
    requires 1 <= order <= MAX_ORDER && n <= m && at + n > |name| && first
    ensures PartSlot(name, at, order, first, n) == PartSlot(name, at, order, first, m)
  {
    var l, r := PartSlot(name, at, order, first, n), PartSlot(name, at, order, first, m);
    forall p | 0 <= p < 32
      ensures l[p] == r[p]
    {
    }
  }

  /** One of the three loops that set characters: up to `count` of them, from character `n0` of the part on. */
  method SetChars(entry0: Slot, name: seq<Byte>, l0: nat, at: int, count: int, ghost nameidx: nat, ghost order: nat,
                  ghost first: bool, ghost n0: nat)
    returns (entry: Slot, l: nat)
    requires 1 <= order <= MAX_ORDER && (at, count, n0) in {(1, 5, 0), (14, 6, 5), (28, 2, 11)}
    requires entry0 == PartSlot(name, nameidx, order, first, n0)
    requires l0 == nameidx + n0 || (first && |name| < l0 <= nameidx + n0)
    requires !first ==> nameidx + NAME_CHARS <= |name|
    ensures entry == PartSlot(name, nameidx, order, first, n0 + count)
    ensures l == nameidx + n0 + count || (first && |name| < l <= nameidx + n0 + count)
  {
    entry, l := entry0, l0;
    var k := 0;
    while k < count && l <= |name|
      invariant 0 <= k <= count && l == l0 + k && (l0 == nameidx + n0 || k == 0)
      invariant entry == PartSlot(name, nameidx, order, first, n0 + k)
    {
      OneMoreChar(name, nameidx, order, first, n0 + k, k * 2 + at);
      entry := entry[k * 2 + at := if l < |name| then name[l] else 0][k * 2 + at + 1 := 0];
      l, k := l + 1, k + 1;
    }
    if k < count {
      OnlyPadding(name, nameidx, order, first, n0 + k, n0 + count);
    }
  }

  /** Fill in the slot of one part of the name. */
  method FillLongSlot(name: seq<Byte>, nameidx: nat, order: nat, first: bool, chksum: Byte) returns (entry: Slot)
    requires 1 <= order <= MAX_ORDER && nameidx <= |name| && (!first ==> nameidx + NAME_CHARS <= |name|)
    ensures entry == LongSlot(name, nameidx, order, first, chksum)
  {
    entry := EmptySlot();
    entry := entry[0 := order];
    if first {
      entry := entry[0 := order + LAST_LONG];
      entry := Pad(entry);
    }
    assert entry == PartSlot(name, nameidx, order, first, 0);
    var l := nameidx;
    entry, l := SetChars(entry, name, l, 1, 5, nameidx, order, first, 0);
    entry, l := SetChars(entry, name, l, 14, 6, nameidx, order, first, 5);
    entry, l := SetChars(entry, name, l, 28, 2, nameidx, order, first, 11);
    ghost var chars := entry;
    entry := entry[11 := ATTR_LONG_NAME];
    entry := entry[26 := 0];
    entry := entry[12 := 0];
    entry := entry[13 := chksum];
    assert entry == chars[11 := ATTR_LONG_NAME][13 := chksum];
  }

  /** Pad the places for characters. */
  method Pad(entry: Slot) returns (r: Slot)
    ensures forall p | 0 <= p < 32 :: r[p] == if IsCharByte(p) then 0xff else entry[p]
  {
    r := entry;
    for k := 1 to 11
      invariant forall p | 0 <= p < 32 :: r[p] == if 1 <= p < k then 0xff else entry[p]
    {
      r := r[k := 0xff];
    }
    for k := 14 to 26
      invariant forall p | 0 <= p < 32 :: r[p] == if 1 <= p <= 10 || 14 <= p < k then 0xff else entry[p]
    {
      r := r[k := 0xff];
    }
    for k := 28 to 32
      invariant forall p | 0 <= p < 32 :: r[p] == if 1 <= p <= 10 || 14 <= p <= 25 || 28 <= p < k then 0xff else entry[p]
    {
      r := r[k := 0xff];
    }
  }

  /** Where a name is stored: from slot `start` on, with short name, kind and times. */
  datatype Stored = Stored(start: nat, name: seq<Byte>, shortname: seq<Byte>, isDirectory: bool, stamp: seq<Byte>) {
    ghost predicate Ok() {
      1 <= |name| <= 255 && |shortname| == 11 && |stamp| == 5
    }

    /** Slot `e` of a directory that had `before` there, once `n` slots have been stored. */
    function After(before: Slot, n: int, e: int): Slot
      requires 1 <= |name| <= 255 && |shortname| == 11 && |stamp| == 5 && n <= SlotsFor(name)
    {
      if start <= e < start + n then NameSlot(name, shortname, isDirectory, stamp, e - start) else before
    }
  }

  /** The sectors before number `sector` are final, `buf` is that sector as far as it has been filled in, and the others
      are as before. */
  ghost predicate Filled(st: Stored, before: seq<DirSector>, now: seq<DirSector>, buf: DirSector, sector: nat, n: int)
    requires st.Ok() && n <= SlotsFor(st.name)
  {
    && |now| == |before| && sector < |now|
    && forall x {:trigger Unfold(x)} | Unfold(x) ::
         && (forall e | 0 <= e < SLOTS * sector :: SlotAt(now, e) == st.After(SlotAt(before, e), n, e))
         && (forall k | 0 <= k < SLOTS :: buf[k] == st.After(before[sector][k], n, SLOTS * sector + k))
         && (forall s | sector <= s < |now| :: now[s] == before[s])
  }

  lemma FilledNext(st: Stored, before: seq<DirSector>, now: seq<DirSector>, buf: DirSector, sector: nat, n: nat, idx: nat)
    requires st.Ok() && n < SlotsFor(st.name) && idx < SLOTS && SLOTS * sector + idx == st.start + n
    requires Filled(st, before, now, buf, sector, n)
    ensures Filled(st, before, now, buf[idx := NameSlot(st.name, st.shortname, st.isDirectory, st.stamp, n)], sector, n + 1)
  {
    assert Unfold(0);
    var slot := NameSlot(st.name, st.shortname, st.isDirectory, st.stamp, n);
    forall e | 0 <= e < SLOTS * sector
      ensures SlotAt(now, e) == st.After(SlotAt(before, e), n + 1, e)
    {
      assert SlotAt(now, e) == st.After(SlotAt(before, e), n, e);
    }
    forall k | 0 <= k < SLOTS
      ensures buf[idx := slot][k] == st.After(before[sector][k], n + 1, SLOTS * sector + k)
    {
      assert buf[k] == st.After(before[sector][k], n, SLOTS * sector + k);
    }
  }

  lemma FilledSector(st: Stored, before: seq<DirSector>, now: seq<DirSector>, buf: DirSector, sector: nat, n: nat)
    requires st.Ok() && n <= SlotsFor(st.name) && SLOTS * (sector + 1) == st.start + n && sector + 1 < |before|
    requires Filled(st, before, now, buf, sector, n)
    ensures Filled(st, before, now[sector := buf], before[sector + 1], sector + 1, n)
  {
    assert Unfold(0);
    var now' := now[sector := buf];
    forall e | 0 <= e < SLOTS * (sector + 1)
      ensures SlotAt(now', e) == st.After(SlotAt(before, e), n, e)
    {
      if e < SLOTS * sector {
        assert SlotAt(now', e) == SlotAt(now, e);
      } else {
        assert SlotAt(now', e) == buf[e - SLOTS * sector];
        assert SlotAt(before, e) == before[sector][e - SLOTS * sector];
      }
    }
  }

  lemma FilledEnd(st: Stored, before: seq<DirSector>, now: seq<DirSector>, buf: DirSector, sector: nat)
    requires st.Ok() && st.start + SlotsFor(st.name) <= SLOTS * (sector + 1)
    requires Filled(st, before, now, buf, sector, SlotsFor(st.name))
    ensures forall e | 0 <= e < SLOTS * |before| ::
      SlotAt(now[sector := buf], e) == st.After(SlotAt(before, e), SlotsFor(st.name), e)
  {
    assert Unfold(0);
    var now' := now[sector := buf];
    forall e | 0 <= e < SLOTS * |before|
      ensures SlotAt(now', e) == st.After(SlotAt(before, e), SlotsFor(st.name), e)
    {
      if e < SLOTS * sector {
        assert SlotAt(now', e) == SlotAt(now, e);
      } else if e < SLOTS * (sector + 1) {
        assert SlotAt(now', e) == buf[e - SLOTS * sector];
        assert SlotAt(before, e) == before[sector][e - SLOTS * sector];
      } else {
        assert SlotAt(now', e) == SlotAt(before, e);
      }
    }
  }

  /** The current sector is full: write it and get the next one. */
  method TurnSector(dir: DirFile, buf0: DirSector, sector: nat, ghost st: Stored, ghost before: seq<DirSector>, ghost n: nat)
    returns (buf: DirSector)
    requires dir.Valid() && st.Ok() && n <= SlotsFor(st.name) && SLOTS * (sector + 1) == st.start + n
    requires sector + 1 < |before| && Filled(st, before, dir.sectors, buf0, sector, n)
    modifies dir`pos, dir`eof, dir`sectors, dir`room,
      dir.file, dir.vol`disk, dir.vol`slots, dir.vol`freecount, dir.vol`nextfree, dir.vol`fat
    ensures dir.Valid() && dir.room == old(dir.room) && Filled(st, before, dir.sectors, buf, sector + 1, n)
  {
    assert Unfold(0);
    dir.Seek(sector);
    FilledSector(st, before, dir.sectors, buf0, sector, n);
    dir.Overwrite(buf0);
    var rc;
    rc, buf := dir.Read();
  }

  /** Slot `i` of the name. */
  method BuildSlot(name: seq<Byte>, shortname: seq<Byte>, isDirectory: bool, stamp: seq<Byte>, numentries: nat, i: nat,
                   nameidx: int, chksum: Byte)
    returns (entry: Slot)
    requires 1 <= |name| <= 255 && |shortname| == 11 && |stamp| == 5 && i < numentries == SlotsFor(name)
    requires nameidx == NAME_CHARS * (numentries - 2 - i) && chksum == Checksum(shortname)
    ensures entry == NameSlot(name, shortname, isDirectory, stamp, i)
  {
    if i + 1 < numentries {
      entry := FillLongSlot(name, nameidx, numentries - i - 1, i == 0, chksum);
    } else {
      entry := FillShortSlot(shortname, isDirectory, stamp);
    }
  }

  /** Fill in the short slot. */
  method FillShortSlot(shortname: seq<Byte>, isDirectory: bool, stamp: seq<Byte>) returns (entry: Slot)
    requires |shortname| == 11 && |stamp| == 5
    ensures entry == ShortSlot(shortname, isDirectory, stamp)
  {
    entry := EmptySlot();
    entry := shortname + entry[11..];
    entry := entry[11 := if isDirectory then ATTR_DIRECTORY else 0];
    entry := entry[12 := 0];
    entry := entry[13 := stamp[0]];
    entry := entry[14 := stamp[1]][15 := stamp[2]];
    entry := entry[22 := stamp[1]][23 := stamp[2]];
    entry := entry[16 := stamp[3]][17 := stamp[4]];
    entry := entry[24 := stamp[3]][25 := stamp[4]];
    entry := entry[18 := stamp[3]][19 := stamp[4]];
  }

  /** Put slot `i` of the name in its place, in the next sector if this one is full. */
  method PutSlot(dir: DirFile, buf0: DirSector, sector0: nat, idx0: nat, entry: Slot,
                 ghost st: Stored, ghost before: seq<DirSector>, ghost i: nat)
    returns (buf: DirSector, sector: nat, idx: nat)
    requires dir.Valid() && st.Ok() && i < SlotsFor(st.name) && st.start + SlotsFor(st.name) <= SLOTS * |before|
    requires idx0 <= SLOTS && SLOTS * sector0 + idx0 == st.start + i
    requires entry == NameSlot(st.name, st.shortname, st.isDirectory, st.stamp, i)
    requires Filled(st, before, dir.sectors, buf0, sector0, i)
    modifies dir`pos, dir`eof, dir`sectors, dir`room,
      dir.file, dir.vol`disk, dir.vol`slots, dir.vol`freecount, dir.vol`nextfree, dir.vol`fat
    ensures dir.Valid() && dir.room == old(dir.room) && idx <= SLOTS && SLOTS * sector + idx == st.start + i + 1
    ensures Filled(st, before, dir.sectors, buf, sector, i + 1)
  {
    buf, sector, idx := buf0, sector0, idx0;
    if idx >= SLOTS {
      buf := TurnSector(dir, buf, sector, st, before, i);
      sector := sector + 1;
      idx := 0;
    }
    FilledNext(st, before, dir.sectors, buf, sector, i, idx);
    buf := buf[idx := entry];
    idx := idx + 1;
  }

  /** write_long_name: fill the slots of a name from slot `firstentry` on, sector by sector; all others stay. Its panic
      for a slot that is not free is excluded by the precondition. */
  method WriteLongName(dir: DirFile, firstentry: nat, numentries: nat, name: seq<Byte>, shortname: seq<Byte>,
                       isDirectory: bool, stamp: seq<Byte>)
    requires dir.Valid() && 1 <= |name| <= 255 && |shortname| == 11 && |stamp| == 5 && numentries == SlotsFor(name)
    requires firstentry + numentries <= SLOTS * |dir.sectors|
    requires forall e | firstentry <= e < firstentry + numentries :: IsFree(SlotAt(dir.sectors, e))
    modifies dir`pos, dir`eof, dir`sectors, dir`room,
      dir.file, dir.vol`disk, dir.vol`slots, dir.vol`freecount, dir.vol`nextfree, dir.vol`fat
    ensures dir.Valid() && |dir.sectors| == |old(dir.sectors)| && dir.room == old(dir.room)
    ensures var st, before := Stored(firstentry, name, shortname, isDirectory, stamp), old(dir.sectors);
      forall e | 0 <= e < SLOTS * |before| :: SlotAt(dir.sectors, e) == st.After(SlotAt(before, e), numentries, e)
  {
    ghost var st, before := Stored(firstentry, name, shortname, isDirectory, stamp), dir.sectors;
    var idx: nat, sector: nat := firstentry % SLOTS, firstentry / SLOTS;
    dir.Seek(sector);
    var rc, buf := dir.Read();
    FilledBegins(st, before, sector);
    buf, sector := PutSlots(dir, buf, sector, idx, numentries, name, shortname, isDirectory, stamp, st, before);
    dir.Seek(sector);
    FilledEnd(st, before, dir.sectors, buf, sector);
    dir.Overwrite(buf);
  }

  lemma FilledBegins(st: Stored, before: seq<DirSector>, sector: nat)
    requires st.Ok() && sector < |before| && sector == st.start / SLOTS
    ensures Filled(st, before, before, before[sector], sector, 0)
  {
  }

  /** The loop over the slots of a name. */
  method PutSlots(dir: DirFile, buf0: DirSector, sector0: nat, idx0: nat, numentries: nat, name: seq<Byte>,
                  shortname: seq<Byte>, isDirectory: bool, stamp: seq<Byte>, ghost st: Stored, ghost before: seq<DirSector>)
    returns (buf: DirSector, sector: nat)
    requires dir.Valid() && st.Ok() && (st.name, st.shortname, st.isDirectory, st.stamp) == (name, shortname, isDirectory, stamp)
    requires numentries == SlotsFor(name) && st.start + numentries <= SLOTS * |before|
    requires idx0 <= SLOTS && SLOTS * sector0 + idx0 == st.start && Filled(st, before, dir.sectors, buf0, sector0, 0)
    modifies dir`pos, dir`eof, dir`sectors, dir`room,
      dir.file, dir.vol`disk, dir.vol`slots, dir.vol`freecount, dir.vol`nextfree, dir.vol`fat
    ensures dir.Valid() && dir.room == old(dir.room) && st.start + numentries <= SLOTS * (sector + 1)
    ensures Filled(st, before, dir.sectors, buf, sector, numentries)
  {
    buf, sector := buf0, sector0;
    var idx := idx0;
    var chksum := ChecksumOf(shortname);
    var nameidx: int := LastPart(|name|);
    for i := 0 to numentries
      invariant dir.Valid() && dir.room == old(dir.room) && 0 <= idx <= SLOTS && SLOTS * sector + idx == st.start + i
      invariant i < numentries ==> nameidx == NAME_CHARS * (numentries - 2 - i)
      invariant Filled(st, before, dir.sectors, buf, sector, i)
    {
      var entry := BuildSlot(name, shortname, isDirectory, stamp, numentries, i, nameidx, chksum);
      buf, sector, idx := PutSlot(dir, buf, sector, idx, entry, st, before, i);
      nameidx := nameidx - NAME_CHARS;
    }
  }
}
