/** Reading directories: which entry comes next, and under which name. */
module DirReader {
  import opened Folding
  import opened Options
  import opened Sectors
  import opened Directories
  import opened DirFiles
  import opened LongNames

  const LONG_BYTES := 26             // bytes of characters per long slot
  const LONGNAME_SIZE := 520
  const PAD_CHAR := 0xffff

  predicate IsLong(s: Slot) {
    s[11] % 0x40 == ATTR_LONG_NAME
  }

  predicate IsLast(s: Slot) {
    s[0] / LAST_LONG % 2 == 1
  }

  function Order(s: Slot): int {
    if IsLast(s) then s[0] - LAST_LONG else s[0]
  }

  predicate IsVolumeId(s: Slot) {
    s[11] / 8 % 4 == 1
  }

  predicate InOrder(order: int) {
    1 <= order <= MAX_ORDER
  }

  /** The long slots that continue a name have ordinals as FAT allows them. */
  ghost predicate OrdersOk(sectors: seq<DirSector>) {
    forall e | 0 <= e < SLOTS * |sectors| && IsLong(SlotAt(sectors, e)) && !IsFree(SlotAt(sectors, e))
      && !IsLast(SlotAt(sectors, e)) :: InOrder(Order(SlotAt(sectors, e)))
  }

  /** The character bytes of a long slot. */
  function CharBytes(s: Slot): (r: seq<Byte>)
    ensures |r| == LONG_BYTES
  {
    s[1..11] + s[14..26] + s[28..32]
  }

  /** What has been learned from the slots before a short one. */
  datatype Scan = Scan(nbLongs: int, lastOrd: int, longname: seq<Byte>, count: int)

  function PutPart(longname: seq<Byte>, order: int, s: Slot): (r: seq<Byte>)
    requires |longname| == LONGNAME_SIZE && 1 <= order <= MAX_ORDER
    ensures |r| == LONGNAME_SIZE
  {
    longname[..LONG_BYTES * (order - 1)] + CharBytes(s) + longname[LONG_BYTES * order..]
  }

  /** The slot would be copied to a place outside the name buffer. */
  predicate Overruns(sc: Scan, s: Slot) {
    !IsLast(s) && sc.nbLongs != 0 && !InOrder(Order(s))
  }

  /** A long slot has been seen. */
  function Seen(sc: Scan, s: Slot): (r: Scan)
    requires |sc.longname| == LONGNAME_SIZE && !Overruns(sc, s)
    ensures |r.longname| == LONGNAME_SIZE && (0 <= sc.nbLongs <= MAX_ORDER ==> 0 <= r.nbLongs <= MAX_ORDER)
  {
    var order := Order(s);
    if (IsLast(s) && !InOrder(order)) || (!IsLast(s) && sc.nbLongs == 0) then sc
    else
      sc.(nbLongs := if IsLast(s) then order else if order != sc.lastOrd - 1 then 0 else sc.nbLongs,
          lastOrd := order, longname := PutPart(sc.longname, order, s))
  }

  function CharOf(longname: seq<Byte>, l: nat): int
    requires 2 * l + 1 < |longname|
  {
    var low: int, high: int := longname[2 * l], longname[2 * l + 1];
    low + 256 * high
  }

  /** The name in the buffer from character `l` of `n` on, behind `name`; none if it becomes too long. */
  function Decode(longname: seq<Byte>, l: nat, n: nat, name: seq<Byte>): Option<seq<Byte>>
    requires l <= n && 2 * n <= |longname|
    decreases n - l
  {
    if l == n || CharOf(longname, l) == 0 || CharOf(longname, l) == PAD_CHAR then Some(name)
    else if |name| + 1 >= FILENAME_BYTES then None
    else Decode(longname, l + 1, n, name + [if CharOf(longname, l) < 128 then CharOf(longname, l) else '?' as int])
  }

  function Lower(c: Byte, lowercase: bool): Byte {
    if lowercase && 'A' as int <= c <= 'Z' as int then c + 32 else c
  }

  /** The characters of a padded field. */
  function Unpadded(field: seq<Byte>, lowercase: bool): seq<Byte> {
    if field == [] || field[0] == ' ' as int then [] else [Lower(field[0], lowercase)] + Unpadded(field[1..], lowercase)
  }

  /** parse_direntry: the name in a short slot. */
  function DosName(s: Slot): seq<Byte> {
    var base := if s[0] == 0x05 then [FREE_SLOT] + Unpadded(s[1..8], s[12] / 8 % 2 == 1)
                else Unpadded(s[0..8], s[12] / 8 % 2 == 1);
    if s[8] != ' ' as int then base + ['.' as int] + Unpadded(s[8..11], s[12] / 16 % 2 == 1) else base
  }

  /** A field up to its first space. */
  lemma {:induction false} UnpaddedIs(field: seq<Byte>, lowercase: bool) returns (n: nat)
    ensures n <= |field| && (n < |field| ==> field[n] == 32) && forall i | 0 <= i < n :: field[i] != 32
    ensures |Unpadded(field, lowercase)| == n
    ensures forall i | 0 <= i < n ::
      Unpadded(field, lowercase)[i] == if lowercase && 65 <= field[i] <= 90 then field[i] + 32 else field[i]
  {
    if field == [] || field[0] == 32 {
      n := 0;
    } else {
      n := UnpaddedIs(field[1..], lowercase);
      n := n + 1;
    }
  }

  /** The first byte of a name, where 0x05 stands for 0xe5. */
  function FirstByte(s: Slot): Byte {
    if s[0] == 0x05 then FREE_SLOT else s[0]
  }

  lemma BaseIs(s: Slot, lowercase: bool)
    ensures Unpadded([FirstByte(s)] + s[1..8], lowercase)
         == if s[0] == 0x05 then [FREE_SLOT] + Unpadded(s[1..8], lowercase) else Unpadded(s[0..8], lowercase)
  {
    assert ([FirstByte(s)] + s[1..8])[1..] == s[1..8];
    assert s[0] != 0x05 ==> [FirstByte(s)] + s[1..8] == s[0..8];
  }

  lemma BaseBytes(s: Slot, lowercase: bool, base: seq<Byte>)
    requires base == Unpadded([FirstByte(s)] + s[1..8], lowercase)
    ensures |base| <= 8 && (|base| < 8 ==> s[|base|] == 32) && forall j | 0 <= j < |base| :: s[j] != 32
    ensures forall j | 0 <= j < |base| :: base[j] == if j == 0 && s[0] == 5 then 0xe5
      else if lowercase && 65 <= s[j] <= 90 then s[j] + 32 else s[j]
  {
    var field := [FirstByte(s)] + s[1..8];
    var b := UnpaddedIs(field, lowercase);
    assert forall j | 1 <= j < 8 :: field[j] == s[j];
  }

  lemma ExtensionBytes(s: Slot, lowercase: bool, ext: seq<Byte>)
    requires ext == Unpadded(s[8..11], lowercase)
    ensures |ext| <= 3 && (|ext| < 3 ==> s[8 + |ext|] == 32) && forall j | 8 <= j < 8 + |ext| :: s[j] != 32
    ensures forall j | 8 <= j < 8 + |ext| :: ext[j - 8] == if lowercase && 65 <= s[j] <= 90 then s[j] + 32 else s[j]
  {
    var x := UnpaddedIs(s[8..11], lowercase);
    assert forall j | 8 <= j < 11 :: s[8..11][j - 8] == s[j];
  }

  /** The name in a short slot: its proper characters, and behind a dot those of its extension if it has one. The byte
      0x05 stands for 0xe5 at the head of the name, and two bits of byte 12 tell which of the parts is in lower case. */
  lemma DosNameIs(s: Slot) returns (base: seq<Byte>, ext: seq<Byte>)
    ensures DosName(s) == if ext == [] then base else base + [46] + ext
    ensures |base| <= 8 && (|base| < 8 ==> s[|base|] == 32) && forall j | 0 <= j < |base| :: s[j] != 32
    ensures |ext| <= 3 && (|ext| < 3 ==> s[8 + |ext|] == 32) && forall j | 8 <= j < 8 + |ext| :: s[j] != 32
    ensures forall j | 0 <= j < |base| :: base[j] == if j == 0 && s[0] == 5 then 0xe5
      else if s[12] / 8 % 2 == 1 && 65 <= s[j] <= 90 then s[j] + 32 else s[j]
    ensures forall j | 8 <= j < 8 + |ext| ::
      ext[j - 8] == if s[12] / 16 % 2 == 1 && 65 <= s[j] <= 90 then s[j] + 32 else s[j]
  {
    base := Unpadded([FirstByte(s)] + s[1..8], s[12] / 8 % 2 == 1);
    ext := Unpadded(s[8..11], s[12] / 16 % 2 == 1);
    BaseIs(s, s[12] / 8 % 2 == 1);
    BaseBytes(s, s[12] / 8 % 2 == 1, base);
    ExtensionBytes(s, s[12] / 16 % 2 == 1, ext);
  }

  /** One more character of a field, and the field is over with its first space. */
  lemma UnpaddedNext(name: seq<Byte>, field: seq<Byte>, i: nat, lowercase: bool)
    requires i < |field|
    ensures name + Unpadded(field[i..], lowercase) == if field[i] == ' ' as int then name
      else name + [Lower(field[i], lowercase)] + Unpadded(field[i + 1..], lowercase)
  {
    assert field[i..][1..] == field[i + 1..];
  }

  /** The first loop of parse_direntry. */
  method ParseBase(s: Slot, lowercase: bool) returns (name: seq<Byte>)
    ensures name == Unpadded([FirstByte(s)] + s[1..8], lowercase)
  {
    var c := s[0];
    if c == 0x05 {
      c := 0xe5;
    }
    ghost var field := [c] + s[1..8];
    ghost var goal := Unpadded(field, lowercase);
    name := [];
    var i := 0;
    assert field[0..] == field;
    while c != ' ' as int
      invariant 0 <= i < 8 == |field| && c == field[i] && name + Unpadded(field[i..], lowercase) == goal
      decreases 8 - i
    {
      UnpaddedNext(name, field, i, lowercase);
      name := name + [Lower(c, lowercase)];
      i := i + 1;
      if i >= 8 {
        assert Unpadded(field[8..], lowercase) == [];
        return;
      }
      c := s[i];
    }
    UnpaddedNext(name, field, i, lowercase);
  }

  /** How parse_direntry puts the name together. */
  method ParseName(s: Slot) returns (name: seq<Byte>)
    ensures name == DosName(s)
  {
    BaseIs(s, s[12] / 8 % 2 == 1);
    name := ParseBase(s, s[12] / 8 % 2 == 1);
    if s[8] != ' ' as int {
      name := ParseExtension(s, name);
    }
  }

  method ParseExtension(s: Slot, base: seq<Byte>) returns (name: seq<Byte>)
    ensures name == base + ['.' as int] + Unpadded(s[8..11], s[12] / 16 % 2 == 1)
  {
    var lowercase := s[12] / 16 % 2 == 1;
    name := base + ['.' as int];
    var i := 8;
    while i < 11 && s[i] != ' ' as int
      invariant 8 <= i <= 11
      invariant name + Unpadded(s[i..11], lowercase) == base + ['.' as int] + Unpadded(s[8..11], lowercase)
    {
      assert s[i..11][1..] == s[i + 1..11];
      name := name + [Lower(s[i], lowercase)];
      i := i + 1;
    }
  }

  /** The kinds of slots, by their attributes ... */
  lemma Kinds(s: Slot)
    ensures IsLong(s) <==> s[11] in {0x0f, 0x4f, 0x8f, 0xcf}
    ensures IsVolumeId(s) <==> 8 <= s[11] % 32 < 16
  {
  }

  /** ... and by their ordinals. */
  lemma Ordinals(s: Slot)
    ensures IsLast(s) <==> 64 <= s[0] < 128 || 192 <= s[0]
    ensures Order(s) == if 64 <= s[0] < 128 || 192 <= s[0] then s[0] - 64 else s[0]
  {
  }

  /** The name in the buffer: characters up to a terminator or the end, `?` for all that are not of seven bits; there is
      none if it has more than 255 of them. */
  lemma {:induction false} DecodeIs(longname: seq<Byte>, l: nat, n: nat, name: seq<Byte>) returns (m: nat)
    requires l <= n && 2 * n <= |longname| && |name| == l
    ensures l <= m <= n && (m < n ==> CharOf(longname, m) in {0, 0xffff})
    ensures forall k | l <= k < m :: CharOf(longname, k) !in {0, 0xffff}
    ensures m <= 255 || m == l ==> var r := Decode(longname, l, n, name);
      && r.Some? && |r.value| == m && r.value[..l] == name
      && forall k | l <= k < m :: r.value[k] == if CharOf(longname, k) < 128 then CharOf(longname, k) else 63
    ensures m > 255 && m > l ==> Decode(longname, l, n, name) == None
    decreases n - l
  {
    if l == n || CharOf(longname, l) == 0 || CharOf(longname, l) == 0xffff {
      m := l;
    } else {
      var more := name + [if CharOf(longname, l) < 128 then CharOf(longname, l) else '?' as int];
      m := DecodeIs(longname, l + 1, n, more);
      assert more[..l] == name;
      if m <= 255 {
        var r := Decode(longname, l + 1, n, more).value;
        assert r[..l] == r[..l + 1][..l];
        assert r[l] == r[..l + 1][l];
      }
    }
  }

  /** What fat_getnext returns, with the number of the slot after the entry and of the slots the entry takes; or that
      it writes outside the name buffer. */
  datatype Found = Nothing | Overrun | Entry(name: seq<Byte>, attr: Byte, next: int, slots: int)

  /** The entry that ends with short slot `s`. */
  function EntryAt(sc: Scan, s: Slot, e: int): Found
    requires |sc.longname| == LONGNAME_SIZE && sc.nbLongs <= MAX_ORDER
  {
    var long := if sc.nbLongs > 0 && sc.lastOrd == 1 then Decode(sc.longname, 0, NAME_CHARS * sc.nbLongs, []) else None;
    Entry(if long.Some? then long.value else DosName(s), s[11], e + 1, sc.count)
  }

  /** The next entry from slot `e` on. */
  function Next(sectors: seq<DirSector>, e: nat, sc: Scan): Found
    requires e <= SLOTS * |sectors| && |sc.longname| == LONGNAME_SIZE && 0 <= sc.nbLongs <= MAX_ORDER
    decreases SLOTS * |sectors| - e
  {
    if e == SLOTS * |sectors| then Nothing
    else
      var s := SlotAt(sectors, e);
      if s[0] == FREE_SLOT then Next(sectors, e + 1, sc.(count := 0))
      else if s[0] == 0 then Nothing
      else if IsLong(s) then
        if Overruns(sc, s) then Overrun else Next(sectors, e + 1, Seen(sc.(count := sc.count + 1), s))
      else if IsVolumeId(s) then Next(sectors, e + 1, sc.(count := sc.count + 1))
      else EntryAt(sc.(count := sc.count + 1), s, e)
  }

  /** A short slot that names a file or directory. */
  predicate IsShort(s: Slot) {
    s[0] != 0 && s[0] != 0xe5 && s[11] !in {0x0f, 0x4f, 0x8f, 0xcf} && !(8 <= s[11] % 32 < 16)
  }

  /** A short slot gives its own name unless the scan comes to it with a long name that is complete. */
  lemma ShortAlone(sectors: seq<DirSector>, e: nat, sc: Scan)
    requires e < 16 * |sectors| && |sc.longname| == LONGNAME_SIZE && 0 <= sc.nbLongs <= MAX_ORDER
    requires IsShort(SlotAt(sectors, e)) && (sc.nbLongs == 0 || sc.lastOrd != 1)
    ensures Next(sectors, e, sc) == Entry(DosName(SlotAt(sectors, e)), SlotAt(sectors, e)[11], e + 1, sc.count + 1)
  {
    Kinds(SlotAt(sectors, e));
  }

  /** A free slot is passed over, and the entry behind it is counted from there; one that was never used is the end. */
  lemma BehindFree(sectors: seq<DirSector>, e: nat, sc: Scan)
    requires e + 1 < 16 * |sectors| && |sc.longname| == LONGNAME_SIZE && 0 <= sc.nbLongs <= MAX_ORDER
    requires SlotAt(sectors, e)[0] == 0xe5 && IsShort(SlotAt(sectors, e + 1)) && (sc.nbLongs == 0 || sc.lastOrd != 1)
    ensures var t := SlotAt(sectors, e + 1); Next(sectors, e, sc) == Entry(DosName(t), t[11], e + 2, 1)
  {
    ShortAlone(sectors, e + 1, sc.(count := 0));
  }

  /** A volume label is passed over, and counted with the entry behind it. */
  lemma BehindLabel(sectors: seq<DirSector>, e: nat, sc: Scan)
    requires e + 1 < 16 * |sectors| && |sc.longname| == LONGNAME_SIZE && 0 <= sc.nbLongs <= MAX_ORDER
    requires var s := SlotAt(sectors, e); s[0] != 0 && s[0] != 0xe5 && s[11] % 32 == 8
    requires IsShort(SlotAt(sectors, e + 1)) && (sc.nbLongs == 0 || sc.lastOrd != 1)
    ensures var t := SlotAt(sectors, e + 1); Next(sectors, e, sc) == Entry(DosName(t), t[11], e + 2, sc.count + 2)
  {
    Kinds(SlotAt(sectors, e));
    ShortAlone(sectors, e + 1, sc.(count := sc.count + 1));
  }

  /** A long slot without a beginning, one whose ordinal does not follow, and a beginning with an ordinal out of range do
      not make a name: the entry behind them has its short name. */
  lemma Disowned(sectors: seq<DirSector>, e: nat, sc: Scan)
    requires e + 1 < 16 * |sectors| && |sc.longname| == LONGNAME_SIZE && 0 <= sc.nbLongs <= MAX_ORDER
    requires var s, ord := SlotAt(sectors, e), SlotAt(sectors, e)[0] % 64;
      && s[11] == 0x0f && s[0] != 0 && s[0] != 0xe5
      && (|| (s[0] / 64 % 2 == 0 && sc.nbLongs == 0)
          || (s[0] < 64 && 1 <= ord <= 20 && sc.nbLongs > 0 && ord != sc.lastOrd - 1)
          || (64 <= s[0] < 128 && !(1 <= ord <= 20) && sc.nbLongs == 0))
    requires IsShort(SlotAt(sectors, e + 1))
    ensures var t := SlotAt(sectors, e + 1); Next(sectors, e, sc) == Entry(DosName(t), t[11], e + 2, sc.count + 2)
  {
    var s := SlotAt(sectors, e);
    Kinds(s);
    Ordinals(s);
    NextLong(sectors, e, sc);
    ShortAlone(sectors, e + 1, Seen(sc.(count := sc.count + 1), s));
  }

  /** The bytes of a long slot that hold characters, one after the other. */
  lemma CharBytesAre(name: seq<Byte>, at: nat, order: nat, first: bool, chksum: Byte, t: int)
    requires 1 <= order <= MAX_ORDER && 0 <= t < LONG_BYTES
    ensures CharBytes(LongSlot(name, at, order, first, chksum))[t] == CharByte(name, at + t / 2, t % 2 == 1, first)
  {
    var s := LongSlot(name, at, order, first, chksum);
    var p := if t < 10 then 1 + t else if t < 22 then 14 + (t - 10) else 28 + (t - 22);
    assert CharBytes(s)[t] == s[p];
    assert IsCharByte(p) && CharIndex(p) == t / 2 && IsHigh(p) == (t % 2 == 1);
  }

  /** From character `l0` on the buffer holds the name, its end, and padding. */
  ghost predicate Holds(longname: seq<Byte>, name: seq<Byte>, l0: int, n: int) {
    && 0 <= l0 <= n && 2 * n <= |longname| == LONGNAME_SIZE
    && forall k {:trigger Unfold(k)} | Unfold(k) ::
         forall l | l0 <= l < n ::
           CharOf(longname, l) == if l < |name| then name[l] else if l == |name| then 0 else PAD_CHAR
  }

  /** A long slot adds its part in front. */
  lemma PartAdded(longname: seq<Byte>, name: seq<Byte>, order: nat, longs: nat, chksum: Byte)
    requires IsName(name) && longs == SlotsFor(name) - 1 && 1 <= order <= longs
    requires Holds(longname, name, NAME_CHARS * order, NAME_CHARS * longs)
    ensures longs <= MAX_ORDER
    ensures Holds(PutPart(longname, order, LongSlot(name, NAME_CHARS * (order - 1), order, order == longs, chksum)), name,
                  NAME_CHARS * (order - 1), NAME_CHARS * longs)
  {
    var s := LongSlot(name, NAME_CHARS * (order - 1), order, order == longs, chksum);
    var r := PutPart(longname, order, s);
    assert Unfold(0);
    forall l | NAME_CHARS * (order - 1) <= l < NAME_CHARS * longs
      ensures CharOf(r, l) == if l < |name| then name[l] else if l == |name| then 0 else PAD_CHAR
    {
      PutPartAt(longname, order, s, l);
      if l < NAME_CHARS * order {
        PartCharIs(name, order, order == longs, chksum, l);
      }
    }
  }

  /** The characters of the buffer after a part has been put into it. */
  lemma PutPartAt(longname: seq<Byte>, order: nat, s: Slot, l: nat)
    requires |longname| == LONGNAME_SIZE && 1 <= order <= MAX_ORDER && 2 * l + 1 < LONGNAME_SIZE
    ensures var t := 2 * (l - NAME_CHARS * (order - 1));
      CharOf(PutPart(longname, order, s), l) ==
        if 0 <= t < LONG_BYTES then CharOf(CharBytes(s), l - NAME_CHARS * (order - 1)) else CharOf(longname, l)
  {
  }

  /** Character `l` of the name is in its part. */
  lemma PartCharIs(name: seq<Byte>, order: nat, first: bool, chksum: Byte, l: nat)
    requires 1 <= order <= MAX_ORDER && NAME_CHARS * (order - 1) <= l < NAME_CHARS * order
    requires !first ==> l < |name|
    ensures CharOf(CharBytes(LongSlot(name, NAME_CHARS * (order - 1), order, first, chksum)), l - NAME_CHARS * (order - 1)) ==
      if l < |name| then name[l] else if l == |name| then 0 else PAD_CHAR
  {
    var t := 2 * (l - NAME_CHARS * (order - 1));
    CharBytesAre(name, NAME_CHARS * (order - 1), order, first, chksum, t);
    CharBytesAre(name, NAME_CHARS * (order - 1), order, first, chksum, t + 1);
  }

  /** A complete buffer decodes to the name. */
  lemma {:induction false} DecodesToName(longname: seq<Byte>, name: seq<Byte>, l: nat, longs: nat)
    requires IsName(name) && longs == SlotsFor(name) - 1 && l <= |name|
    requires Holds(longname, name, 0, NAME_CHARS * longs)
    ensures Decode(longname, l, NAME_CHARS * longs, name[..l]) == Some(name)
    decreases |name| - l
  {
    assert Unfold(0);
    assert |name| <= NAME_CHARS * longs;
    if l < |name| {
      assert CharOf(longname, l) == name[l];
      assert name[..l] + [name[l]] == name[..l + 1];
      DecodesToName(longname, name, l + 1, longs);
    } else {
      assert name[..l] == name;
      if l < NAME_CHARS * longs {
        assert CharOf(longname, l) == 0;
      }
    }
  }

  /** The directory holds the slots of a name. */
  ghost predicate HasName(sectors: seq<DirSector>, st: Stored) {
    && IsName(st.name) && st.Ok() && st.shortname[0] != 0 && st.shortname[0] != FREE_SLOT
    && st.start + SlotsFor(st.name) <= SLOTS * |sectors|
    && forall k {:trigger Unfold(k)} | Unfold(k) :: forall i | 0 <= i < SlotsFor(st.name) ::
         SlotAt(sectors, st.start + i) == NameSlot(st.name, st.shortname, st.isDirectory, st.stamp, i)
  }

  lemma SlotOfName(sectors: seq<DirSector>, st: Stored, i: nat)
    requires HasName(sectors, st) && i < SlotsFor(st.name)
    ensures SlotAt(sectors, st.start + i) == NameSlot(st.name, st.shortname, st.isDirectory, st.stamp, i)
  {
    assert Unfold(0);
  }

  /** What a stored name is read as, if `count` slots right in front of it are counted with it. */
  function ReadEntry(st: Stored, count: int): Found {
    Entry(st.name, if st.isDirectory then ATTR_DIRECTORY else 0, st.start + SlotsFor(st.name), count + SlotsFor(st.name))
  }

  /** After `i` long slots of a name the scan knows its last `i` parts, and in the end the name. */
  lemma {:induction false} ScanName(sectors: seq<DirSector>, st: Stored, i: nat, sc: Scan)
    requires HasName(sectors, st) && i < SlotsFor(st.name)
    requires i > 0 ==> sc.nbLongs == SlotsFor(st.name) - 1 && sc.lastOrd == SlotsFor(st.name) - i
    requires 0 <= sc.nbLongs <= MAX_ORDER
    requires Holds(sc.longname, st.name, NAME_CHARS * (SlotsFor(st.name) - 1 - i), NAME_CHARS * (SlotsFor(st.name) - 1))
    ensures Leads(sectors, st.start + i, sc, ReadEntry(st, sc.count - i))
    decreases SlotsFor(st.name) - i
  {
    var longs := SlotsFor(st.name) - 1;
    if i < longs {
      ScanLong(sectors, st, i, sc);
      var s := SlotAt(sectors, st.start + i);
      OneSlotBack(sectors, st.start + i, sc, s, ReadEntry(st, sc.count - i));
      ScanName(sectors, st, i + 1, Seen(sc.(count := sc.count + 1), s));
    } else {
      DecodesToName(sc.longname, st.name, 0, longs);
      assert st.name[..0] == [];
      ScanShort(sectors, st, sc);
    }
  }

  lemma NextLong(sectors: seq<DirSector>, e: nat, sc: Scan)
    requires e < SLOTS * |sectors| && |sc.longname| == LONGNAME_SIZE && 0 <= sc.nbLongs <= MAX_ORDER
    requires var s := SlotAt(sectors, e); IsLong(s) && !IsFree(s) && !Overruns(sc, s)
    ensures var sc' := Seen(sc.(count := sc.count + 1), SlotAt(sectors, e));
      0 <= sc'.nbLongs <= MAX_ORDER && Next(sectors, e, sc) == Next(sectors, e + 1, sc')
  {
  }

  lemma NextShort(sectors: seq<DirSector>, e: nat, sc: Scan)
    requires e < SLOTS * |sectors| && |sc.longname| == LONGNAME_SIZE && 0 <= sc.nbLongs <= MAX_ORDER
    requires var s := SlotAt(sectors, e); !IsLong(s) && !IsFree(s) && !IsVolumeId(s)
    ensures Next(sectors, e, sc) == EntryAt(sc.(count := sc.count + 1), SlotAt(sectors, e), e)
  {
  }

  /** The short slot of a name. */
  lemma ScanShort(sectors: seq<DirSector>, st: Stored, sc: Scan)
    requires HasName(sectors, st) && sc.nbLongs == SlotsFor(st.name) - 1 <= MAX_ORDER && sc.lastOrd == 1
    requires |sc.longname| == LONGNAME_SIZE
    requires Decode(sc.longname, 0, NAME_CHARS * (SlotsFor(st.name) - 1), []) == Some(st.name)
    ensures Next(sectors, st.start + SlotsFor(st.name) - 1, sc) == ReadEntry(st, sc.count - (SlotsFor(st.name) - 1))
  {
    SlotOfName(sectors, st, SlotsFor(st.name) - 1);
    ShortSlotIsShort(st);
    NextShort(sectors, st.start + SlotsFor(st.name) - 1, sc);
  }

  /** One long slot of a name. */
  lemma ScanLong(sectors: seq<DirSector>, st: Stored, i: nat, sc: Scan)
    requires HasName(sectors, st) && i < SlotsFor(st.name) - 1
    requires i > 0 ==> sc.nbLongs == SlotsFor(st.name) - 1 && sc.lastOrd == SlotsFor(st.name) - i
    requires 0 <= sc.nbLongs <= MAX_ORDER
    requires Holds(sc.longname, st.name, NAME_CHARS * (SlotsFor(st.name) - 1 - i), NAME_CHARS * (SlotsFor(st.name) - 1))
    ensures var longs, s := SlotsFor(st.name) - 1, SlotAt(sectors, st.start + i);
      && IsLong(s) && !IsFree(s) && 1 <= Order(s) <= MAX_ORDER
      && var sc' := Seen(sc.(count := sc.count + 1), s);
         && sc'.nbLongs == longs <= MAX_ORDER && sc'.lastOrd == longs - i && sc'.count == sc.count + 1
         && Holds(sc'.longname, st.name, NAME_CHARS * (longs - 1 - i), NAME_CHARS * longs)
  {
    var longs := SlotsFor(st.name) - 1;
    var order, chksum := longs - i, Checksum(st.shortname);
    var s := SlotAt(sectors, st.start + i);
    SlotOfName(sectors, st, i);
    assert s == LongSlot(st.name, NAME_CHARS * (order - 1), order, order == longs, chksum);
    LongSlotIsLong(st.name, NAME_CHARS * (order - 1), order, order == longs, chksum);
    PartAdded(sc.longname, st.name, order, longs, chksum);
  }

  lemma LongSlotIsLong(name: seq<Byte>, at: nat, order: nat, first: bool, chksum: Byte)
    requires 1 <= order <= MAX_ORDER
    ensures var s := LongSlot(name, at, order, first, chksum);
      IsLong(s) && !IsFree(s) && Order(s) == order && IsLast(s) == first
  {
  }

  lemma ShortSlotIsShort(st: Stored)
    requires st.Ok() && st.shortname[0] != 0 && st.shortname[0] != FREE_SLOT
    ensures var s := ShortSlot(st.shortname, st.isDirectory, st.stamp);
      !IsLong(s) && !IsFree(s) && !IsVolumeId(s) && s[11] == if st.isDirectory then ATTR_DIRECTORY else 0
  {
  }

  /** Whatever the name buffer held before, a stored name is read back. */
  lemma NameIsReadBack(sectors: seq<DirSector>, st: Stored, longname: seq<Byte>)
    requires HasName(sectors, st) && |longname| == LONGNAME_SIZE
    ensures Next(sectors, st.start, Scan(0, 0, longname, 0)) == ReadEntry(st, 0)
  {
    NameIsFound(sectors, st, Scan(0, 0, longname, 0));
  }

  /** The same however the scan comes to it. */
  lemma NameIsFound(sectors: seq<DirSector>, st: Stored, sc: Scan)
    requires HasName(sectors, st) && |sc.longname| == LONGNAME_SIZE && 0 <= sc.nbLongs <= MAX_ORDER
    ensures Next(sectors, st.start, sc) == ReadEntry(st, sc.count)
  {
    var n := NAME_CHARS * (SlotsFor(st.name) - 1);
    assert SlotsFor(st.name) - 1 <= MAX_ORDER;
    assert Holds(sc.longname, st.name, n, n);
    ScanName(sectors, st, 0, sc);
    assert Unfold(0);
  }

  /** The next entry from slot `e` on is `goal`. */
  ghost predicate Leads(sectors: seq<DirSector>, e: int, sc: Scan, goal: Found) {
    && 0 <= e <= SLOTS * |sectors| && |sc.longname| == LONGNAME_SIZE && 0 <= sc.nbLongs <= MAX_ORDER
    && forall k {:trigger Unfold(k)} | Unfold(k) :: Next(sectors, e, sc) == goal
  }

  /** What a slot has to do with the next entry. */
  lemma OneSlot(sectors: seq<DirSector>, e: int, sc: Scan, s: Slot, goal: Found)
    requires Leads(sectors, e, sc, goal) && e < SLOTS * |sectors| && s == SlotAt(sectors, e)
    ensures s[0] == FREE_SLOT ==> Leads(sectors, e + 1, sc.(count := 0), goal)
    ensures s[0] == 0 ==> goal == Nothing
    ensures !IsFree(s) && IsLong(s) && Overruns(sc, s) ==> goal == Overrun
    ensures !IsFree(s) && IsLong(s) && !Overruns(sc, s) ==> Leads(sectors, e + 1, Seen(sc.(count := sc.count + 1), s), goal)
    ensures !IsFree(s) && !IsLong(s) && IsVolumeId(s) ==> Leads(sectors, e + 1, sc.(count := sc.count + 1), goal)
    ensures !IsFree(s) && !IsLong(s) && !IsVolumeId(s) ==> goal == EntryAt(sc.(count := sc.count + 1), s, e)
  {
    assert Unfold(0);
  }

  /** The same the other way round. */
  lemma OneSlotBack(sectors: seq<DirSector>, e: int, sc: Scan, s: Slot, goal: Found)
    requires 0 <= e < SLOTS * |sectors| && s == SlotAt(sectors, e)
    requires |sc.longname| == LONGNAME_SIZE && 0 <= sc.nbLongs <= MAX_ORDER
    ensures s[0] == FREE_SLOT && Leads(sectors, e + 1, sc.(count := 0), goal) ==> Leads(sectors, e, sc, goal)
    ensures s[0] == 0 && goal == Nothing ==> Leads(sectors, e, sc, goal)
    ensures !IsFree(s) && IsLong(s) && Overruns(sc, s) && goal == Overrun ==> Leads(sectors, e, sc, goal)
    ensures !IsFree(s) && IsLong(s) && !Overruns(sc, s) && Leads(sectors, e + 1, Seen(sc.(count := sc.count + 1), s), goal) ==>
      Leads(sectors, e, sc, goal)
    ensures !IsFree(s) && !IsLong(s) && IsVolumeId(s) && Leads(sectors, e + 1, sc.(count := sc.count + 1), goal) ==>
      Leads(sectors, e, sc, goal)
    ensures !IsFree(s) && !IsLong(s) && !IsVolumeId(s) && goal == EntryAt(sc.(count := sc.count + 1), s, e) ==>
      Leads(sectors, e, sc, goal)
  {
    assert Unfold(0);
  }

  lemma AtTheEnd(sectors: seq<DirSector>, sc: Scan, goal: Found)
    requires Leads(sectors, SLOTS * |sectors|, sc, goal)
    ensures goal == Nothing
  {
    assert Unfold(0);
  }

  /** The slot begins a long name. */
  predicate Opens(s: Slot) {
    !IsFree(s) && IsLong(s) && IsLast(s) && InOrder(Order(s))
  }

  /** The slot continues a long name. */
  predicate Continues(s: Slot) {
    !IsFree(s) && IsLong(s) && !IsLast(s)
  }

  /** A scan that begins at slot `e` gets to slot `f`: neither the end of the directory nor an entry comes before. */
  ghost predicate Passable(sectors: seq<DirSector>, e: int, f: int) {
    && 0 <= e <= f <= SLOTS * |sectors|
    && forall k | e <= k < f :: SlotAt(sectors, k)[0] != 0 &&
         (IsFree(SlotAt(sectors, k)) || IsLong(SlotAt(sectors, k)) || IsVolumeId(SlotAt(sectors, k)))
  }

  /** The ordinal of the last slot before `f` that belongs to the name begun by slot `g`. */
  ghost function LastOrdinal(sectors: seq<DirSector>, g: int, f: int): int
    requires 0 <= g < f <= SLOTS * |sectors|
    decreases f - g
  {
    if g + 1 == f || Continues(SlotAt(sectors, f - 1)) then Order(SlotAt(sectors, f - 1))
    else LastOrdinal(sectors, g, f - 1)
  }

  /** Between slot `g`, which begins a name, and slot `f` no other name is begun, and every slot that continues the name
      has the ordinal below that of the one before. */
  ghost predicate Unbroken(sectors: seq<DirSector>, g: int, f: int)
    requires 0 <= g < f <= SLOTS * |sectors|
    decreases f - g
  {
    g + 1 == f ||
    (Unbroken(sectors, g, f - 1) && !Opens(SlotAt(sectors, f - 1)) &&
     (Continues(SlotAt(sectors, f - 1)) ==> Order(SlotAt(sectors, f - 1)) == LastOrdinal(sectors, g, f - 1) - 1))
  }

  /** A name begun by slot `g` is open at slot `f`. */
  ghost predicate NameOpen(sectors: seq<DirSector>, e: int, g: int, f: int) {
    0 <= e <= g < f <= SLOTS * |sectors| && Opens(SlotAt(sectors, g)) && Unbroken(sectors, g, f)
  }

  /** A scan from slot `e` meets slot `f` while a name begun by slot `g` is open, and slot `f` continues it with an
      ordinal out of range. */
  ghost predicate Overrunning(sectors: seq<DirSector>, e: int, g: int, f: int) {
    && NameOpen(sectors, e, g, f) && f < SLOTS * |sectors| && Passable(sectors, e, f)
    && Continues(SlotAt(sectors, f)) && !InOrder(Order(SlotAt(sectors, f)))
  }

  /** The scan knows whether a name is open, and its last ordinal. */
  ghost predicate Knows(sectors: seq<DirSector>, e0: int, e: int, sc: Scan) {
    && 0 <= e0 <= e <= SLOTS * |sectors| && |sc.longname| == LONGNAME_SIZE && 0 <= sc.nbLongs <= MAX_ORDER
    && forall k {:trigger Unfold(k)} | Unfold(k) ::
         && Passable(sectors, e0, e)
         && (sc.nbLongs != 0 ==> exists g :: NameOpen(sectors, e0, g, e))
         && (forall g | NameOpen(sectors, e0, g, e) :: sc.nbLongs != 0 && sc.lastOrd == LastOrdinal(sectors, g, e))
  }

  /** Names that are open behind slot `e`. */
  lemma OpenNext(sectors: seq<DirSector>, e0: int, g: int, e: int)
    requires 0 <= e0 <= e < SLOTS * |sectors|
    ensures var s := SlotAt(sectors, e);
      NameOpen(sectors, e0, g, e + 1) <==>
        || (g == e && Opens(s))
        || (NameOpen(sectors, e0, g, e) && !Opens(s) && (Continues(s) ==> Order(s) == LastOrdinal(sectors, g, e) - 1))
    ensures NameOpen(sectors, e0, g, e + 1) ==>
      LastOrdinal(sectors, g, e + 1) ==
        if g == e || Continues(SlotAt(sectors, e)) then Order(SlotAt(sectors, e)) else LastOrdinal(sectors, g, e)
  {
  }

  /** Passing a long slot. */
  lemma KnowsNextLong(sectors: seq<DirSector>, e0: int, e: int, sc: Scan)
    requires Knows(sectors, e0, e, sc) && e < SLOTS * |sectors|
    requires var s := SlotAt(sectors, e); !IsFree(s) && IsLong(s) && !Overruns(sc, s)
    ensures Knows(sectors, e0, e + 1, Seen(sc, SlotAt(sectors, e)))
  {
    assert Unfold(0);
    var s := SlotAt(sectors, e);
    var sc' := Seen(sc, s);
    var e' := e + 1;
    forall g | NameOpen(sectors, e0, g, e')
      ensures sc'.nbLongs != 0 && sc'.lastOrd == LastOrdinal(sectors, g, e + 1)
    {
      OpenNext(sectors, e0, g, e);
    }
    if Opens(s) {
      OpenNext(sectors, e0, e, e);
      assert NameOpen(sectors, e0, e, e + 1);
    } else if sc'.nbLongs != 0 {
      var g :| NameOpen(sectors, e0, g, e);
      OpenNext(sectors, e0, g, e);
      assert NameOpen(sectors, e0, g, e + 1);
    }
  }

  /** Passing another slot that is not an entry. */
  lemma KnowsNextOther(sectors: seq<DirSector>, e0: int, e: int, sc: Scan, count: int)
    requires Knows(sectors, e0, e, sc) && e < SLOTS * |sectors|
    requires var s := SlotAt(sectors, e); s[0] != 0 && (IsFree(s) || (!IsLong(s) && IsVolumeId(s)))
    ensures Knows(sectors, e0, e + 1, sc.(count := count))
  {
    assert Unfold(0);
    var e' := e + 1;
    forall g | NameOpen(sectors, e0, g, e')
      ensures sc.nbLongs != 0 && sc.lastOrd == LastOrdinal(sectors, g, e + 1)
    {
      OpenNext(sectors, e0, g, e);
    }
    if sc.nbLongs != 0 {
      var g :| NameOpen(sectors, e0, g, e);
      OpenNext(sectors, e0, g, e);
      assert NameOpen(sectors, e0, g, e + 1);
    }
  }

  /** From slot `e` on, a scan that began at slot `e0` meets such a slot. */
  ghost predicate OverrunAhead(sectors: seq<DirSector>, e0: int, e: int) {
    exists g, f | e <= f :: Overrunning(sectors, e0, g, f)
  }

  /** If slot `e` is not such a slot, it can be passed. */
  lemma NotHere(sectors: seq<DirSector>, e0: int, e: int)
    requires forall g :: !Overrunning(sectors, e0, g, e)
    ensures OverrunAhead(sectors, e0, e) <==> OverrunAhead(sectors, e0, e + 1)
  {
    if OverrunAhead(sectors, e0, e) {
      var g, f :| e <= f && Overrunning(sectors, e0, g, f);
      assert f != e;
    }
  }

  /** No such slot comes behind the end of the directory or the end of the entry. */
  lemma NoneBehind(sectors: seq<DirSector>, e0: int, e: nat)
    requires e0 <= e <= SLOTS * |sectors|
    requires e < SLOTS * |sectors| ==> var s := SlotAt(sectors, e);
      s[0] == 0 || (!IsFree(s) && !IsLong(s) && !IsVolumeId(s))
    ensures !OverrunAhead(sectors, e0, e)
  {
    if OverrunAhead(sectors, e0, e) {
      var g, f :| e <= f && Overrunning(sectors, e0, g, f);
    }
  }

  /** The scan tells whether slot `e` is such a slot. */
  lemma Here(sectors: seq<DirSector>, e0: int, e: int, sc: Scan)
    requires Knows(sectors, e0, e, sc) && e < SLOTS * |sectors|
    ensures var s := SlotAt(sectors, e);
      (!IsFree(s) && IsLong(s) && Overruns(sc, s)) <==> exists g :: Overrunning(sectors, e0, g, e)
  {
    assert Unfold(0);
    var s := SlotAt(sectors, e);
    if !IsFree(s) && IsLong(s) && Overruns(sc, s) {
      var g :| NameOpen(sectors, e0, g, e);
      assert Overrunning(sectors, e0, g, e);
    }
  }

  /** From slot `e` on a scan that began at slot `e0` leaves the name buffer just if it meets such a slot. */
  lemma {:induction false} OverrunsFrom(sectors: seq<DirSector>, e0: int, e: nat, sc: Scan, goal: Found)
    requires Knows(sectors, e0, e, sc) && Leads(sectors, e, sc, goal)
    ensures goal == Overrun <==> OverrunAhead(sectors, e0, e)
    decreases SLOTS * |sectors| - e
  {
    if e == SLOTS * |sectors| {
      AtTheEnd(sectors, sc, goal);
      NoneBehind(sectors, e0, e);
      return;
    }
    var s, sc' := SlotAt(sectors, e), sc.(count := sc.count + 1);
    OneSlot(sectors, e, sc, s, goal);
    Here(sectors, e0, e, sc);
    if s[0] == FREE_SLOT {
      KnowsNextOther(sectors, e0, e, sc, 0);
      NotHere(sectors, e0, e);
      OverrunsFrom(sectors, e0, e + 1, sc.(count := 0), goal);
    } else if s[0] == 0 {
      NoneBehind(sectors, e0, e);
    } else if IsLong(s) {
      if Overruns(sc, s) {
        assert OverrunAhead(sectors, e0, e);
      } else {
        KnowsNextLong(sectors, e0, e, sc');
        NotHere(sectors, e0, e);
        OverrunsFrom(sectors, e0, e + 1, Seen(sc', s), goal);
      }
    } else if IsVolumeId(s) {
      KnowsNextOther(sectors, e0, e, sc, sc.count + 1);
      NotHere(sectors, e0, e);
      OverrunsFrom(sectors, e0, e + 1, sc', goal);
    } else {
      NoneBehind(sectors, e0, e);
    }
  }

  /** fat_getnext writes outside the name buffer if and only if, from where it stands, it meets a slot that continues an
      unbroken long name with an ordinal out of range. */
  lemma OverrunsExactly(sectors: seq<DirSector>, e: nat, longname: seq<Byte>)
    requires e <= SLOTS * |sectors| && |longname| == LONGNAME_SIZE
    ensures Next(sectors, e, Scan(0, 0, longname, 0)) == Overrun <==> exists g, f :: Overrunning(sectors, e, g, f)
  {
    var sc := Scan(0, 0, longname, 0);
    OverrunsFrom(sectors, e, e, sc, Next(sectors, e, sc));
    if OverrunAhead(sectors, e, e) {
      var g, f :| e <= f && Overrunning(sectors, e, g, f);
    }
    if g, f :| Overrunning(sectors, e, g, f) {
      assert e <= f;
    }
  }

  /** A long slot with this ordinal byte and nothing else. */
  function BareLongSlot(ordinal: Byte): Slot {
    EmptySlot()[0 := ordinal][11 := ATTR_LONG_NAME]
  }

  /** It does happen: a name of one slot, followed by a slot with ordinal 21. */
  lemma OverrunHappens(longname: seq<Byte>)
    requires |longname| == LONGNAME_SIZE
    ensures var sector := EmptySlots()[0 := BareLongSlot(LAST_LONG + 1)][1 := BareLongSlot(MAX_ORDER + 1)];
      Next([sector], 0, Scan(0, 0, longname, 0)) == Overrun
  {
    var sector := EmptySlots()[0 := BareLongSlot(LAST_LONG + 1)][1 := BareLongSlot(MAX_ORDER + 1)];
    var sectors: seq<DirSector> := [sector];
    assert SlotAt(sectors, 0) == BareLongSlot(LAST_LONG + 1) && SlotAt(sectors, 1) == BareLongSlot(MAX_ORDER + 1);
    assert Overrunning(sectors, 0, 0, 1);
    OverrunsExactly(sectors, 0, longname);
  }

  /** In particular not in a directory whose continuing slots have proper ordinals. */
  lemma NeverOverruns(sectors: seq<DirSector>, e: nat, longname: seq<Byte>)
    requires e <= SLOTS * |sectors| && |longname| == LONGNAME_SIZE && OrdersOk(sectors)
    ensures Next(sectors, e, Scan(0, 0, longname, 0)) != Overrun
  {
    OverrunsExactly(sectors, e, longname);
  }

  lemma FirstOfSector(e: int, n: int)
    requires 0 <= e
    ensures e % SLOTS == 0 ==> (e + SLOTS - 1) / SLOTS == e / SLOTS && (e / SLOTS < n <==> e < SLOTS * n)
    ensures e % SLOTS != 0 ==> (e + SLOTS - 1) / SLOTS == e / SLOTS + 1 && (e <= SLOTS * n ==> e < SLOTS * n)
  {
  }

  class Reader {
    const dir: DirFile
    var entry: nat                 // number of the next slot
    var loaded: bool               // has a sector been read?
    var cache: DirSector           // sectorcache
    var longname: seq<Byte>

    ghost predicate Valid()
      reads this, dir, dir.file, dir.vol
    {
      dir.Valid() && |longname| == LONGNAME_SIZE && entry <= SLOTS * |dir.sectors| && InPlace()
    }

    /** The cached sector is the one the next slot is in, and the file is positioned behind it. */
    ghost predicate InPlace()
      reads this`entry, this`loaded, this`cache, dir
    {
      forall k {:trigger Unfold(k)} | Unfold(k) ::
        && entry <= SLOTS * |dir.sectors| && (!loaded ==> entry == 0)
        && dir.pos == (entry + SLOTS - 1) / SLOTS
        && (entry % SLOTS != 0 ==> cache == dir.sectors[entry / SLOTS])
    }

    /** fat_opendir */
    constructor (dir: DirFile, longname: seq<Byte>)
      requires dir.Valid() && dir.pos == 0 && |longname| == LONGNAME_SIZE
      ensures Valid() && this.dir == dir && entry == 0
    {
      this.dir, entry, loaded, cache, this.longname := dir, 0, false, EmptySector(), longname;
    }

    /** Read the next sector if its slots come next; false at the end of the directory. */
    method Fetch() returns (more: bool)
      requires Valid()
      modifies this`loaded, this`cache, dir`pos, dir`eof,
        dir.file, dir.vol`disk, dir.vol`slots, dir.vol`freecount, dir.vol`nextfree, dir.vol`fat
      ensures dir.Valid() && dir.sectors == old(dir.sectors)
      ensures more <==> entry < SLOTS * |dir.sectors|
      ensures more ==> loaded && cache == dir.sectors[entry / SLOTS] && dir.pos == entry / SLOTS + 1
      ensures !more ==> Valid()
    {
      assert Unfold(0);
      more := true;
      FirstOfSector(entry, |dir.sectors|);
      if entry % SLOTS == 0 || !loaded {
        var rc;
        rc, cache := dir.Read();
        if rc == 0 {
          return false;
        }
        loaded := true;
      }
    }

    /** Get the next slot and pass it. */
    method NextSlot() returns (more: bool, s: Slot)
      requires Valid()
      modifies this`entry, this`loaded, this`cache, dir`pos, dir`eof,
        dir.file, dir.vol`disk, dir.vol`slots, dir.vol`freecount, dir.vol`nextfree, dir.vol`fat
      ensures Valid() && dir.sectors == old(dir.sectors)
      ensures more <==> old(entry) < SLOTS * |dir.sectors|
      ensures entry == old(entry) + if more then 1 else 0
      ensures more ==> s == SlotAt(dir.sectors, old(entry))
    {
      assert Unfold(0);
      s := EmptySlot();
      more := Fetch();
      if more {
        s := cache[entry % SLOTS];
        entry := entry + 1;
      }
    }

    /** A long slot has been met. */
    method MeetLong(s: Slot, nbLongs0: int, lastOrd0: int, ghost count: int) returns (nbLongs: int, lastOrd: int)
      requires |longname| == LONGNAME_SIZE && !Overruns(Scan(nbLongs0, lastOrd0, longname, 0), s)
      modifies this`longname
      ensures |longname| == LONGNAME_SIZE
      ensures Scan(nbLongs, lastOrd, longname, count) == Seen(Scan(nbLongs0, lastOrd0, old(longname), count), s)
    {
      nbLongs, lastOrd := nbLongs0, lastOrd0;
      var order := Order(s);
      if IsLast(s) {
        if order <= 0 || order > MAX_ORDER {
          return;
        }
        nbLongs, lastOrd := order, order;
      } else {
        if nbLongs == 0 {
          return;
        }
        if order != lastOrd - 1 {
          nbLongs := 0;
        }
        lastOrd := order;
      }
      longname := PutPart(longname, order, s);
    }

    /** The loop that turns the name buffer into a name. */
    method DecodeName(nbLongs: nat) returns (name: Option<seq<Byte>>)
      requires |longname| == LONGNAME_SIZE && nbLongs <= MAX_ORDER
      ensures name == Decode(longname, 0, NAME_CHARS * nbLongs, [])
    {
      var text: seq<Byte> := [];
      var l := 0;
      while l < NAME_CHARS * nbLongs
        invariant 0 <= l <= NAME_CHARS * nbLongs
        invariant Decode(longname, 0, NAME_CHARS * nbLongs, []) == Decode(longname, l, NAME_CHARS * nbLongs, text)
      {
        var ucs := CharOf(longname, l);
        if ucs == 0 || ucs == PAD_CHAR {
          break;
        }
        if |text| + 1 >= FILENAME_BYTES {
          return None;
        }
        text := text + [if ucs < 128 then ucs else '?' as int];
        l := l + 1;
      }
      return Some(text);
    }

    /** The entry that ends with the short slot just passed, under its long name if that is complete. */
    method MakeEntry(s: Slot, nbLongs: nat, lastOrd: int, count: int) returns (found: Found)
      requires |longname| == LONGNAME_SIZE && nbLongs <= MAX_ORDER && entry > 0
      ensures found == EntryAt(Scan(nbLongs, lastOrd, longname, count), s, entry - 1)
    {
      var name := ParseName(s);
      if nbLongs != 0 && lastOrd == 1 {
        var long := DecodeName(nbLongs);
        if long.Some? {
          name := long.value;
        }
      }
      found := Entry(name, s[11], entry, count);
    }

    /** What a slot that has just been passed means for the search. */
    method Judge(s: Slot, nbLongs0: int, lastOrd0: int, count0: int, ghost sectors: seq<DirSector>, ghost goal: Found)
      returns (done: bool, found: Found, nbLongs: int, lastOrd: int, count: int)
      requires 0 < entry <= SLOTS * |sectors| && s == SlotAt(sectors, entry - 1)
      requires Leads(sectors, entry - 1, Scan(nbLongs0, lastOrd0, longname, count0), goal)
      modifies this`longname
      ensures |longname| == LONGNAME_SIZE
      ensures !done ==> Leads(sectors, entry, Scan(nbLongs, lastOrd, longname, count), goal)
      ensures done ==> found == goal
      ensures done && found.Entry? ==> entry == found.next
      ensures done && found == Nothing ==> s[0] == 0
    {
      done, found, nbLongs, lastOrd, count := true, Nothing, nbLongs0, lastOrd0, count0;
      OneSlot(sectors, entry - 1, Scan(nbLongs, lastOrd, longname, count), s, goal);
      if s[0] == 0 {
        return;
      }
      if s[0] == FREE_SLOT {
        done, count := false, 0;
        return;
      }
      count := count + 1;
      if IsLong(s) {
        if Overruns(Scan(nbLongs, lastOrd, longname, count), s) {
          found := Overrun;
        } else {
          done := false;
          nbLongs, lastOrd := MeetLong(s, nbLongs, lastOrd, count);
        }
      } else if IsVolumeId(s) {
        done := false;
      } else {
        found := MakeEntry(s, nbLongs, lastOrd, count);
      }
    }

    /** One round of the loop of fat_getnext: pass a slot, or find out what the result is. */
    method Pass(nbLongs0: int, lastOrd0: int, count0: int, ghost goal: Found)
      returns (done: bool, found: Found, nbLongs: int, lastOrd: int, count: int)
      requires Valid() && Leads(dir.sectors, entry, Scan(nbLongs0, lastOrd0, longname, count0), goal)
      modifies this`entry, this`loaded, this`cache, this`longname, dir`pos, dir`eof,
        dir.file, dir.vol`disk, dir.vol`slots, dir.vol`freecount, dir.vol`nextfree, dir.vol`fat
      ensures Valid() && dir.sectors == old(dir.sectors) && entry >= old(entry)
      ensures !done ==> entry > old(entry) && Leads(dir.sectors, entry, Scan(nbLongs, lastOrd, longname, count), goal)
      ensures done ==> found == goal
      ensures done && found.Entry? ==> entry == found.next
      ensures done && found == Nothing ==> Ended(old(entry))
    {
      done, found, nbLongs, lastOrd, count := true, Nothing, nbLongs0, lastOrd0, count0;
      ghost var sc := Scan(nbLongs, lastOrd, longname, count);
      var more, s := NextSlot();
      if more {
        done, found, nbLongs, lastOrd, count := Judge(s, nbLongs0, lastOrd0, count0, dir.sectors, goal);
      } else {
        AtTheEnd(dir.sectors, sc, goal);
      }
    }

    /** The directory ends where the reader is, which began at slot `from`. */
    ghost predicate Ended(from: nat)
      reads this`entry, dir
      requires entry <= SLOTS * |dir.sectors|
    {
      entry == SLOTS * |dir.sectors| || (entry > from && SlotAt(dir.sectors, entry - 1)[0] == 0)
    }

    /** fat_getnext: the next entry of the directory. In the place where a long slot would be copied to outside the name
        buffer it stops. */
    method GetNext() returns (found: Found)
      requires Valid()
      modifies this`entry, this`loaded, this`cache, this`longname, dir`pos, dir`eof,
        dir.file, dir.vol`disk, dir.vol`slots, dir.vol`freecount, dir.vol`nextfree, dir.vol`fat
      ensures Valid() && dir.sectors == old(dir.sectors)
      ensures found == Next(dir.sectors, old(entry), Scan(0, 0, old(longname), 0))
      ensures found.Entry? ==> entry == found.next
      ensures found == Nothing ==> Ended(old(entry))
    {
      var nbLongs, lastOrd, count, done := 0, 0, 0, false;
      ghost var goal := Next(dir.sectors, entry, Scan(0, 0, longname, 0));
      found := Nothing;
      while !done
        invariant Valid() && dir.sectors == old(dir.sectors) && entry >= old(entry)
        invariant !done ==> Leads(dir.sectors, entry, Scan(nbLongs, lastOrd, longname, count), goal)
        invariant done ==> found == goal
        invariant done && found.Entry? ==> entry == found.next
        invariant done && found == Nothing ==> Ended(old(entry))
        decreases !done, SLOTS * |dir.sectors| - entry
      {
        done, found, nbLongs, lastOrd, count := Pass(nbLongs, lastOrd, count, goal);
      }
    }
  }

  /** What write_long_name makes of a directory. */
  ghost predicate Written(before: seq<DirSector>, now: seq<DirSector>, st: Stored) {
    && IsName(st.name) && st.Ok() && st.shortname[0] != 0 && st.shortname[0] != FREE_SLOT
    && |now| == |before| && st.start + SlotsFor(st.name) <= SLOTS * |before|
    && forall e | 0 <= e < SLOTS * |before| :: SlotAt(now, e) == st.After(SlotAt(before, e), SlotsFor(st.name), e)
  }

  /** A name written by write_long_name, wherever in the directory and across whatever sectors, is what fat_getnext
      returns from there. */
  lemma WrittenIsReadBack(before: seq<DirSector>, now: seq<DirSector>, st: Stored, longname: seq<Byte>)
    requires Written(before, now, st) && |longname| == LONGNAME_SIZE
    ensures Next(now, st.start, Scan(0, 0, longname, 0)) ==
      Entry(st.name, if st.isDirectory then ATTR_DIRECTORY else 0, st.start + SlotsFor(st.name), SlotsFor(st.name))
  {
    forall i | 0 <= i < SlotsFor(st.name)
      ensures SlotAt(now, st.start + i) == NameSlot(st.name, st.shortname, st.isDirectory, st.stamp, i)
    {
      var e := st.start + i;
      assert SlotAt(now, e) == st.After(SlotAt(before, e), SlotsFor(st.name), e);
    }
    NameIsReadBack(now, st, longname);
  }

  /** A readable directory stays readable. */
  lemma WrittenIsReadable(before: seq<DirSector>, now: seq<DirSector>, st: Stored)
    requires Written(before, now, st) && OrdersOk(before)
    ensures OrdersOk(now)
  {
    forall e | 0 <= e < SLOTS * |now| && IsLong(SlotAt(now, e)) && !IsFree(SlotAt(now, e)) && !IsLast(SlotAt(now, e))
      ensures InOrder(Order(SlotAt(now, e)))
    {
      assert SlotAt(now, e) == st.After(SlotAt(before, e), SlotsFor(st.name), e);
      NameSlotOrder(st, e - st.start);
    }
  }

  lemma NameSlotOrder(st: Stored, i: int)
    requires st.Ok() && st.shortname[0] != 0 && st.shortname[0] != FREE_SLOT
    ensures 0 <= i < SlotsFor(st.name) ==> var s := NameSlot(st.name, st.shortname, st.isDirectory, st.stamp, i);
      IsLong(s) ==> 1 <= Order(s) <= MAX_ORDER
  {
    if 0 <= i < SlotsFor(st.name) - 1 {
      var longs := SlotsFor(st.name) - 1;
      LongSlotIsLong(st.name, NAME_CHARS * (longs - 1 - i), longs - i, i == 0, Checksum(st.shortname));
    } else if i == SlotsFor(st.name) - 1 {
      ShortSlotIsShort(st);
    }
  }
}
