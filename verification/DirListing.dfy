/** Whole directories: what one reads from the first slot to the end, before and after an entry is added. */
module DirListing {
  import opened Folding
  import opened Options
  import opened Sectors
  import opened Directories
  import opened DirFiles
  import opened LongNames
  import opened DirReader
  import opened DirEntries

  /** The scan with which fat_getnext begins. */
  function Fresh(): (r: Scan)
    ensures |r.longname| == LONGNAME_SIZE
  {
    Scan(0, 0, seq(LONGNAME_SIZE, (i: int) => 0), 0)
  }

  /** What lies behind the last sector is as if it had never been used. */
  function Peek(sectors: seq<DirSector>, e: int): Slot
    requires 0 <= e
  {
    if e < SLOTS * |sectors| then SlotAt(sectors, e) else EmptySlot()
  }

  /** Two scans that know the same of the name that is open, if one is; the rest of their buffers does not matter. */
  ghost predicate Alike(a: Scan, b: Scan) {
    && |a.longname| == |b.longname| == LONGNAME_SIZE && a.count == b.count && a.nbLongs == b.nbLongs
    && 0 <= a.nbLongs <= MAX_ORDER
    && (a.nbLongs > 0 ==>
          && a.lastOrd == b.lastOrd && 1 <= a.lastOrd <= a.nbLongs
          && a.longname[LONG_BYTES * (a.lastOrd - 1)..LONG_BYTES * a.nbLongs]
             == b.longname[LONG_BYTES * (a.lastOrd - 1)..LONG_BYTES * a.nbLongs])
  }

  lemma PartsAlike(a: seq<Byte>, b: seq<Byte>, order: nat, longs: nat, s: Slot)
    requires |a| == |b| == LONGNAME_SIZE && 1 <= order <= longs <= MAX_ORDER
    requires a[LONG_BYTES * order..LONG_BYTES * longs] == b[LONG_BYTES * order..LONG_BYTES * longs]
    ensures PutPart(a, order, s)[LONG_BYTES * (order - 1)..LONG_BYTES * longs]
         == PutPart(b, order, s)[LONG_BYTES * (order - 1)..LONG_BYTES * longs]
  {
    PartAnd(a, order, longs, s);
    PartAnd(b, order, longs, s);
  }

  lemma PartAnd(a: seq<Byte>, order: nat, longs: nat, s: Slot)
    requires |a| == LONGNAME_SIZE && 1 <= order <= longs <= MAX_ORDER
    ensures PutPart(a, order, s)[LONG_BYTES * (order - 1)..LONG_BYTES * longs]
         == CharBytes(s) + a[LONG_BYTES * order..LONG_BYTES * longs]
  {
    SliceBehind(a[..LONG_BYTES * (order - 1)], CharBytes(s), a[LONG_BYTES * order..], LONG_BYTES * (longs - order));
    assert a[LONG_BYTES * order..][..LONG_BYTES * (longs - order)] == a[LONG_BYTES * order..LONG_BYTES * longs];
  }

  lemma SliceBehind(x: seq<Byte>, y: seq<Byte>, z: seq<Byte>, n: nat)
    requires n <= |z|
    ensures (x + y + z)[|x|..|x| + |y| + n] == y + z[..n]
  {
  }

  lemma SeenAlike(a: Scan, b: Scan, s: Slot)
    requires Alike(a, b)
    ensures Overruns(a, s) == Overruns(b, s) && (!Overruns(a, s) ==> Alike(Seen(a, s), Seen(b, s)))
  {
    var order := Order(s);
    if InOrder(order) {
      if IsLast(s) {
        PartsAlike(a.longname, b.longname, order, order, s);
      } else if a.nbLongs > 0 && order == a.lastOrd - 1 {
        PartsAlike(a.longname, b.longname, order, a.nbLongs, s);
      }
    }
  }

  lemma {:induction false} DecodeAlike(a: seq<Byte>, b: seq<Byte>, l: nat, n: nat, name: seq<Byte>)
    requires l <= n && 2 * n <= |a| == |b| && a[..2 * n] == b[..2 * n]
    ensures Decode(a, l, n, name) == Decode(b, l, n, name)
    decreases n - l
  {
    if l < n {
      assert a[..2 * n][2 * l] == b[..2 * n][2 * l] && a[..2 * n][2 * l + 1] == b[..2 * n][2 * l + 1];
      DecodeAlike(a, b, l + 1, n, name + [if CharOf(a, l) < 128 then CharOf(a, l) else '?' as int]);
    }
  }

  lemma EntryAlike(a: Scan, b: Scan, s: Slot, e: int)
    requires Alike(a, b)
    ensures EntryAt(a, s, e) == EntryAt(b, s, e)
  {
    if a.nbLongs > 0 && a.lastOrd == 1 {
      assert a.longname[..2 * (NAME_CHARS * a.nbLongs)] == a.longname[0..LONG_BYTES * a.nbLongs];
      assert b.longname[..2 * (NAME_CHARS * a.nbLongs)] == b.longname[0..LONG_BYTES * a.nbLongs];
      DecodeAlike(a.longname, b.longname, 0, NAME_CHARS * a.nbLongs, []);
    }
  }

  /** From slot `e` on the directories are the same; folded. */
  ghost predicate SameFrom(x: seq<DirSector>, y: seq<DirSector>, e: int) {
    && 0 <= e <= SLOTS * |x| && e <= SLOTS * |y|
    && forall u {:trigger Unfold(u)} | Unfold(u) :: forall k | e <= k :: SameSlot(Peek(x, k), Peek(y, k))
  }

  lemma SameStep(x: seq<DirSector>, y: seq<DirSector>, e: int)
    requires SameFrom(x, y, e)
    ensures SameSlot(Peek(x, e), Peek(y, e))
    ensures e < SLOTS * |x| && e < SLOTS * |y| ==> SameFrom(x, y, e + 1)
  {
    assert Unfold(0);
  }

  /** The end of a directory, at its last slot or before. */
  lemma NextAtEnd(sectors: seq<DirSector>, e: int, sc: Scan)
    requires 0 <= e <= SLOTS * |sectors| && Peek(sectors, e)[0] == 0
    requires |sc.longname| == LONGNAME_SIZE && 0 <= sc.nbLongs <= MAX_ORDER
    ensures Leads(sectors, e, sc, Nothing)
  {
  }

  /** The next entry depends only on the slots and on what is known of the open name. */
  lemma {:induction false} LeadsAlike(x: seq<DirSector>, y: seq<DirSector>, e: int, a: Scan, b: Scan, goal: Found)
    requires SameFrom(x, y, e) && Alike(a, b) && Leads(x, e, a, goal)
    ensures Leads(y, e, b, goal)
    decreases SLOTS * |x| - e
  {
    var s, t := Peek(x, e), Peek(y, e);
    SameStep(x, y, e);
    if s[0] == 0 {
      NextAtEnd(x, e, a);
      NextAtEnd(y, e, b);
      assert goal == Nothing by { assert Unfold(0); }
    } else {
      var a', b' := a.(count := a.count + 1), b.(count := b.count + 1);
      OneSlot(x, e, a, s, goal);
      OneSlotBack(y, e, b, s, goal);
      if s[0] == FREE_SLOT {
        LeadsAlike(x, y, e + 1, a.(count := 0), b.(count := 0), goal);
      } else if IsLong(s) {
        SeenAlike(a, b, s);
        SeenAlike(a', b', s);
        if !Overruns(a, s) {
          LeadsAlike(x, y, e + 1, Seen(a', s), Seen(b', s), goal);
        }
      } else if IsVolumeId(s) {
        LeadsAlike(x, y, e + 1, a', b', goal);
      } else {
        EntryAlike(a', b', s, e);
      }
    }
  }

  lemma NextAlike(x: seq<DirSector>, y: seq<DirSector>, e: int, a: Scan, b: Scan)
    requires SameFrom(x, y, e) && Alike(a, b)
    ensures Next(x, e, a) == Next(y, e, b)
  {
    LeadsAlike(x, y, e, a, b, Next(x, e, a));
    assert Unfold(0);
  }

  /** Reading gets on. */
  lemma {:induction false} NextAdvances(sectors: seq<DirSector>, e: nat, sc: Scan)
    requires e <= SLOTS * |sectors| && |sc.longname| == LONGNAME_SIZE && 0 <= sc.nbLongs <= MAX_ORDER
    ensures Next(sectors, e, sc).Entry? ==> e < Next(sectors, e, sc).next <= SLOTS * |sectors|
    decreases SLOTS * |sectors| - e
  {
    if e < SLOTS * |sectors| {
      var s, sc' := SlotAt(sectors, e), sc.(count := sc.count + 1);
      if s[0] == FREE_SLOT {
        NextAdvances(sectors, e + 1, sc.(count := 0));
      } else if s[0] != 0 && IsLong(s) && !Overruns(sc, s) {
        NextAdvances(sectors, e + 1, Seen(sc', s));
      } else if s[0] != 0 && !IsLong(s) && IsVolumeId(s) {
        NextAdvances(sectors, e + 1, sc');
      }
    }
  }

  /** What fat_getnext returns, call after call, from slot `e` to the end of the directory. */
  function Entries(sectors: seq<DirSector>, e: nat): seq<Found>
    requires e <= SLOTS * |sectors|
    decreases SLOTS * |sectors| - e
  {
    var found := Next(sectors, e, Fresh());
    NextAdvances(sectors, e, Fresh());
    if found.Entry? then [found] + Entries(sectors, found.next) else if found == Overrun then [found] else []
  }

  lemma {:induction false} EntriesAlike(x: seq<DirSector>, y: seq<DirSector>, e: int)
    requires SameFrom(x, y, e)
    ensures Entries(x, e) == Entries(y, e)
    decreases SLOTS * |x| - e
  {
    var found := Next(x, e, Fresh());
    NextAlike(x, y, e, Fresh(), Fresh());
    NextAdvances(x, e, Fresh());
    NextAdvances(y, e, Fresh());
    if found.Entry? {
      assert SameFrom(x, y, found.next) by { assert Unfold(0); }
      EntriesAlike(x, y, found.next);
    }
  }

  /** One call of fat_getnext, with whatever is in the name buffer. */
  lemma EntriesNext(sectors: seq<DirSector>, e: nat, longname: seq<Byte>, found: Found)
    requires e <= SLOTS * |sectors| && |longname| == LONGNAME_SIZE && found == Next(sectors, e, Scan(0, 0, longname, 0))
    ensures found.Entry? ==> e < found.next <= SLOTS * |sectors|
    ensures Entries(sectors, e) == if found.Entry? then [found] + Entries(sectors, found.next)
                                   else if found == Overrun then [found] else []
  {
    NextAlike(sectors, sectors, e, Scan(0, 0, longname, 0), Fresh());
    NextAdvances(sectors, e, Fresh());
  }

  /** `done` has been read of the entries from slot `e0` on, and reading goes on at slot `e`, if at all; folded. */
  ghost predicate ReadSoFar(sectors: seq<DirSector>, e0: nat, done: seq<Found>, e: nat, more: bool) {
    && e0 <= SLOTS * |sectors| && e <= SLOTS * |sectors|
    && forall k {:trigger Unfold(k)} | Unfold(k) ::
         Entries(sectors, e0) == if more then done + Entries(sectors, e) else done
  }

  lemma ReadOne(sectors: seq<DirSector>, e0: nat, done: seq<Found>, e: nat, longname: seq<Byte>, found: Found)
    requires ReadSoFar(sectors, e0, done, e, true) && |longname| == LONGNAME_SIZE
    requires found == Next(sectors, e, Scan(0, 0, longname, 0))
    ensures found.Entry? ==> e < found.next && ReadSoFar(sectors, e0, done + [found], found.next, true)
    ensures !found.Entry? ==> ReadSoFar(sectors, e0, if found == Overrun then done + [found] else done, e, false)
  {
    assert Unfold(0);
    EntriesNext(sectors, e, longname, found);
    if found.Entry? {
      assert done + ([found] + Entries(sectors, found.next)) == (done + [found]) + Entries(sectors, found.next);
    } else {
      assert done + [] == done;
    }
  }

  /** Read a directory from where the reader is to its end. */
  method ListAll(reader: Reader) returns (all: seq<Found>)
    requires reader.Valid()
    modifies reader`entry, reader`loaded, reader`cache, reader`longname, reader.dir`pos, reader.dir`eof, reader.dir.file,
      reader.dir.vol`disk, reader.dir.vol`slots, reader.dir.vol`freecount, reader.dir.vol`nextfree, reader.dir.vol`fat
    ensures reader.Valid() && reader.dir.sectors == old(reader.dir.sectors)
    ensures all == Entries(reader.dir.sectors, old(reader.entry))
  {
    all := [];
    ghost var sectors, e0 := reader.dir.sectors, reader.entry;
    ghost var e: nat := e0;
    var more := true;
    while more
      invariant reader.Valid() && reader.dir.sectors == sectors && (more ==> reader.entry == e)
      invariant ReadSoFar(sectors, e0, all, e, more)
      decreases more, SLOTS * |sectors| - e
    {
      ghost var buffer := reader.longname;
      var found := reader.GetNext();
      ReadOne(sectors, e0, all, e, buffer, found);
      more := found.Entry?;
      if more {
        all, e := all + [found], found.next;
      } else if found == Overrun {
        all := all + [found];
      }
    }
    assert Unfold(0);
  }

  /** The scan as it comes to slot `stop`, if no entry, no end and no overrun comes before. */
  function Reach(sectors: seq<DirSector>, e: nat, sc: Scan, stop: nat): (r: Option<Scan>)
    requires e <= stop <= SLOTS * |sectors| && |sc.longname| == LONGNAME_SIZE && 0 <= sc.nbLongs <= MAX_ORDER
    ensures r.Some? ==> |r.value.longname| == LONGNAME_SIZE && 0 <= r.value.nbLongs <= MAX_ORDER
    decreases stop - e
  {
    if e == stop then Some(sc)
    else
      var s, sc' := SlotAt(sectors, e), sc.(count := sc.count + 1);
      if s[0] == FREE_SLOT then Reach(sectors, e + 1, sc.(count := 0), stop)
      else if s[0] == 0 then None
      else if IsLong(s) then if Overruns(sc, s) then None else Reach(sectors, e + 1, Seen(sc', s), stop)
      else if IsVolumeId(s) then Reach(sectors, e + 1, sc', stop)
      else None
  }

  lemma {:induction false} ReachMeans(sectors: seq<DirSector>, e: nat, sc: Scan, stop: nat, goal: Found)
    requires e <= stop <= SLOTS * |sectors| && Leads(sectors, e, sc, goal)
    ensures var r := Reach(sectors, e, sc, stop);
      if r.Some? then Leads(sectors, stop, r.value, goal) else goal.Entry? ==> goal.next <= stop
    decreases stop - e
  {
    if e < stop {
      var s, sc' := SlotAt(sectors, e), sc.(count := sc.count + 1);
      OneSlot(sectors, e, sc, s, goal);
      if s[0] == FREE_SLOT {
        ReachMeans(sectors, e + 1, sc.(count := 0), stop, goal);
      } else if s[0] != 0 && IsLong(s) && !Overruns(sc, s) {
        ReachMeans(sectors, e + 1, Seen(sc', s), stop, goal);
      } else if s[0] != 0 && !IsLong(s) && IsVolumeId(s) {
        ReachMeans(sectors, e + 1, sc', stop, goal);
      }
    }
  }

  /** Up to slot `stop` the directories are the same, and not at their end; folded. */
  ghost predicate SameUpTo(x: seq<DirSector>, y: seq<DirSector>, stop: int) {
    && 0 <= stop <= SLOTS * |x| && stop <= SLOTS * |y|
    && forall u {:trigger Unfold(u)} | Unfold(u) ::
         forall k | 0 <= k < stop :: SlotAt(x, k) == SlotAt(y, k) && SlotAt(x, k)[0] != 0
  }

  lemma SameSlotAt(x: seq<DirSector>, y: seq<DirSector>, stop: int, e: int)
    requires SameUpTo(x, y, stop) && 0 <= e < stop
    ensures SlotAt(x, e) == SlotAt(y, e) && SlotAt(x, e)[0] != 0
  {
    assert Unfold(0);
  }

  lemma {:induction false} ReachAlike(x: seq<DirSector>, y: seq<DirSector>, e: nat, sc: Scan, stop: nat, goal: Found)
    requires SameUpTo(x, y, stop) && e <= stop && Leads(x, e, sc, goal)
    ensures Reach(x, e, sc, stop) == Reach(y, e, sc, stop)
    ensures Reach(x, e, sc, stop) == None ==> Leads(y, e, sc, goal) && goal != Nothing
    decreases stop - e
  {
    if e < stop {
      var s, sc' := SlotAt(x, e), sc.(count := sc.count + 1);
      SameSlotAt(x, y, stop, e);
      OneSlot(x, e, sc, s, goal);
      OneSlotBack(y, e, sc, s, goal);
      if s[0] == FREE_SLOT {
        ReachAlike(x, y, e + 1, sc.(count := 0), stop, goal);
      } else if IsLong(s) {
        if !Overruns(sc, s) {
          ReachAlike(x, y, e + 1, Seen(sc', s), stop, goal);
        }
      } else if IsVolumeId(s) {
        ReachAlike(x, y, e + 1, sc', stop, goal);
      }
    }
  }

  /** Long slots come right before another slot of the same entry. */
  ghost predicate Tidy(sectors: seq<DirSector>) {
    forall e | 0 <= e < SLOTS * |sectors| && !IsFree(SlotAt(sectors, e)) && IsLong(SlotAt(sectors, e)) ::
      && !IsFree(Peek(sectors, e + 1)) && (IsLong(Peek(sectors, e + 1)) || !IsVolumeId(Peek(sectors, e + 1)))
  }

  /** No long name is open at slot `stop`, wherever a reading that comes there began. */
  ghost predicate NoneOpenAt(sectors: seq<DirSector>, stop: int) {
    forall e, g | Passable(sectors, e, stop) :: !NameOpen(sectors, e, g, stop)
  }

  lemma {:induction false} ReachKnows(sectors: seq<DirSector>, e0: nat, e: nat, sc: Scan, stop: nat)
    requires Knows(sectors, e0, e, sc) && e <= stop <= SLOTS * |sectors|
    ensures Reach(sectors, e, sc, stop).Some? ==> Knows(sectors, e0, stop, Reach(sectors, e, sc, stop).value)
    decreases stop - e
  {
    if e < stop {
      var s, sc' := SlotAt(sectors, e), sc.(count := sc.count + 1);
      if s[0] == FREE_SLOT {
        KnowsNextOther(sectors, e0, e, sc, 0);
        ReachKnows(sectors, e0, e + 1, sc.(count := 0), stop);
      } else if s[0] != 0 && IsLong(s) && !Overruns(sc, s) {
        KnowsCounts(sectors, e0, e, sc, sc.count + 1);
        KnowsNextLong(sectors, e0, e, sc');
        ReachKnows(sectors, e0, e + 1, Seen(sc', s), stop);
      } else if s[0] != 0 && !IsLong(s) && IsVolumeId(s) {
        KnowsNextOther(sectors, e0, e, sc, sc.count + 1);
        ReachKnows(sectors, e0, e + 1, sc', stop);
      }
    }
  }

  lemma KnowsCounts(sectors: seq<DirSector>, e0: int, e: int, sc: Scan, count: int)
    requires Knows(sectors, e0, e, sc)
    ensures Knows(sectors, e0, e, sc.(count := count))
  {
  }

  /** A scan that comes where no name is open knows of none. */
  lemma ClosedThere(sectors: seq<DirSector>, e: nat, stop: nat)
    requires e <= stop <= SLOTS * |sectors| && NoneOpenAt(sectors, stop)
    ensures Reach(sectors, e, Fresh(), stop).Some? ==> Reach(sectors, e, Fresh(), stop).value.nbLongs == 0
  {
    ReachKnows(sectors, e, e, Fresh(), stop);
    assert Unfold(0);
  }

  /** In a tidy directory no name is open at a free slot. */
  lemma TidyIsClosed(sectors: seq<DirSector>, stop: nat)
    requires Tidy(sectors) && stop <= SLOTS * |sectors| && IsFree(Peek(sectors, stop))
    ensures NoneOpenAt(sectors, stop)
  {
    forall e, g | Passable(sectors, e, stop)
      ensures !NameOpen(sectors, e, g, stop)
    {
      if NameOpen(sectors, e, g, stop) {
        LongUpTo(sectors, e, g, stop, g + 1);
      }
    }
  }

  /** From the slot that begins a name on there are only long ones. */
  lemma {:induction false} LongUpTo(sectors: seq<DirSector>, e: int, g: nat, stop: nat, k: nat)
    requires Tidy(sectors) && Passable(sectors, e, stop) && e <= g < k <= stop
    requires !IsFree(SlotAt(sectors, k - 1)) && IsLong(SlotAt(sectors, k - 1))
    ensures !IsFree(Peek(sectors, stop))
    decreases stop - k
  {
    TidyNext(sectors, k - 1, k);
    if k < stop {
      NoEntryAt(sectors, e, stop, k);
      LongUpTo(sectors, e, g, stop, k + 1);
    }
  }

  lemma TidyNext(sectors: seq<DirSector>, e: nat, next: nat)
    requires Tidy(sectors) && e < SLOTS * |sectors| && !IsFree(SlotAt(sectors, e)) && IsLong(SlotAt(sectors, e))
    requires next == e + 1
    ensures !IsFree(Peek(sectors, next)) && (IsLong(Peek(sectors, next)) || !IsVolumeId(Peek(sectors, next)))
  {
  }

  lemma NoEntryAt(sectors: seq<DirSector>, e: int, stop: int, k: nat)
    requires Passable(sectors, e, stop) && e <= k < stop
    ensures IsFree(Peek(sectors, k)) || IsLong(Peek(sectors, k)) || IsVolumeId(Peek(sectors, k))
  {
  }

  /** The slots from `e` up to `end` are free, as far as the directory goes; folded. */
  ghost predicate FreeUpTo(sectors: seq<DirSector>, e: nat, end: nat) {
    forall u {:trigger Unfold(u)} | Unfold(u) :: ZeroTailed(sectors) && forall k | e <= k < end :: IsFree(Peek(sectors, k))
  }

  lemma FreeStep(sectors: seq<DirSector>, e: nat, end: nat)
    requires FreeUpTo(sectors, e, end) && e < end
    ensures IsFree(Peek(sectors, e)) && FreeUpTo(sectors, e + 1, end)
    ensures Peek(sectors, e)[0] == 0 ==> Peek(sectors, end)[0] == 0
  {
    assert Unfold(0);
  }

  /** A run of free slots is passed, unless the directory ends in it. */
  lemma {:induction false} FreePassed(sectors: seq<DirSector>, e: nat, end: nat, sc: Scan) returns (past: bool)
    requires e < end && e <= SLOTS * |sectors| && |sc.longname| == LONGNAME_SIZE && 0 <= sc.nbLongs <= MAX_ORDER
    requires FreeUpTo(sectors, e, end)
    ensures past ==> end <= SLOTS * |sectors| && Next(sectors, e, sc) == Next(sectors, end, sc.(count := 0))
    ensures !past ==> Next(sectors, e, sc) == Nothing && Peek(sectors, end)[0] == 0
    decreases end - e
  {
    FreeStep(sectors, e, end);
    past := e < SLOTS * |sectors| && SlotAt(sectors, e)[0] != 0;
    if past && e + 1 < end {
      past := FreePassed(sectors, e + 1, end, sc.(count := 0));
    }
  }

  /** What an added entry means for the slots around it. */
  lemma AddedAround(before: seq<DirSector>, now: seq<DirSector>, st: Stored)
    requires Added(before, now, st) && ZeroTailed(now) && st.shortname[0] != 0 && st.shortname[0] != FREE_SLOT
    ensures SameUpTo(before, now, st.start) && IsFree(Peek(before, st.start))
    ensures var end := st.start + SlotsFor(st.name);
      (forall k | st.start <= k < end :: IsFree(Peek(before, k))) &&
      forall k | end <= k :: SameSlot(Peek(before, k), Peek(now, k))
  {
    var end := st.start + SlotsFor(st.name);
    assert SlotAt(now, st.start) == NameSlot(st.name, st.shortname, st.isDirectory, st.stamp, 0);
    NameSlotInUse(st, 0);
    forall k | 0 <= k < st.start
      ensures SlotAt(before, k) == SlotAt(now, k) && SlotAt(before, k)[0] != 0
    {
      assert SameSlot(SlotAt(before, k), SlotAt(now, k));
    }
  }

  /** A scan that comes to the place of the new entry with no name open would go on there, without the entry, as a new
      one does behind it. */
  lemma BehindAdded(before: seq<DirSector>, now: seq<DirSector>, start: nat, end: nat, sc: Scan)
    requires start < end && start <= SLOTS * |before| && end <= SLOTS * |now| && FreeUpTo(before, start, end)
    requires SameSlot(Peek(before, end), Peek(now, end)) && (end <= SLOTS * |before| ==> SameFrom(before, now, end))
    requires |sc.longname| == LONGNAME_SIZE && sc.nbLongs == 0
    ensures Next(before, start, sc) == Next(now, end, Fresh())
  {
    var past := FreePassed(before, start, end, sc);
    if past {
      NextAlike(before, now, end, sc.(count := 0), Fresh());
    } else {
      NextAtEnd(now, end, Fresh());
      assert Unfold(0);
    }
  }

  /** The new entry has been added where no name is open; folded. */
  ghost predicate Addition(before: seq<DirSector>, now: seq<DirSector>, st: Stored) {
    && st.start <= SLOTS * |before| && st.Ok() && st.start + SlotsFor(st.name) <= SLOTS * |now| && |before| <= |now|
    && forall k {:trigger Unfold(k)} | Unfold(k) ::
         && Added(before, now, st) && ZeroTailed(before) && ZeroTailed(now) && NoneOpenAt(before, st.start)
         && IsName(st.name) && st.shortname[0] != 0 && st.shortname[0] != FREE_SLOT
  }

  /** `list` is what is read from slot `e` on; folded. */
  ghost predicate Lists(sectors: seq<DirSector>, e: nat, list: seq<Found>) {
    e <= SLOTS * |sectors| && forall k {:trigger Unfold(k)} | Unfold(k) :: Entries(sectors, e) == list
  }

  lemma ListsNext(sectors: seq<DirSector>, e: nat, found: Found, rest: seq<Found>)
    requires Leads(sectors, e, Fresh(), found) && found.Entry? && 0 <= found.next && Lists(sectors, found.next, rest)
    ensures Lists(sectors, e, [found] + rest)
  {
    assert Unfold(0);
    NextAdvances(sectors, e, Fresh());
  }

  lemma FirstListed(sectors: seq<DirSector>, e: nat, found: Found, list: seq<Found>)
    requires Lists(sectors, e, list) && Leads(sectors, e, Fresh(), found)
    ensures found.Entry? ==> list != [] && list[0] == found && e < found.next && Lists(sectors, found.next, list[1..])
    ensures !found.Entry? ==> list == if found == Overrun then [found] else []
  {
    assert Unfold(0);
    NextAdvances(sectors, e, Fresh());
  }

  /** A reading that begins at slot `e`, before the new entry: either it finds the same entry as without it, before it,
      or it comes to it with no name open. */
  lemma BeforeOrAt(before: seq<DirSector>, now: seq<DirSector>, st: Stored, e: nat) returns (found: Found, sc: Option<Scan>)
    requires Addition(before, now, st) && e <= st.start
    ensures Leads(before, e, Fresh(), found)
    ensures sc == None ==>
      Leads(now, e, Fresh(), found) && found != Nothing && (found.Entry? ==> e < found.next <= st.start)
    ensures sc.Some? ==>
      && |sc.value.longname| == LONGNAME_SIZE && sc.value.nbLongs == 0
      && Leads(before, st.start, sc.value, found) && Leads(now, e, Fresh(), ReadEntry(st, sc.value.count))
  {
    assert Unfold(0);
    AddedAround(before, now, st);
    found := Next(before, e, Fresh());
    ReachAlike(before, now, e, Fresh(), st.start, found);
    ReachMeans(before, e, Fresh(), st.start, found);
    ReachMeans(now, e, Fresh(), st.start, Next(now, e, Fresh()));
    NextAdvances(before, e, Fresh());
    ClosedThere(before, e, st.start);
    sc := Reach(before, e, Fresh(), st.start);
    if sc.Some? {
      AddedIsStored(before, now, st);
      NameIsFound(now, st, sc.value);
    }
  }

  lemma InsertedBehind<T>(list: seq<T>, k: nat, x: T)
    requires list != [] && k <= |list[1..]|
    ensures [list[0]] + (list[1..][..k] + [x] + list[1..][k..]) == list[..k + 1] + [x] + list[k + 1..]
  {
  }

  /** Where the new entry comes in a reading that begins at slot `e`, before it. */
  lemma {:induction false} ListedFrom(before: seq<DirSector>, now: seq<DirSector>, st: Stored, e: nat, list: seq<Found>)
    returns (k: nat, count: int)
    requires Addition(before, now, st) && e <= st.start && Lists(before, e, list) && Overrun !in list
    ensures k <= |list| && Lists(now, e, list[..k] + [ReadEntry(st, count)] + list[k..])
    decreases st.start - e
  {
    var found, sc := BeforeOrAt(before, now, st, e);
    FirstListed(before, e, found, list);
    if sc == None {
      assert found == Overrun ==> Overrun in list;
      var rest;
      k, count := ListedFrom(before, now, st, found.next, list[1..]);
      rest := list[1..][..k] + [ReadEntry(st, count)] + list[1..][k..];
      ListsNext(now, e, found, rest);
      InsertedBehind(list, k, ReadEntry(st, count));
      k := k + 1;
    } else {
      k, count := 0, sc.value.count;
      SameRest(before, now, st, e, st.start + SlotsFor(st.name), found, sc.value, list);
      ListsNext(now, e, ReadEntry(st, count), list);
      assert list[..0] + [ReadEntry(st, count)] + list[0..] == [ReadEntry(st, count)] + list;
    }
  }

  /** Behind the new entry the reading is the one that there was before. */
  lemma SameRest(before: seq<DirSector>, now: seq<DirSector>, st: Stored, e: nat, end: nat, found: Found, sc: Scan,
                 list: seq<Found>)
    requires Addition(before, now, st) && e <= st.start && end == st.start + SlotsFor(st.name)
    requires |sc.longname| == LONGNAME_SIZE && sc.nbLongs == 0 && Leads(before, st.start, sc, found)
    requires Lists(before, e, list) && Leads(before, e, Fresh(), found)
    ensures Lists(now, end, list)
  {
    FirstListed(before, e, found, list);
    NextBehind(before, now, st, end, found, sc);
    if found.Entry? {
      RestBehind(before, now, st, found.next, list[1..]);
      ListsNext(now, end, found, list[1..]);
      assert list == [list[0]] + list[1..];
    } else {
      assert Unfold(0);
    }
  }

  lemma NextBehind(before: seq<DirSector>, now: seq<DirSector>, st: Stored, end: nat, found: Found, sc: Scan)
    requires Addition(before, now, st) && end == st.start + SlotsFor(st.name)
    requires |sc.longname| == LONGNAME_SIZE && sc.nbLongs == 0 && Leads(before, st.start, sc, found)
    ensures Leads(now, end, Fresh(), found) && (found.Entry? ==> end < found.next <= SLOTS * |before|)
  {
    assert Unfold(0);
    AddedAround(before, now, st);
    BehindAdded(before, now, st.start, end, sc);
    NextAdvances(now, end, Fresh());
    NextAdvances(before, st.start, sc);
  }

  lemma RestBehind(before: seq<DirSector>, now: seq<DirSector>, st: Stored, e: nat, list: seq<Found>)
    requires Addition(before, now, st) && st.start + SlotsFor(st.name) <= e && Lists(before, e, list)
    ensures Lists(now, e, list)
  {
    SameBehind(before, now, st, e);
    EntriesAlike(before, now, e);
    assert Unfold(0);
  }

  lemma SameBehind(before: seq<DirSector>, now: seq<DirSector>, st: Stored, e: nat)
    requires Addition(before, now, st) && st.start + SlotsFor(st.name) <= e <= SLOTS * |before|
    ensures SameFrom(before, now, e)
  {
    assert Unfold(0);
    AddedAround(before, now, st);
  }

  lemma AddedIsStored(before: seq<DirSector>, now: seq<DirSector>, st: Stored)
    requires Added(before, now, st) && IsName(st.name) && st.shortname[0] != 0 && st.shortname[0] != FREE_SLOT
    ensures HasName(now, st)
  {
    forall i | 0 <= i < SlotsFor(st.name)
      ensures SlotAt(now, st.start + i) == NameSlot(st.name, st.shortname, st.isDirectory, st.stamp, i)
    {
      var e := st.start + i;
      assert SlotAt(now, e) == NameSlot(st.name, st.shortname, st.isDirectory, st.stamp, e - st.start);
    }
  }

  /** Reading a directory from its first slot, after an entry has been added where no long name is open, gives the
      entries there were before, each as before, and the new one among them. */
  lemma AddedIsListed(before: seq<DirSector>, now: seq<DirSector>, st: Stored) returns (k: nat, count: int)
    requires Added(before, now, st) && ZeroTailed(before) && ZeroTailed(now) && NoneOpenAt(before, st.start)
    requires IsName(st.name) && st.shortname[0] != 0 && st.shortname[0] != FREE_SLOT && Overrun !in Entries(before, 0)
    ensures k <= |Entries(before, 0)|
    ensures Entries(now, 0) == Entries(before, 0)[..k] + [ReadEntry(st, count)] + Entries(before, 0)[k..]
  {
    k, count := ListedFrom(before, now, st, 0, Entries(before, 0));
    assert Unfold(0);
  }

  /** In a tidy directory that is so wherever the entry goes, and the directory stays tidy. */
  lemma AddedToTidy(before: seq<DirSector>, now: seq<DirSector>, st: Stored)
    requires Added(before, now, st) && Tidy(before) && ZeroTailed(now)
    requires IsName(st.name) && st.shortname[0] != 0 && st.shortname[0] != FREE_SLOT
    ensures NoneOpenAt(before, st.start) && Tidy(now)
  {
    AddedAround(before, now, st);
    TidyIsClosed(before, st.start);
    AddedStaysTidy(before, now, st);
  }

  /** Add an entry to a tidy directory, and read the directory from its first slot. */
  method AddAndList(dir: DirFile, name: seq<Byte>, shortname0: seq<Byte>, isDirectory: bool, stamp: seq<Byte>)
    returns (rc: int, all: seq<Found>, ghost st: Stored, ghost k: nat, ghost count: int)
    requires dir.Valid() && ZeroTailed(dir.sectors) && Tidy(dir.sectors) && |dir.sectors| <= DIR_LIMIT
    requires Overrun !in Entries(dir.sectors, 0)
    requires IsName(name) && |shortname0| == 11 && shortname0[0] != 0 && shortname0[0] != FREE_SLOT && |stamp| == 5
    modifies dir`pos, dir`eof, dir`sectors, dir`room,
      dir.file, dir.vol`disk, dir.vol`slots, dir.vol`freecount, dir.vol`nextfree, dir.vol`fat
    ensures dir.Valid() && k <= |old(Entries(dir.sectors, 0))|
    ensures rc == 0 ==> st.name == name && st.isDirectory == isDirectory && ZeroTailed(dir.sectors) && Tidy(dir.sectors)
    ensures rc == 0 ==>
      all == old(Entries(dir.sectors, 0))[..k] + [ReadEntry(st, count)] + old(Entries(dir.sectors, 0))[k..]
  {
    ghost var before := dir.sectors;
    var first, shortname;
    rc, first, shortname := AddDirEntry(dir, name, shortname0, isDirectory, stamp);
    all, k, count := [], 0, 0;
    st := Stored(if rc == 0 then first else 0, name, shortname, isDirectory, stamp);
    if rc == 0 {
      AddedToTidy(before, dir.sectors, st);
      k, count := AddedIsListed(before, dir.sectors, st);
      dir.Seek(0);
      var reader := new Reader(dir, seq(LONGNAME_SIZE, (i: int) => 0));
      all := ListAll(reader);
    }
  }

  /** A directory to which entries are added stays tidy. */
  lemma AddedStaysTidy(before: seq<DirSector>, now: seq<DirSector>, st: Stored)
    requires Added(before, now, st) && Tidy(before) && st.shortname[0] != 0 && st.shortname[0] != FREE_SLOT
    requires ZeroTailed(now) && IsName(st.name)
    ensures Tidy(now)
  {
    AddedAround(before, now, st);
    var end := st.start + SlotsFor(st.name);
    forall e | 0 <= e < SLOTS * |now| && !IsFree(SlotAt(now, e)) && IsLong(SlotAt(now, e))
      ensures !IsFree(Peek(now, e + 1)) && (IsLong(Peek(now, e + 1)) || !IsVolumeId(Peek(now, e + 1)))
    {
      if st.start <= e < end {
        TidyInside(now, st, e);
      } else {
        assert SameSlot(Peek(before, e), Peek(now, e));
        assert !IsFree(Peek(before, e + 1));
        assert SameSlot(Peek(before, e + 1), Peek(now, e + 1));
      }
    }
  }

  lemma TidyInside(now: seq<DirSector>, st: Stored, e: int)
    requires st.Ok() && st.shortname[0] != 0 && st.shortname[0] != FREE_SLOT
    requires st.start <= e < st.start + SlotsFor(st.name) <= SLOTS * |now| && IsLong(SlotAt(now, e))
    requires forall k | st.start <= k < st.start + SlotsFor(st.name) ::
      SlotAt(now, k) == NameSlot(st.name, st.shortname, st.isDirectory, st.stamp, k - st.start)
    ensures !IsFree(Peek(now, e + 1)) && (IsLong(Peek(now, e + 1)) || !IsVolumeId(Peek(now, e + 1)))
  {
    var i, longs := e - st.start, SlotsFor(st.name) - 1;
    assert SlotAt(now, e) == NameSlot(st.name, st.shortname, st.isDirectory, st.stamp, i);
    ShortSlotIsShort(st);
    assert i < longs;
    assert SlotAt(now, e + 1) == NameSlot(st.name, st.shortname, st.isDirectory, st.stamp, (e + 1) - st.start);
    NameSlotInUse(st, i + 1);
    if i + 1 < longs {
      LongSlotIsLong(st.name, NAME_CHARS * (longs - 2 - i), longs - 1 - i, false, Checksum(st.shortname));
    }
  }

  /** A directory that is not tidy: two free slots lie inside the long name "a". */
  function Torn(): (r: DirSector)
    ensures |r| == SLOTS
  {
    EmptySlots()[0 := BareLongSlot(LAST_LONG + 2)][1 := EmptySlot()[0 := FREE_SLOT]][2 := EmptySlot()[0 := FREE_SLOT]]
      [3 := PartA()][4 := EntryX()]
  }

  /** The part of a name that is just "a", and the entry it belongs to. */
  function PartA(): Slot {
    BareLongSlot(1)[1 := 'a' as int]
  }

  function EntryX(): Slot {
    EmptySlot()[0 := 'X' as int]
  }

  lemma PartAIsRead(longname: seq<Byte>, longs: nat)
    requires |longname| == LONGNAME_SIZE && 1 <= longs <= MAX_ORDER
    ensures Decode(PutPart(longname, 1, PartA()), 0, NAME_CHARS * longs, []) == Some(['a' as int])
  {
    var s, r := PartA(), PutPart(longname, 1, PartA());
    assert CharBytes(s)[0] == 'a' as int && CharBytes(s)[1] == 0 && CharBytes(s)[2] == 0 && CharBytes(s)[3] == 0;
    assert CharOf(r, 0) == 'a' as int && CharOf(r, 1) == 0;
    var none: seq<Byte>, a: seq<Byte> := [], ['a' as int];
    assert none + a == a;
    assert Decode(r, 1, NAME_CHARS * longs, a) == Some(a);
    assert Decode(r, 0, NAME_CHARS * longs, none) == Decode(r, 1, NAME_CHARS * longs, none + a);
  }

  /** How the last two of its slots are read: with a name of two parts open, and afresh. */
  lemma TornEnd(sectors: seq<DirSector>, sc: Scan)
    requires 5 <= SLOTS * |sectors| && SlotAt(sectors, 3) == PartA() && SlotAt(sectors, 4) == EntryX()
    requires |sc.longname| == LONGNAME_SIZE && sc.nbLongs in {0, 2} && (sc.nbLongs != 0 ==> sc.lastOrd == 2)
    ensures var found := Next(sectors, 3, sc);
      found.Entry? && found.next == 5 && (found.name == ['a' as int] <==> sc.nbLongs == 2)
  {
    var sc' := Seen(sc.(count := sc.count + 1), PartA());
    NextLong(sectors, 3, sc);
    NextShort(sectors, 4, sc');
    if sc.nbLongs == 2 {
      PartAIsRead(sc.longname, 2);
    }
    assert DosName(EntryX())[0] == 'X' as int;
  }

  lemma TornSlots(sectors: seq<DirSector>)
    requires sectors == [Torn()]
    ensures SlotAt(sectors, 0) == BareLongSlot(LAST_LONG + 2) && SlotAt(sectors, 3) == PartA() && SlotAt(sectors, 4) == EntryX()
    ensures SlotAt(sectors, 1)[0] == FREE_SLOT && SlotAt(sectors, 2)[0] == FREE_SLOT
    ensures forall e | 5 <= e < SLOTS :: SlotAt(sectors, e)[0] == 0
  {
    assert forall e | 0 <= e < SLOTS :: SlotAt(sectors, e) == Torn()[e];
  }

  lemma NextFree(sectors: seq<DirSector>, e: nat, sc: Scan)
    requires e < SLOTS * |sectors| && |sc.longname| == LONGNAME_SIZE && 0 <= sc.nbLongs <= MAX_ORDER
    requires SlotAt(sectors, e)[0] == FREE_SLOT
    ensures Next(sectors, e, sc) == Next(sectors, e + 1, sc.(count := 0))
  {
  }

  lemma TornOpens(sc: Scan, s: Slot)
    requires sc == Fresh().(count := 1) && s == BareLongSlot(LAST_LONG + 2)
    ensures !IsFree(s) && IsLong(s) && !Overruns(sc, s) && !Overruns(Fresh(), s)
    ensures Seen(sc, s).nbLongs == Seen(sc, s).lastOrd == 2 && |Seen(sc, s).longname| == LONGNAME_SIZE
  {
  }

  lemma TwoFree(sectors: seq<DirSector>, e: nat, sc: Scan)
    requires e + 1 < SLOTS * |sectors| && |sc.longname| == LONGNAME_SIZE && 0 <= sc.nbLongs <= MAX_ORDER
    requires SlotAt(sectors, e)[0] == FREE_SLOT && SlotAt(sectors, e + 1)[0] == FREE_SLOT
    ensures Next(sectors, e, sc) == Next(sectors, e + 2, sc.(count := 0))
  {
    NextFree(sectors, e, sc);
    NextFree(sectors, e + 1, sc.(count := 0));
  }

  /** How its first slots are read. */
  lemma TornBegin(sectors: seq<DirSector>) returns (sc: Scan)
    requires sectors == [Torn()]
    ensures |sc.longname| == LONGNAME_SIZE && sc.nbLongs == sc.lastOrd == 2
    ensures Next(sectors, 0, Fresh()) == Next(sectors, 3, sc)
  {
    TornSlots(sectors);
    var s := SlotAt(sectors, 0);
    TornOpens(Fresh().(count := 1), s);
    NextLong(sectors, 0, Fresh());
    sc := Seen(Fresh().(count := 1), s);
    TwoFree(sectors, 1, sc);
    sc := sc.(count := 0);
  }

  /** There an entry that is added does change what another one is called: with the new entry in between, the one in
      slot 4 is read under its short name. */
  lemma TornIsRenamed(now: seq<DirSector>, st: Stored)
    requires Added([Torn()], now, st) && st.start == 1 && SlotsFor(st.name) == 2
    ensures ZeroTailed([Torn()]) && !Tidy([Torn()]) && !NoneOpenAt([Torn()], 1)
    ensures Next([Torn()], 0, Fresh()).Entry? && Next([Torn()], 0, Fresh()).next == 5
    ensures Next(now, 3, Fresh()).Entry? && Next(now, 3, Fresh()).next == 5
    ensures Next([Torn()], 0, Fresh()).name == ['a' as int] != Next(now, 3, Fresh()).name
  {
    var before := [Torn()];
    TornSlots(before);
    assert SameSlot(SlotAt(before, 3), SlotAt(now, 3)) && SameSlot(SlotAt(before, 4), SlotAt(now, 4));
    assert IsFree(Peek(before, 0 + 1));
    assert Passable(before, 0, 1) && NameOpen(before, 0, 0, 1);
    var sc := TornBegin(before);
    TornEnd(before, sc);
    TornEnd(now, Fresh());
  }
}
