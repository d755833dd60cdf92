/** Adding an entry to a directory: a short name nobody has, and a run of free slots. */
module DirEntries {
  import opened Folding
  import opened Options
  import opened Sectors
  import opened Directories
  import opened DirFiles
  import opened LongNames
  import DirReader
  import DosNames

  const DIR_LIMIT := 4096            // sectors a directory may have: 65536 slots

  /** Behind the first slot that has never been used there is none in use. */
  ghost predicate ZeroTailed(sectors: seq<DirSector>) {
    forall e, f | 0 <= e < f < SLOTS * |sectors| && SlotAt(sectors, e)[0] == 0 :: SlotAt(sectors, f)[0] == 0
  }

  /** An entry in use has this short name. */
  ghost predicate Taken(sectors: seq<DirSector>, shortname: seq<Byte>) {
    exists e | 0 <= e < SLOTS * |sectors| :: !IsFree(SlotAt(sectors, e)) && SlotAt(sectors, e)[..11] == shortname
  }

  ghost predicate FreeRun(sectors: seq<DirSector>, from: int, to: int) {
    0 <= from <= to <= SLOTS * |sectors| && forall e | from <= e < to :: IsFree(SlotAt(sectors, e))
  }

  /** No slot before `e` ends the directory. */
  ghost predicate NoEnd(sectors: seq<DirSector>, e: int) {
    e <= SLOTS * |sectors| && forall k | 0 <= k < e :: SlotAt(sectors, k)[0] != 0
  }

  ghost predicate NotAmong(sectors: seq<DirSector>, shortname: seq<Byte>, e: int) {
    e <= SLOTS * |sectors| && forall k | 0 <= k < e && !IsFree(SlotAt(sectors, k)) :: SlotAt(sectors, k)[..11] != shortname
  }

  /** The search has passed `e` slots, the last `found` of them free. */
  ghost predicate Scanned(sectors: seq<DirSector>, shortname: seq<Byte>, needed: nat, e: int, found: int, first: int) {
    forall k {:trigger Unfold(k)} | Unfold(k) ::
      && 0 <= found <= e && FreeRun(sectors, e - found, e) && NoEnd(sectors, e) && NotAmong(sectors, shortname, e)
      && (if first < 0 then found < needed else FreeRun(sectors, first, first + needed) && first <= e)
  }

  /** The search is over: slots from `e` on have never been used. */
  ghost predicate Complete(sectors: seq<DirSector>, shortname: seq<Byte>, needed: nat, e: int, found: int, first: int) {
    && 0 <= found <= e && FreeRun(sectors, e - found, e) && NoEnd(sectors, e - found)
    && NotAmong(sectors, shortname, SLOTS * |sectors|)
    && (forall k | e <= k < SLOTS * |sectors| :: SlotAt(sectors, k)[0] == 0)
    && (if first < 0 then found < needed else FreeRun(sectors, first, first + needed) && NoEnd(sectors, first))
  }

  /** Slot `e` ends the directory. */
  lemma EndFound(sectors: seq<DirSector>, shortname: seq<Byte>, needed: nat, e: int, found: int, first: int, end: int)
    requires ZeroTailed(sectors) && Scanned(sectors, shortname, needed, e, found, first)
    requires 0 <= e < end <= SLOTS * |sectors| && SlotAt(sectors, e)[0] == 0
    ensures var found' := found + (end - e);
      Complete(sectors, shortname, needed, end, found', if first < 0 && found' >= needed then end - found' else first)
  {
    assert Unfold(0);
    assert forall k | e <= k < SLOTS * |sectors| :: SlotAt(sectors, k)[0] == 0;
  }

  /** Slot `e` does not end the directory. */
  lemma SlotPassed(sectors: seq<DirSector>, shortname: seq<Byte>, needed: nat, e: int, found: int, first: int)
    requires Scanned(sectors, shortname, needed, e, found, first) && |shortname| == 11
    requires 0 <= e < SLOTS * |sectors| && SlotAt(sectors, e)[0] != 0
    ensures SlotAt(sectors, e)[0] == FREE_SLOT ==>
      Scanned(sectors, shortname, needed, e + 1, found + 1, if first < 0 && found + 1 >= needed then e - found else first)
    ensures SlotAt(sectors, e)[0] != FREE_SLOT && SlotAt(sectors, e)[..11] != shortname ==>
      Scanned(sectors, shortname, needed, e + 1, 0, first) && (first < 0 ==> 0 < needed)
    ensures SlotAt(sectors, e)[0] != FREE_SLOT && SlotAt(sectors, e)[..11] == shortname ==> Taken(sectors, shortname)
  {
    assert Unfold(0);
  }

  /** One sector of the search. */
  method ScanSector(buf: DirSector, sector: nat, shortname: seq<Byte>, needed: nat, found0: nat, first0: int,
                    ghost sectors: seq<DirSector>)
    returns (dup: bool, done: bool, found: nat, first: int)
    requires ZeroTailed(sectors) && sector < |sectors| && buf == sectors[sector] && |shortname| == 11
    requires Scanned(sectors, shortname, needed, SLOTS * sector, found0, first0)
    ensures dup ==> Taken(sectors, shortname) && found == 0
    ensures !dup && !done ==> Scanned(sectors, shortname, needed, SLOTS * (sector + 1), found, first)
    ensures !dup && done ==> Complete(sectors, shortname, needed, SLOTS * (sector + 1), found, first)
  {
    dup, done, found, first := false, false, found0, first0;
    var i := 0;
    while i < SLOTS
      invariant 0 <= i <= SLOTS && !done && !dup
      invariant Scanned(sectors, shortname, needed, SLOTS * sector + i, found, first)
    {
      ghost var e := SLOTS * sector + i;
      assert SlotAt(sectors, e) == buf[i];
      if buf[i][0] != 0 {
        SlotPassed(sectors, shortname, needed, e, found, first);
      }
      if buf[i][0] == 0 {
        EndFound(sectors, shortname, needed, e, found, first, SLOTS * (sector + 1));
        found := found + SLOTS - i;
        i := SLOTS - 1;
        done := true;
      } else if buf[i][0] == FREE_SLOT {
        found := found + 1;
      } else {
        found := 0;
        if buf[i][..11] == shortname {
          return true, false, 0, -1;
        }
      }
      if first < 0 && found >= needed {
        first := sector * SLOTS + i + 1 - found;
      }
      if done {
        return;
      }
      i := i + 1;
    }
  }

  /** Look for free slots, and for an entry that already has the short name. */
  method Search(dir: DirFile, shortname: seq<Byte>, needed: nat) returns (dup: bool, found: nat, first: int, sector: nat)
    requires dir.Valid() && ZeroTailed(dir.sectors) && |shortname| == 11 && needed > 0
    modifies dir`pos, dir`eof,
      dir.file, dir.vol`disk, dir.vol`slots, dir.vol`freecount, dir.vol`nextfree, dir.vol`fat
    ensures dir.Valid() && (dup <==> Taken(dir.sectors, shortname))
    ensures !dup ==> sector <= |dir.sectors| && Complete(dir.sectors, shortname, needed, SLOTS * sector, found, first)
  {
    found, first, sector, dup := 0, -1, 0, false;
    dir.Seek(0);
    while true
      invariant dir.Valid() && dir.pos == sector <= |dir.sectors|
      invariant Scanned(dir.sectors, shortname, needed, SLOTS * sector, found, first)
      decreases |dir.sectors| - sector
    {
      var rc, buf := dir.Read();
      if rc == 0 {
        assert Unfold(0);
        return;
      }
      var done;
      dup, done, found, first := ScanSector(buf, sector, shortname, needed, found, first, dir.sectors);
      if dup {
        return;
      }
      sector := sector + 1;
      if done {
        return;
      }
    }
  }

  function CountAfter(c: int, n: nat): int {
    if n == 0 then c else DosNames.Remainder(CountAfter(c, n - 1) + 1, DosNames.COUNT_LIMIT)
  }

  /** The counter goes up by one each time, and wraps around once. */
  lemma {:induction false} CountsUp(c: int, n: nat)
    requires -DosNames.COUNT_LIMIT < c < DosNames.COUNT_LIMIT && n < DosNames.COUNT_LIMIT
    ensures CountAfter(c, n) == if c + n < DosNames.COUNT_LIMIT then c + n else c + n - DosNames.COUNT_LIMIT
  {
    if n > 0 {
      CountsUp(c, n - 1);
    }
  }

  /** Every name but the first has been made from the one before. */
  ghost predicate Successive(tried: seq<seq<Byte>>) {
    && (forall i | 0 <= i < |tried| :: |tried[i]| == 11)
    && (forall i | 0 < i < |tried| :: tried[i] == DosNames.Randomized(tried[i - 1]))
  }

  lemma {:induction false} CounterOf(tried: seq<seq<Byte>>, i: nat)
    requires Successive(tried) && 1 <= i < |tried|
    ensures DosNames.Counter(tried[i]) == Some(CountAfter(DosNames.NextCounter(tried[0]), i - 1))
  {
    DosNames.RandomizedCounter(tried[i - 1]);
    assert tried[i] == DosNames.Randomized(tried[i - 1]);
    if i > 1 {
      CounterOf(tried, i - 1);
    }
  }

  /** Successive names are different, until ten million of them have been made. */
  lemma TriedAreDistinct(tried: seq<seq<Byte>>, i: nat, j: nat)
    requires Successive(tried) && 1 <= i < j < |tried| <= DosNames.COUNT_LIMIT
    ensures tried[i] != tried[j]
  {
    DosNames.NextCounterFits(tried[0]);
    CounterOf(tried, i);
    CounterOf(tried, j);
    CountsUp(DosNames.NextCounter(tried[0]), i - 1);
    CountsUp(DosNames.NextCounter(tried[0]), j - 1);
  }

  ghost function Names(sectors: seq<DirSector>, n: nat): set<seq<Byte>>
    requires n <= SLOTS * |sectors|
  {
    if n == 0 then {} else Names(sectors, n - 1) + {SlotAt(sectors, n - 1)[..11]}
  }

  lemma {:induction false} NamesAre(sectors: seq<DirSector>, n: nat)
    requires n <= SLOTS * |sectors|
    ensures |Names(sectors, n)| <= n
    ensures forall e | 0 <= e < n :: SlotAt(sectors, e)[..11] in Names(sectors, n)
  {
    if n > 0 {
      NamesAre(sectors, n - 1);
    }
  }

  lemma {:induction false} DistinctInSet(tried: seq<seq<Byte>>, s: set<seq<Byte>>)
    requires forall i | 0 <= i < |tried| :: tried[i] in s
    requires forall i, j | 0 <= i < j < |tried| :: tried[i] != tried[j]
    ensures |tried| <= |s|
  {
    if tried != [] {
      var n := |tried| - 1;
      assert forall i | 0 <= i < n :: tried[..n][i] in s - {tried[n]};
      DistinctInSet(tried[..n], s - {tried[n]});
    }
  }

  /** There are not more restarts than entries. */
  lemma FewRestarts(sectors: seq<DirSector>, tried: seq<seq<Byte>>)
    requires Successive(tried) && |tried| >= 1 && |tried| < DosNames.COUNT_LIMIT
    requires forall i | 0 <= i < |tried| :: Taken(sectors, tried[i])
    ensures |tried| <= SLOTS * |sectors| + 1
  {
    var n := SLOTS * |sectors|;
    NamesAre(sectors, n);
    var rest := tried[1..];
    forall i | 0 <= i < |rest|
      ensures rest[i] in Names(sectors, n)
    {
      assert rest[i] == tried[i + 1] && Taken(sectors, tried[i + 1]);
    }
    forall i, j | 0 <= i < j < |rest|
      ensures rest[i] != rest[j]
    {
      TriedAreDistinct(tried, i + 1, j + 1);
    }
    DistinctInSet(rest, Names(sectors, n));
  }

  /** The short names tried so far are taken, the next one comes from the last of them, and the first was `shortname0`. */
  ghost predicate Tries(sectors: seq<DirSector>, shortname0: seq<Byte>, tried: seq<seq<Byte>>, shortname: seq<Byte>) {
    && |shortname| == 11 && |tried| <= SLOTS * |sectors| + 1
    && forall k {:trigger Unfold(k)} | Unfold(k) ::
         && Successive(tried + [shortname]) && (forall i | 0 <= i < |tried| :: Taken(sectors, tried[i]))
         && (if tried == [] then shortname == shortname0 else tried[0] == shortname0)
         && |shortname0| == 11 && (shortname == shortname0 || DosNames.Marked(shortname0, shortname))
  }

  lemma TryNext(sectors: seq<DirSector>, shortname0: seq<Byte>, tried: seq<seq<Byte>>, shortname: seq<Byte>)
    requires Tries(sectors, shortname0, tried, shortname) && Taken(sectors, shortname) && |sectors| <= DIR_LIMIT
    ensures Tries(sectors, shortname0, tried + [shortname], DosNames.Randomized(shortname))
  {
    var now := tried + [shortname];
    assert Unfold(0);
    FewRestarts(sectors, now);
    DosNames.MarkedOn(shortname0, shortname);
    assert forall i | 0 <= i < |now| :: Taken(sectors, now[i]);
    assert now[0] == shortname0;
  }

  /** The search with its restarts: it ends, with a short name that no entry has. */
  method FindSlots(dir: DirFile, shortname0: seq<Byte>, needed: nat)
    returns (shortname: seq<Byte>, found: nat, first: int, sector: nat)
    requires dir.Valid() && ZeroTailed(dir.sectors) && |shortname0| == 11 && needed > 0 && |dir.sectors| <= DIR_LIMIT
    modifies dir`pos, dir`eof,
      dir.file, dir.vol`disk, dir.vol`slots, dir.vol`freecount, dir.vol`nextfree, dir.vol`fat
    ensures dir.Valid() && |shortname| == 11 && !Taken(dir.sectors, shortname)
    ensures !Taken(dir.sectors, shortname0) ==> shortname == shortname0
    ensures shortname == shortname0 || DosNames.Marked(shortname0, shortname)
    ensures shortname[8..] == shortname0[8..] && (shortname[0] == shortname0[0] || shortname[0] == 126)
    ensures sector <= |dir.sectors| && Complete(dir.sectors, shortname, needed, SLOTS * sector, found, first)
  {
    shortname := shortname0;
    ghost var tried := [];
    while true
      invariant dir.Valid() && Tries(dir.sectors, shortname0, tried, shortname)
      decreases SLOTS * |dir.sectors| + 1 - |tried|
    {
      var dup;
      dup, found, first, sector := Search(dir, shortname, needed);
      if !dup {
        assert Unfold(0);
        MarkedHead(shortname0, shortname);
        return;
      }
      TryNext(dir.sectors, shortname0, tried, shortname);
      tried := tried + [shortname];
      shortname := DosNames.RandomizeDosName(shortname);
    }
  }

  /** A marked name begins as the name it comes from, or with the tilde. */
  lemma MarkedHead(name: seq<Byte>, r: seq<Byte>)
    requires |name| == |r| == 11 && (r == name || DosNames.Marked(name, r))
    ensures r[8..] == name[8..] && (r[0] == name[0] || r[0] == 126)
  {
    var k := DosNames.TildeAt(r, 0);
    if r != name && k > 0 {
      assert r[..k][0] == name[..k][0];
    }
  }

  /** The directory after zero sectors have been written from sector `from` up to `to`. */
  ghost predicate Extended(old0: seq<DirSector>, now: seq<DirSector>, from: int, to: int) {
    && 0 <= from <= |old0| <= |now| && from <= to <= |now|
    && (forall s | 0 <= s < from :: now[s] == old0[s])
    && (forall s | from <= s < to :: now[s] == EmptySector())
    && (|now| == |old0| ==> forall s | to <= s < |now| :: now[s] == old0[s])
    && (|now| != |old0| ==> |old0| <= to)
  }

  lemma ExtendedSlots(old0: seq<DirSector>, now: seq<DirSector>, from: int, to: int, shortname: seq<Byte>, needed: nat,
                      found: int)
    requires Extended(old0, now, from, to) && (|now| == |old0| || to == |now|)
    requires Complete(old0, shortname, needed, SLOTS * from, found, -1) && found + SLOTS * (to - from) >= needed
    ensures forall e | 0 <= e < SLOTS * from :: SlotAt(now, e) == SlotAt(old0, e)
    ensures forall e | SLOTS * from <= e < SLOTS * |now| :: SlotAt(now, e)[0] == 0
    ensures FreeRun(now, SLOTS * from - found, SLOTS * from - found + needed) && NoEnd(now, SLOTS * from - found)
  {
    forall e | 0 <= e < SLOTS * from
      ensures SlotAt(now, e) == SlotAt(old0, e)
    {
    }
    forall e | SLOTS * from <= e < SLOTS * |now|
      ensures SlotAt(now, e)[0] == 0
    {
      if e / SLOTS >= to {
        assert SlotAt(now, e) == SlotAt(old0, e);
      }
    }
    forall e | SLOTS * from - found <= e < SLOTS * from - found + needed
      ensures IsFree(SlotAt(now, e))
    {
      if e < SLOTS * from {
        assert SlotAt(now, e) == SlotAt(old0, e) && IsFree(SlotAt(old0, e));
      }
    }
    forall e | 0 <= e < SLOTS * from - found
      ensures SlotAt(now, e)[0] != 0
    {
      assert SlotAt(now, e) == SlotAt(old0, e);
    }
  }

  /** The same when the extension could not be completed: what is new and below slot `limit` is zero. */
  lemma ExtendedSoFar(old0: seq<DirSector>, now: seq<DirSector>, from: int, to: int, shortname: seq<Byte>, needed: nat,
                      found: int, limit: int)
    requires Extended(old0, now, from, to) && Complete(old0, shortname, needed, SLOTS * from, found, -1)
    requires |now| == |old0| || limit <= SLOTS * to
    ensures forall e | 0 <= e < SLOTS * from :: SlotAt(now, e) == SlotAt(old0, e)
    ensures forall e | SLOTS * from <= e < SLOTS * |now| && e < limit :: SlotAt(now, e)[0] == 0
  {
    forall e | 0 <= e < SLOTS * from
      ensures SlotAt(now, e) == SlotAt(old0, e)
    {
    }
    forall e | SLOTS * from <= e < SLOTS * |now| && e < limit
      ensures SlotAt(now, e)[0] == 0
    {
      if e / SLOTS >= to {
        assert SlotAt(now, e) == SlotAt(old0, e);
      }
    }
  }

  /** Add zero sectors to the directory until there is room, and up to the end of a cluster. */
  method Extend(dir: DirFile, sector0: nat, found0: nat, needed: nat, ghost shortname: seq<Byte>)
    returns (rc: int, first: int)
    requires dir.Valid() && sector0 <= |dir.sectors| <= DIR_LIMIT
    requires Complete(dir.sectors, shortname, needed, SLOTS * sector0, found0, -1)
    modifies dir`pos, dir`eof, dir`sectors, dir`room,
      dir.file, dir.vol`disk, dir.vol`slots, dir.vol`freecount, dir.vol`nextfree, dir.vol`fat
    ensures dir.Valid() && |old(dir.sectors)| <= |dir.sectors| && rc in {0, -5, -26}
    ensures (rc == -5 ==> |dir.sectors| >= DIR_LIMIT) && (rc == -26 ==> dir.room == 0)
    ensures rc == -5 && DIR_LIMIT % dir.perCluster == 0 ==> |dir.sectors| == DIR_LIMIT
    ensures rc != 0 ==> forall e | SLOTS * sector0 <= e < SLOTS * |dir.sectors| && (rc == -26 || e < SLOTS * DIR_LIMIT) ::
      SlotAt(dir.sectors, e)[0] == 0
    ensures forall e | 0 <= e < SLOTS * sector0 :: SlotAt(dir.sectors, e) == SlotAt(old(dir.sectors), e)
    ensures rc == 0 ==> forall e | SLOTS * sector0 <= e < SLOTS * |dir.sectors| :: SlotAt(dir.sectors, e)[0] == 0
    ensures rc == 0 ==> FreeRun(dir.sectors, first, first + needed) && NoEnd(dir.sectors, first)
    ensures rc == 0 ==> first == SLOTS * sector0 - found0
  {
    ghost var old0 := dir.sectors;
    var sector, found := sector0, found0;
    dir.Seek(sector);
    while found < needed || dir.SectorNum() < dir.perCluster
      invariant dir.Valid() && !dir.eof && dir.pos == sector && sector0 <= sector && found == found0 + SLOTS * (sector - sector0)
      invariant Extended(old0, dir.sectors, sector0, sector)
      invariant |dir.sectors| == |old0| || |dir.sectors| < sector + dir.perCluster
      invariant sector <= DIR_LIMIT
      decreases DIR_LIMIT - sector
    {
      if sector >= DIR_LIMIT {
        ExtendedSoFar(old0, dir.sectors, sector0, sector, shortname, needed, found0, SLOTS * DIR_LIMIT);
        dir.WholeClusters();
        if DIR_LIMIT % dir.perCluster == 0 {
          NoMultipleBetween(DIR_LIMIT, |dir.sectors|, dir.perCluster);
        }
        return -5, -1;
      }
      ghost var junk;
      rc, junk := dir.Write(EmptySector());
      if rc < 1 {
        ExtendedSoFar(old0, dir.sectors, sector0, sector, shortname, needed, found0, SLOTS * |dir.sectors|);
        return rc * 10 - 6, -1;
      }
      found := found + SLOTS;
      sector := sector + 1;
    }
    ClusterEnd(dir.pos, dir.perCluster);
    dir.WholeClusters();
    if |dir.sectors| != |old0| {
      NoMultipleBetween(dir.pos, |dir.sectors|, dir.perCluster);
    }
    ExtendedSlots(old0, dir.sectors, sector0, sector, shortname, needed, found0);
    return 0, sector * SLOTS - found;
  }

  lemma ClusterEnd(pos: nat, perCluster: nat)
    requires 0 < perCluster && pos > 0 && (pos - 1) % perCluster + 1 >= perCluster
    ensures pos % perCluster == 0
  {
    var q := (pos - 1) / perCluster;
    assert pos - 1 == perCluster * q + (perCluster - 1);
    Distribute(perCluster, q + 1, q);
    Multiple(pos, perCluster, q + 1);
  }

  /** The slots are the same, or neither has ever been used. */
  predicate SameSlot(s: Slot, t: Slot) {
    s == t || (s[0] == 0 && t[0] == 0)
  }

  /** The slots of `st`, which were free, are in `now`; all others are as before, and new ones have never been used. */
  ghost predicate Added(before: seq<DirSector>, now: seq<DirSector>, st: Stored) {
    && st.Ok() && |before| <= |now| && st.start <= SLOTS * |before| && st.start + SlotsFor(st.name) <= SLOTS * |now|
    && (forall e | st.start <= e < st.start + SlotsFor(st.name) ::
          SlotAt(now, e) == NameSlot(st.name, st.shortname, st.isDirectory, st.stamp, e - st.start))
    && (forall e | 0 <= e < SLOTS * |before| ::
          if st.start <= e < st.start + SlotsFor(st.name) then IsFree(SlotAt(before, e))
          else SameSlot(SlotAt(before, e), SlotAt(now, e)))
    && (forall e | SLOTS * |before| <= e < SLOTS * |now| && !(st.start <= e < st.start + SlotsFor(st.name)) ::
          SlotAt(now, e)[0] == 0)
  }

  /** What has been found or added before the name is written: a run of free slots; the others are as before. */
  ghost predicate Prepared(before: seq<DirSector>, mid: seq<DirSector>, first: int, needed: int) {
    && |before| <= |mid| && FreeRun(mid, first, first + needed) && NoEnd(mid, first) && ZeroTailed(mid)
    && first <= SLOTS * |before|
    && (forall e | 0 <= e < SLOTS * |before| :: SameSlot(SlotAt(before, e), SlotAt(mid, e)))
    && (forall e | SLOTS * |before| <= e < SLOTS * |mid| :: SlotAt(mid, e)[0] == 0)
  }

  lemma WritingAdds(before: seq<DirSector>, mid: seq<DirSector>, now: seq<DirSector>, st: Stored)
    requires st.Ok() && Prepared(before, mid, st.start, SlotsFor(st.name)) && |now| == |mid|
    requires st.shortname[0] != 0 && st.shortname[0] != FREE_SLOT
    requires forall e | 0 <= e < SLOTS * |mid| :: SlotAt(now, e) == st.After(SlotAt(mid, e), SlotsFor(st.name), e)
    ensures Added(before, now, st) && ZeroTailed(now)
  {
    var n := SlotsFor(st.name);
    forall e | st.start <= e < st.start + n
      ensures SlotAt(now, e) == NameSlot(st.name, st.shortname, st.isDirectory, st.stamp, e - st.start)
      ensures SlotAt(now, e)[0] != 0
    {
      assert SlotAt(now, e) == st.After(SlotAt(mid, e), n, e);
      NameSlotInUse(st, e - st.start);
    }
    forall e | 0 <= e < SLOTS * |mid| && !(st.start <= e < st.start + n)
      ensures SlotAt(now, e) == SlotAt(mid, e)
    {
      assert SlotAt(now, e) == st.After(SlotAt(mid, e), n, e);
    }
    forall e, f | 0 <= e < f < SLOTS * |now| && SlotAt(now, e)[0] == 0
      ensures SlotAt(now, f)[0] == 0
    {
      assert SlotAt(mid, e)[0] == 0 && e >= st.start + n;
    }
    forall e | 0 <= e < SLOTS * |before|
      ensures if st.start <= e < st.start + n then IsFree(SlotAt(before, e)) else SameSlot(SlotAt(before, e), SlotAt(now, e))
    {
      assert SameSlot(SlotAt(before, e), SlotAt(mid, e));
    }
  }

  lemma NameSlotInUse(st: Stored, i: int)
    requires st.Ok() && st.shortname[0] != 0 && st.shortname[0] != FREE_SLOT && 0 <= i < SlotsFor(st.name)
    ensures !IsFree(NameSlot(st.name, st.shortname, st.isDirectory, st.stamp, i))
  {
    if i < SlotsFor(st.name) - 1 {
      var longs := SlotsFor(st.name) - 1;
      LongSlotInUse(st.name, NAME_CHARS * (longs - 1 - i), longs - i, i == 0, Checksum(st.shortname));
    }
  }

  lemma LongSlotInUse(name: seq<Byte>, at: nat, order: nat, first: bool, chksum: Byte)
    requires 1 <= order <= MAX_ORDER
    ensures !IsFree(LongSlot(name, at, order, first, chksum))
  {
  }

  /** Slots found without extending the directory, or by extending it. */
  lemma ExtensionPrepares(before: seq<DirSector>, mid: seq<DirSector>, shortname: seq<Byte>, needed: nat, sector: nat,
                          found: int, first: int)
    requires sector <= |before| <= |mid| && Complete(before, shortname, needed, SLOTS * sector, found, -1)
    requires forall e | 0 <= e < SLOTS * sector :: SlotAt(mid, e) == SlotAt(before, e)
    requires forall e | SLOTS * sector <= e < SLOTS * |mid| :: SlotAt(mid, e)[0] == 0
    requires FreeRun(mid, first, first + needed) && NoEnd(mid, first) && ZeroTailed(before)
    ensures Prepared(before, mid, first, needed)
  {
    forall e, f | 0 <= e < f < SLOTS * |mid| && SlotAt(mid, e)[0] == 0
      ensures SlotAt(mid, f)[0] == 0
    {
      if f < SLOTS * sector {
        assert SlotAt(mid, e) == SlotAt(before, e) && SlotAt(mid, f) == SlotAt(before, f);
      }
    }
    assert SLOTS * sector < SLOTS * |mid| ==> SlotAt(mid, SLOTS * sector)[0] == 0;
    forall e | 0 <= e < SLOTS * |before|
      ensures SameSlot(SlotAt(before, e), SlotAt(mid, e))
    {
      assert e < SLOTS * sector ==> SlotAt(mid, e) == SlotAt(before, e);
    }
  }

  /** In the sectors below `limit` no slot is in use that was not before. */
  ghost predicate NoneAdded(before: seq<DirSector>, now: seq<DirSector>, limit: int) {
    forall e | 0 <= e < SLOTS * |now| && e < SLOTS * limit && !IsFree(SlotAt(now, e)) ::
      e < SLOTS * |before| && SlotAt(now, e) == SlotAt(before, e)
  }

  lemma ExtensionStopped(before: seq<DirSector>, now: seq<DirSector>, sector: nat, limit: int)
    requires sector <= |before| <= |now| && ZeroTailed(before) && |before| <= limit
    requires forall e | 0 <= e < SLOTS * sector :: SlotAt(now, e) == SlotAt(before, e)
    requires forall e | SLOTS * sector <= e < SLOTS * |now| && e < SLOTS * limit :: SlotAt(now, e)[0] == 0
    ensures NoneAdded(before, now, limit)
    ensures |now| <= limit ==> ZeroTailed(now)
  {
    if |now| <= limit {
      forall e, f | 0 <= e < f < SLOTS * |now| && SlotAt(now, e)[0] == 0
        ensures SlotAt(now, f)[0] == 0
      {
        if f < SLOTS * sector {
          assert SlotAt(now, e) == SlotAt(before, e) && SlotAt(now, f) == SlotAt(before, f);
        }
      }
    }
  }

  /** add_dir_entry, for a name that has been checked and its short form. If it succeeds, exactly the slots of the new
      entry are added to those in use, under a short name that no entry had; otherwise the entries are as before, and
      none has been added except perhaps behind the 65536 slots that a directory may have. */
  method AddDirEntry(dir: DirFile, name: seq<Byte>, shortname0: seq<Byte>, isDirectory: bool, stamp: seq<Byte>)
    returns (rc: int, first: int, shortname: seq<Byte>)
    requires dir.Valid() && ZeroTailed(dir.sectors) && |dir.sectors| <= DIR_LIMIT
    requires 1 <= |name| <= 255 && |shortname0| == 11 && shortname0[0] != 0 && shortname0[0] != FREE_SLOT && |stamp| == 5
    modifies dir`pos, dir`eof, dir`sectors, dir`room,
      dir.file, dir.vol`disk, dir.vol`slots, dir.vol`freecount, dir.vol`nextfree, dir.vol`fat
    ensures dir.Valid() && rc in {0, -5, -26} && |old(dir.sectors)| <= |dir.sectors|
    ensures (rc == -5 ==> 16 * |dir.sectors| >= 65536) && (rc == -26 ==> dir.room == 0)
    ensures |shortname| == 11 && !Taken(old(dir.sectors), shortname)
    ensures !Taken(old(dir.sectors), shortname0) ==> shortname == shortname0
    ensures shortname == shortname0 || DosNames.Marked(shortname0, shortname)
    ensures shortname[8..] == shortname0[8..] && shortname[0] != 0 && shortname[0] != FREE_SLOT
    ensures rc == 0 ==> 0 <= first
    ensures rc == 0 || rc == -26 || DIR_LIMIT % dir.perCluster == 0 ==> ZeroTailed(dir.sectors)
    ensures rc == 0 ==> Added(old(dir.sectors), dir.sectors, Stored(first, name, shortname, isDirectory, stamp))
    ensures rc != 0 ==> NoneAdded(old(dir.sectors), dir.sectors, if rc == -26 then |dir.sectors| else DIR_LIMIT)
    ensures forall e | 0 <= e < SLOTS * |old(dir.sectors)| && !IsFree(SlotAt(old(dir.sectors), e)) ::
      SlotAt(dir.sectors, e) == SlotAt(old(dir.sectors), e)
  {
    ghost var before := dir.sectors;
    var needed := (|name| + (NAME_CHARS - 1)) / NAME_CHARS + 1;
    var found, sector;
    shortname, found, first, sector := FindSlots(dir, shortname0, needed);
    rc := 0;
    if first < 0 {
      rc, first := Extend(dir, sector, found, needed, shortname);
      if rc < 0 {
        ExtensionStopped(before, dir.sectors, sector, if rc == -26 then |dir.sectors| else DIR_LIMIT);
        return;
      }
      ExtensionPrepares(before, dir.sectors, shortname, needed, sector, found, first);
    }

    ghost var mid, st := dir.sectors, Stored(first, name, shortname, isDirectory, stamp);
    WriteLongName(dir, first, needed, name, shortname, isDirectory, stamp);
    WritingAdds(before, mid, dir.sectors, st);
  }

  /** An added entry is what fat_getnext returns from its first slot on. */
  lemma AddedIsReadBack(before: seq<DirSector>, now: seq<DirSector>, st: Stored, longname: seq<Byte>)
    requires Added(before, now, st) && IsName(st.name) && st.shortname[0] != 0 && st.shortname[0] != FREE_SLOT
    requires |longname| == DirReader.LONGNAME_SIZE
    ensures DirReader.Next(now, st.start, DirReader.Scan(0, 0, longname, 0)) ==
      DirReader.Entry(st.name, if st.isDirectory then ATTR_DIRECTORY else 0, st.start + SlotsFor(st.name), SlotsFor(st.name))
  {
    forall i | 0 <= i < SlotsFor(st.name)
      ensures SlotAt(now, st.start + i) == NameSlot(st.name, st.shortname, st.isDirectory, st.stamp, i)
    {
      var e := st.start + i;
      assert SlotAt(now, e) == NameSlot(st.name, st.shortname, st.isDirectory, st.stamp, e - st.start);
    }
    DirReader.NameIsReadBack(now, st, longname);
  }
}
