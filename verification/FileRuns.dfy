/** Whole runs of read, write and lseek calls on one open file, and what they mean for other open files. */
module FileRuns {
  import opened Folding
  import opened Options
  import opened Sectors
  import opened Geometry
  import opened FatTable
  import opened Chains
  import opened FatIo
  import opened FileContents
  import opened ByteFile

  /** What an open file is meant to be: an array of bytes and a position in it, which may be opened for writing; or a
      directory, which cannot be read or written this way. */
  datatype ByteArray = ByteArray(bytes: seq<Byte>, pos: int, writable: bool, directory: bool)

  /** A call; `address` is where its buffer lies in memory, which decides how whole sectors are moved. */
  datatype Call =
    | ReadCall(count: nat, address: nat)
    | WriteCall(data: seq<Byte>, address: nat)
    | SeekCall(offset: int, whence: int)

  /** Its result: the return value, and the bytes a read delivers. */
  datatype Reply = Reply(value: int, data: seq<Byte>)

  /** One call on a byte array. */
  ghost function Step(a: ByteArray, q: Call): (ByteArray, Reply)
    requires 0 <= a.pos <= |a.bytes|
  {
    match q
    case ReadCall(count, _) =>
      var n := Min(count, |a.bytes| - a.pos);
      if a.directory then (a, Reply(-1, [])) else (a.(pos := a.pos + n), Reply(n, a.bytes[a.pos..a.pos + n]))
    case WriteCall(data, _) =>
      if a.directory || !a.writable then (a, Reply(-1, []))
      else (a.(bytes := Splice(a.bytes, a.pos, data), pos := a.pos + |data|), Reply(|data|, []))
    case SeekCall(offset, whence) =>
      match Target(a.pos, |a.bytes|, offset, whence)
      case None => (a, Reply(-2, []))
      case Some(pos) =>
        if 0 <= pos <= |a.bytes| then (a.(pos := pos), Reply(pos, [])) else (a, Reply(-3, []))
  }

  /** A run of calls on a byte array. */
  ghost function Run(a: ByteArray, calls: seq<Call>): (r: (ByteArray, seq<Reply>))
    requires 0 <= a.pos <= |a.bytes|
    ensures 0 <= r.0.pos <= |r.0.bytes| && |r.1| == |calls|
  {
    if calls == [] then (a, []) else
      var (a1, replies) := Run(a, calls[..|calls| - 1]);
      var (a2, reply) := Step(a1, calls[|calls| - 1]);
      (a2, replies + [reply])
  }

  /** The array never becomes longer than `cap`. */
  ghost predicate Fits(a: ByteArray, calls: seq<Call>, cap: int)
    requires 0 <= a.pos <= |a.bytes|
  {
    forall i | 0 <= i <= |calls| :: |Run(a, calls[..i]).0.bytes| <= cap
  }

  lemma RunNext(a: ByteArray, calls: seq<Call>, i: int)
    requires 0 <= a.pos <= |a.bytes| && 0 <= i < |calls|
    ensures var (a1, replies) := Run(a, calls[..i]); var (a2, reply) := Step(a1, calls[i]);
      Run(a, calls[..i + 1]) == (a2, replies + [reply])
  {
    assert calls[..i + 1][..i] == calls[..i];
  }

  /** The state of a handle as a byte array. */
  ghost function Abstract(h: FileDesc): ByteArray
    reads h
  {
    ByteArray(h.contents, h.fileoffset, h.write, h.directory)
  }

  /** How many bytes the file can have on this volume. */
  ghost function Room(h: FileDesc): int
    reads h.vol, h.fatfile
  {
    SECTOR_SIZE * Reach(h.vol.g, h.vol.fat, h.fatfile.chain)
  }

  /** Whatever is dirty lies inside the file, so on a file that fits it can be written back. */
  lemma DirtyIsInside(h: FileDesc)
    requires h.Valid() && h.dirty
    ensures SECTOR_SIZE * (h.fileoffset / SECTOR_SIZE) < |h.contents|
  {
    assert Open(0);
    h.Within(h.contents, h.fileoffset);
  }

  lemma PatchedPrefix(b: seq<Byte>, b': seq<Byte>, data: seq<Byte>)
    requires |data| <= |b| && b' == Patched(b, 0, data)
    ensures b'[..|data|] == data
  {
  }

  /** The calls on a byte array, put so that the ways they go on a handle fit. */
  lemma ReadStep(a: ByteArray, count: nat, address: nat, r: int)
    requires 0 <= a.pos <= |a.bytes| && r == if a.directory then -1 else Min(count, |a.bytes| - a.pos)
    ensures Step(a, ReadCall(count, address)) ==
      if r < 0 then (a, Reply(r, [])) else (a.(pos := a.pos + r), Reply(r, a.bytes[a.pos..a.pos + r]))
  {
  }

  lemma WriteStep(a: ByteArray, data: seq<Byte>, address: nat, bytes: seq<Byte>)
    requires 0 <= a.pos <= |a.bytes| && a.writable && !a.directory && bytes == Splice(a.bytes, a.pos, data)
    ensures Step(a, WriteCall(data, address)) == (a.(bytes := bytes, pos := a.pos + |data|), Reply(|data|, []))
  {
  }

  lemma NoWriteStep(a: ByteArray, data: seq<Byte>, address: nat)
    requires 0 <= a.pos <= |a.bytes| && !(a.writable && !a.directory)
    ensures Step(a, WriteCall(data, address)) == (a, Reply(-1, []))
  {
  }

  /** Read into a buffer of one's own. */
  method ReadOut(h: FileDesc, count: nat, address: nat) returns (r: int, data: seq<Byte>)
    requires h.Valid()
    modifies h`contents, h`dirty, h`cacheoffset, h`fileoffset, h`size,
      h.cache, h.fatfile, h.vol`disk, h.vol`slots, h.vol`freecount, h.vol`nextfree, h.vol`fat
    ensures h.Valid() && h.contents == old(h.contents) && (old(h.vol.Counted()) ==> h.vol.Counted())
    ensures OnlyThisFile(h.vol.g, old(h.vol.fat), old(h.fatfile.chain), old(h.vol.disk), h.vol.fat, h.fatfile.chain, h.vol.disk)
    ensures r == if h.directory then -1 else Min(count, |h.contents| - old(h.fileoffset))
    ensures h.fileoffset == if r < 0 then old(h.fileoffset) else old(h.fileoffset) + r
    ensures data == if r < 0 then [] else h.contents[old(h.fileoffset)..old(h.fileoffset) + r]
  {
    var buf := new Byte[count](_ => 0);
    ghost var pos, b := h.fileoffset, buf[..];
    r := h.Read(buf, count, address);
    data := [];
    if r >= 0 {
      PatchedPrefix(b, buf[..], h.contents[pos..pos + r]);
      data := buf[..][..r];
    }
  }

  method ServeRead(h: FileDesc, count: nat, address: nat) returns (reply: Reply)
    requires h.Valid()
    modifies h`contents, h`dirty, h`cacheoffset, h`fileoffset, h`size,
      h.cache, h.fatfile, h.vol`disk, h.vol`slots, h.vol`freecount, h.vol`nextfree, h.vol`fat
    ensures h.Valid() && (old(h.vol.Counted()) ==> h.vol.Counted())
    ensures (Abstract(h), reply) == Step(old(Abstract(h)), ReadCall(count, address))
    ensures OnlyThisFile(h.vol.g, old(h.vol.fat), old(h.fatfile.chain), old(h.vol.disk), h.vol.fat, h.fatfile.chain, h.vol.disk)
  {
    ghost var a := Abstract(h);
    var r, data := ReadOut(h, count, address);
    ReadStep(a, count, address, r);
    reply := Reply(r, data);
  }

  method BufferOf(data: seq<Byte>) returns (buf: array<Byte>)
    ensures fresh(buf) && buf[..] == data
  {
    buf := new Byte[|data|](i requires 0 <= i < |data| => data[i]);
  }

  lemma RoomSuffices(n: int, sectors: int)
    requires 0 <= n <= SECTOR_SIZE * sectors
    ensures n / SECTOR_SIZE <= sectors
  {
  }

  /** A write that the volume has room for. */
  method WriteFits(h: FileDesc, buf: array<Byte>, address: nat)
    requires h.Valid() && h.write && !h.directory && buf != h.cache
    requires h.fileoffset + buf.Length <= Room(h)
    modifies h`contents, h`dirty, h`cacheoffset, h`fileoffset, h`size,
      h.cache, buf, h.fatfile, h.vol`disk, h.vol`slots, h.vol`freecount, h.vol`nextfree, h.vol`fat
    ensures h.Valid() && (old(h.vol.Counted()) ==> h.vol.Counted())
    ensures h.fileoffset == old(h.fileoffset) + buf.Length
    ensures h.contents == Splice(old(h.contents), old(h.fileoffset), old(buf[..]))
    ensures OnlyThisFile(h.vol.g, old(h.vol.fat), old(h.fatfile.chain), old(h.vol.disk), h.vol.fat, h.fatfile.chain, h.vol.disk)
  {
    RoomSuffices(h.fileoffset + buf.Length, Reach(h.vol.g, h.vol.fat, h.fatfile.chain));
    var r := h.Write(buf, buf.Length, address);
    assert buf[..buf.Length] == buf[..];
  }

  method ServeWrite(h: FileDesc, data: seq<Byte>, address: nat) returns (reply: Reply)
    requires h.Valid()
    requires h.write && !h.directory ==> |Splice(h.contents, h.fileoffset, data)| <= Room(h)
    modifies h`contents, h`dirty, h`cacheoffset, h`fileoffset, h`size,
      h.cache, h.fatfile, h.vol`disk, h.vol`slots, h.vol`freecount, h.vol`nextfree, h.vol`fat
    ensures h.Valid() && (old(h.vol.Counted()) ==> h.vol.Counted())
    ensures (Abstract(h), reply) == Step(old(Abstract(h)), WriteCall(data, address))
    ensures OnlyThisFile(h.vol.g, old(h.vol.fat), old(h.fatfile.chain), old(h.vol.disk), h.vol.fat, h.fatfile.chain, h.vol.disk)
  {
    ghost var a := Abstract(h);
    var buf := BufferOf(data);
    if h.write && !h.directory {
      WriteFits(h, buf, address);
      reply := Reply(|data|, []);
      WriteStep(a, data, address, h.contents);
    } else {
      var r := h.Write(buf, |data|, address);
      reply := Reply(r, []);
      NoWriteStep(a, data, address);
    }
  }

  method ServeSeek(h: FileDesc, offset: int, whence: int) returns (reply: Reply)
    requires h.Valid() && |h.contents| <= Room(h)
    modifies h`dirty, h`cacheoffset, h`fileoffset,
      h.cache, h.fatfile, h.vol`disk, h.vol`slots, h.vol`freecount, h.vol`nextfree, h.vol`fat
    ensures h.Valid() && (old(h.vol.Counted()) ==> h.vol.Counted())
    ensures (Abstract(h), reply) == Step(old(Abstract(h)), SeekCall(offset, whence))
    ensures OnlyThisFile(h.vol.g, old(h.vol.fat), old(h.fatfile.chain), old(h.vol.disk), h.vol.fat, h.fatfile.chain, h.vol.disk)
  {
    if h.dirty {
      DirtyIsInside(h);
    }
    var r := h.Lseek(offset, whence);
    reply := Reply(r, []);
  }

  /** One call does to the handle what it does to the byte array. */
  method Serve(h: FileDesc, q: Call) returns (reply: Reply)
    requires h.Valid()
    requires |h.contents| <= Room(h) && |Step(Abstract(h), q).0.bytes| <= Room(h)
    modifies h`contents, h`dirty, h`cacheoffset, h`fileoffset, h`size,
      h.cache, h.fatfile, h.vol`disk, h.vol`slots, h.vol`freecount, h.vol`nextfree, h.vol`fat
    ensures h.Valid() && (old(h.vol.Counted()) ==> h.vol.Counted()) && Room(h) == old(Room(h))
    ensures (Abstract(h), reply) == Step(old(Abstract(h)), q)
    ensures OnlyThisFile(h.vol.g, old(h.vol.fat), old(h.fatfile.chain), old(h.vol.disk), h.vol.fat, h.fatfile.chain, h.vol.disk)
  {
    match q {
      case ReadCall(count, address) => reply := ServeRead(h, count, address);
      case WriteCall(data, address) => reply := ServeWrite(h, data, address);
      case SeekCall(offset, whence) => reply := ServeSeek(h, offset, whence);
    }
    SameReach(h.vol.g, old(h.vol.fat), old(h.fatfile.chain), old(h.vol.disk), h.vol.fat, h.fatfile.chain, h.vol.disk);
  }

  /** Any run of calls on a handle returns what it returns on a byte array, as long as the file fits the volume. */
  method ServeAll(h: FileDesc, calls: seq<Call>) returns (replies: seq<Reply>)
    requires h.Valid() && Fits(Abstract(h), calls, Room(h))
    modifies h`contents, h`dirty, h`cacheoffset, h`fileoffset, h`size,
      h.cache, h.fatfile, h.vol`disk, h.vol`slots, h.vol`freecount, h.vol`nextfree, h.vol`fat
    ensures h.Valid() && (Abstract(h), replies) == Run(old(Abstract(h)), calls)
    ensures OnlyThisFile(h.vol.g, old(h.vol.fat), old(h.fatfile.chain), old(h.vol.disk), h.vol.fat, h.fatfile.chain, h.vol.disk)
    ensures old(h.vol.Counted()) ==> h.vol.Counted()
  {
    ghost var a0, room, fat0, chain0, disk0 := Abstract(h), Room(h), h.vol.fat, h.fatfile.chain, h.vol.disk;
    replies := [];
    h.Untouched();
    for i := 0 to |calls|
      invariant h.Valid() && Room(h) == room && (old(h.vol.Counted()) ==> h.vol.Counted())
      invariant (Abstract(h), replies) == Run(a0, calls[..i]) && |h.contents| <= room
      invariant OnlyThisFile(h.vol.g, fat0, chain0, disk0, h.vol.fat, h.fatfile.chain, h.vol.disk)
    {
      RunNext(a0, calls, i);
      ghost var fat1, chain1, disk1 := h.vol.fat, h.fatfile.chain, h.vol.disk;
      var reply := Serve(h, calls[i]);
      TwoOperations(h.vol.g, fat0, chain0, disk0, fat1, chain1, disk1, h.vol.fat, h.fatfile.chain, h.vol.disk);
      replies := replies + [reply];
    }
    assert calls[..|calls|] == calls;
  }

  lemma SeekStep(a: ByteArray, offset: int, whence: int)
    requires 0 <= a.pos <= |a.bytes| && 0 <= whence <= 2
    ensures var pos := offset + (if whence == 0 then 0 else if whence == 1 then a.pos else |a.bytes|);
      Step(a, SeekCall(offset, whence)) ==
      if 0 <= pos <= |a.bytes| then (a.(pos := pos), Reply(pos, [])) else (a, Reply(-3, []))
  {
  }

  lemma {:induction false} RunTwo(a: ByteArray, p: Call, q: Call, b: ByteArray, first: Reply, c: ByteArray, second: Reply)
    requires 0 <= a.pos <= |a.bytes| && 0 <= b.pos <= |b.bytes|
    requires Step(a, p) == (b, first) && Step(b, q) == (c, second)
    ensures Run(a, [p, q]) == (c, [first, second])
  {
    RunNext(a, [p, q], 0);
    RunNext(a, [p, q], 1);
    assert [p, q][..0] == [] && [p, q][..1 + 1] == [p, q];
    assert Run(a, []) == (a, []);
    var none: seq<Reply> := [];
    assert none + [first] == [first] && [first] + [second] == [first, second];
  }

  /** A seek by `-k` from the end and a read of `k` bytes deliver the last `k` bytes of the file. */
  lemma LastBytes(a: ByteArray, k: int, address: nat)
    requires 0 <= a.pos <= |a.bytes| && !a.directory && 0 <= k <= |a.bytes|
    ensures var size := |a.bytes|;
      Run(a, [SeekCall(-k, 2), ReadCall(k, address)])
      == (a.(pos := size), [Reply(size - k, []), Reply(k, a.bytes[size - k..])])
  {
    var size := |a.bytes|;
    SeekStep(a, -k, 2);
    var b := a.(pos := size - k);
    ReadStep(b, k, address, k);
    assert a.bytes[size - k..size] == a.bytes[size - k..];
    RunTwo(a, SeekCall(-k, 2), ReadCall(k, address), b, Reply(size - k, []), a.(pos := size), Reply(k, a.bytes[size - k..]));
  }

  /** A seek from the start lands at its offset, and a read then delivers the bytes from there. */
  lemma BytesAt(a: ByteArray, offset: int, k: nat, address: nat)
    requires 0 <= a.pos <= |a.bytes| && !a.directory && 0 <= offset && offset + k <= |a.bytes|
    ensures Run(a, [SeekCall(offset, 0), ReadCall(k, address)])
      == (a.(pos := offset + k), [Reply(offset, []), Reply(k, a.bytes[offset..offset + k])])
  {
    SeekStep(a, offset, 0);
    var b, c, data := a.(pos := offset), a.(pos := offset + k), a.bytes[offset..offset + k];
    ReadThere(b, k, address, c, data);
    RunTwo(a, SeekCall(offset, 0), ReadCall(k, address), b, Reply(offset, []), c, Reply(k, data));
  }

  lemma ReadThere(b: ByteArray, k: nat, address: nat, c: ByteArray, data: seq<Byte>)
    requires 0 <= b.pos && b.pos + k <= |b.bytes| && !b.directory
    requires c == b.(pos := b.pos + k) && data == b.bytes[b.pos..b.pos + k]
    ensures Step(b, ReadCall(k, address)) == (c, Reply(k, data))
  {
  }

  /** A seek by `d` from the current position moves it by exactly `d`, so that a seek by `-d` undoes it. */
  lemma ThereAndBack(a: ByteArray, d: int)
    requires 0 <= a.pos <= |a.bytes| && 0 <= a.pos + d <= |a.bytes|
    ensures Run(a, [SeekCall(d, 1), SeekCall(-d, 1)]) == (a, [Reply(a.pos + d, []), Reply(a.pos, [])])
  {
    SeekStep(a, d, 1);
    var b := a.(pos := a.pos + d);
    SeekStep(b, -d, 1);
    RunTwo(a, SeekCall(d, 1), SeekCall(-d, 1), b, Reply(a.pos + d, []), a, Reply(a.pos, []));
  }

  /** A seek that would leave the file is refused and moves nothing, from wherever it counts. */
  lemma RefusedSeek(a: ByteArray, offset: int)
    requires 0 <= a.pos <= |a.bytes|
    ensures Step(a, SeekCall(offset, 0)) == (a, Reply(-3, [])) <==> offset < 0 || offset > |a.bytes|
    ensures Step(a, SeekCall(offset, 1)) == (a, Reply(-3, [])) <==> a.pos + offset < 0 || a.pos + offset > |a.bytes|
    ensures Step(a, SeekCall(offset, 2)) == (a, Reply(-3, [])) <==> |a.bytes| + offset < 0 || offset > 0
  {
  }

  /** Between its ends a write leaves its data, and elsewhere what was there. */
  lemma Spliced(c: seq<Byte>, at: int, data: seq<Byte>, c': seq<Byte>)
    requires 0 <= at <= |c| && c' == Splice(c, at, data)
    ensures at + |data| <= |c'| && c'[at..at + |data|] == data
    ensures |c'| == if at + |data| > |c| then at + |data| else |c|
    ensures forall x | 0 <= x < |c| :: x < at || x >= at + |data| ==> c'[x] == c[x]
  {
    forall x | 0 <= x < |c|
      ensures x < at || x >= at + |data| ==> c'[x] == c[x]
    {
      SpliceAt(c, at, data, x);
    }
  }

  /** What has been written is read back after a seek back over it, and every other byte is the one it was. */
  lemma WrittenIsRead(a: ByteArray, data: seq<Byte>, address: nat, address': nat, b: ByteArray, c: ByteArray, d: ByteArray,
                      first: Reply, second: Reply, third: Reply)
    requires 0 <= a.pos <= |a.bytes| && a.writable && !a.directory
    requires 0 <= b.pos <= |b.bytes| && 0 <= c.pos <= |c.bytes|
    requires Step(a, WriteCall(data, address)) == (b, first)
    requires var back: int := -|data|; Step(b, SeekCall(back, 1)) == (c, second)
    requires Step(c, ReadCall(|data|, address')) == (d, third)
    ensures first == Reply(|data|, []) && second == Reply(a.pos, []) && third == Reply(|data|, data)
    ensures d.pos == a.pos + |data| && |d.bytes| == if d.pos > |a.bytes| then d.pos else |a.bytes|
    ensures forall x | 0 <= x < |a.bytes| && !(a.pos <= x < a.pos + |data|) :: d.bytes[x] == a.bytes[x]
  {
    WriteStep(a, data, address, Splice(a.bytes, a.pos, data));
    SeekStep(b, -|data|, 1);
    ReadStep(c, |data|, address', |data|);
    Spliced(a.bytes, a.pos, data, b.bytes);
  }

  /** The end of an open file, by a seek from the end and a read. */
  method ReadTail(h: FileDesc, k: int, address: nat) returns (data: seq<Byte>)
    requires h.Valid() && !h.directory && |h.contents| <= Room(h) && 0 <= k <= |h.contents|
    modifies h`contents, h`dirty, h`cacheoffset, h`fileoffset, h`size,
      h.cache, h.fatfile, h.vol`disk, h.vol`slots, h.vol`freecount, h.vol`nextfree, h.vol`fat
    ensures h.Valid() && h.contents == old(h.contents) && h.fileoffset == |h.contents|
    ensures data == h.contents[|h.contents| - k..|h.contents|]
  {
    ghost var c := h.contents;
    if h.dirty {
      DirtyIsInside(h);
    }
    var r := h.Lseek(-k, 2);
    assert h.fileoffset == |c| - k;
    r, data := ReadOut(h, k, address);
    assert r == k && data == c[|c| - k..|c| - k + k];
  }

  /** A seek back by `n` and a read of `n` bytes. */
  method ReadBack(h: FileDesc, n: int, address: nat) returns (data: seq<Byte>)
    requires h.Valid() && !h.directory && |h.contents| <= Room(h) && 0 <= n <= h.fileoffset <= |h.contents|
    modifies h`contents, h`dirty, h`cacheoffset, h`fileoffset, h`size,
      h.cache, h.fatfile, h.vol`disk, h.vol`slots, h.vol`freecount, h.vol`nextfree, h.vol`fat
    ensures h.Valid() && h.contents == old(h.contents) && h.fileoffset == old(h.fileoffset)
    ensures data == h.contents[h.fileoffset - n..h.fileoffset]
  {
    if h.dirty {
      DirtyIsInside(h);
    }
    ghost var at := h.fileoffset;
    var r := h.Lseek(-n, 1);
    assert h.fileoffset == at - n;
    r, data := ReadOut(h, n, address);
    assert r == n && h.fileoffset == at;
  }

  /** What is written through a handle is read back through it, after a seek back over it. */
  method WriteAndReadBack(h: FileDesc, data: seq<Byte>, address: nat) returns (back: seq<Byte>)
    requires h.Valid() && h.write && !h.directory
    requires |h.contents| <= Room(h) && h.fileoffset + |data| <= Room(h)
    modifies h`contents, h`dirty, h`cacheoffset, h`fileoffset, h`size,
      h.cache, h.fatfile, h.vol`disk, h.vol`slots, h.vol`freecount, h.vol`nextfree, h.vol`fat
    ensures h.Valid() && back == data && h.fileoffset == old(h.fileoffset) + |data|
    ensures |h.contents| >= |old(h.contents)| && forall x | 0 <= x < |old(h.contents)| ::
      x < old(h.fileoffset) || x >= h.fileoffset ==> h.contents[x] == old(h.contents)[x]
  {
    ghost var at, c := h.fileoffset, h.contents;
    ghost var fat0, chain0, disk0 := h.vol.fat, h.fatfile.chain, h.vol.disk;
    var buf := BufferOf(data);
    WriteFits(h, buf, address);
    SameReach(h.vol.g, fat0, chain0, disk0, h.vol.fat, h.fatfile.chain, h.vol.disk);
    ghost var now := h.contents;
    Spliced(c, at, data, now);
    back := ReadBack(h, |data|, address);
    assert h.fileoffset == at + |data| && back == now[at..at + |data|];
  }

  /** What is done to one file leaves a file with other clusters where it was, with the same contents. */
  lemma FileUndisturbed(g: Layout, size: nat, f0: seq<int>, c0: seq<int>, d0: seq<Sector>,
                        f: seq<int>, c: seq<int>, d: seq<Sector>,
                        other: seq<int>, contents: seq<Byte>, except: int)
    requires g.Laid(size) && OnlyThisFile(g, f0, c0, d0, f, c, d)
    requires IsChain(g, f0, other) && Apart(other, c0)
    requires Stored(g, d0, g.FileSecs(other), contents, except)
    ensures IsChain(g, f, other) && Apart(other, c)
    ensures Stored(g, d, g.FileSecs(other), contents, except)
  {
    assert Unfold(0);
    ChainIsInUse(g, f0, other);
    ChainFrame(g, f0, f, other);
    ChainIsInUse(g, f, c);
    FileIsData(g, size, f, other);
    assert Apart(other, c);
    assert forall i | 0 <= i < |c| :: c[i] in c;
    assert forall i | 0 <= i < |other| :: other[i] in other;
    g.FileSecsApart(other, c);
    StoredApart(g, d0, d, g.FileSecs(other), g.FileSecs(c), contents, except);
  }

  /** Another open file keeps its contents and its position whatever is done through this handle. */
  twostate lemma OtherHandleUndisturbed(h: FileDesc, other: FileDesc)
    requires other.vol == h.vol && h.Base() && old(other.Valid()) && unchanged(other, other.fatfile, other.cache)
    requires OnlyThisFile(h.vol.g, old(h.vol.fat), old(h.fatfile.chain), old(h.vol.disk),
                          h.vol.fat, h.fatfile.chain, h.vol.disk)
    requires Apart(other.fatfile.chain, old(h.fatfile.chain))
    ensures other.Valid() && Apart(other.fatfile.chain, h.fatfile.chain)
  {
    assert Open(0);
    var v := h.vol;
    var k := other.fileoffset / SECTOR_SIZE;
    FileUndisturbed(v.g, |v.disk|, old(v.fat), old(h.fatfile.chain), old(v.disk), v.fat, h.fatfile.chain, v.disk,
                    other.fatfile.chain, other.contents, if other.dirty then k else -1);
  }
}
