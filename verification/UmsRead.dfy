/** USB mass storage: reading ahead into two buffers while the host is being served. */
module UmsRead {
  import opened Folding

  const EVENTS_PER_SECTOR := 12      // the worker's steps that one sector can bring about, and more
  const UMS_BUFSIZE := 65536

  /** A count as the signed byte that keeps it. */
  function SignedByte(n: int): int {
    if n % 256 < 128 then n % 256 else n % 256 - 256
  }

  /** A buffer's sector count survives being kept in a signed byte just when it is at most 127; 128 sectors of 512
      bytes come out negative, which reads as a storage error. */
  lemma CountSurvives(n: int)
    requires 0 <= n
    ensures SignedByte(n) == n <==> n <= 127
    ensures SignedByte(UMS_BUFSIZE / 512) < 0
  {
  }

  function Wrap(x: int): int {
    x % 0x1_0000_0000
  }

  /** READ(10)'s test for a request beyond the medium, in unsigned 32-bit arithmetic. */
  predicate Rejected(sector: int, count: int, numSectors: int) {
    Wrap(sector + count) > numSectors
  }

  /** The test is right except for requests whose end wraps around to a sector number on the medium. */
  lemma RangeCheckIsExact(sector: int, count: int, numSectors: int)
    requires 0 <= sector < 0x1_0000_0000 && 0 <= count < 0x1_0000 && 0 < numSectors < 0x1_0000_0000
    ensures (Rejected(sector, count, numSectors) <==> sector + count > numSectors)
       <==> !(0x1_0000_0000 <= sector + count <= 0x1_0000_0000 + numSectors)
  {
    if sector + count >= 0x1_0000_0000 {
      assert Wrap(sector + count) == sector + count - 0x1_0000_0000;
    } else {
      assert Wrap(sector + count) == sector + count;
    }
  }

  /** The last sector number there is, one sector: accepted by every medium. */
  lemma LastSectorAccepted(numSectors: int)
    requires 0 < numSectors < 0x1_0000_0000
    ensures !Rejected(0xffff_ffff, 1, numSectors)
  {
  }

  datatype Phase = WaitingForCommand | Processing | SendingBlocks | WaitingForCsw

  /** What the USB controller is sending: sectors of a buffer, or a status wrapper. */
  datatype Transfer = NoTransfer | Blocks(buf: int, offset: int, n: int) | Status(status: int, residue: int)

  /** Where the thread that runs ums_handle_async is: waiting for its signal, reading the storage into buffer `c`, or
      past that. */
  datatype Worker = Asleep | Reading(c: int, sector: int, count: int) | Finishing

  /** What can happen next. */
  datatype Event<D> =
    | Request(sector: int, count: int)       // the host sends READ(10)
    | Complete                               // a transfer to the host completes
    | Begin(partial: seq<D>)                 // ums_handle_async starts; what the read has done to its buffer so far
    | Finish                                 // the storage has been read
    | Proceed                                // ums_handle_async goes on

  /** A command that has been served, and what the host has got for it. */
  datatype Answer<D> = Answer(first: int, asked: int, data: seq<D>, status: int, residue: int)

  function Min(a: int, b: int): int {
    if a < b then a else b
  }

  function Max(a: int, b: int): int {
    if a > b then a else b
  }

  /** How many bytes `n` sectors of `m` bytes have, by repeated addition so that proofs stay linear. */
  function Bytes(m: nat, n: int): nat {
    if n <= 0 then 0 else Bytes(m, n - 1) + m
  }

  lemma {:induction false} BytesAreProduct(m: nat, n: nat)
    ensures Bytes(m, n) == m * n
  {
    if n > 0 {
      BytesAreProduct(m, n - 1);
    }
  }

  /** Bytes of some of the sectors, and of the others. */
  lemma {:induction false} BytesSplit(m: nat, a: int, b: int)
    requires 0 <= a <= b
    ensures Bytes(m, b) == Bytes(m, a) + Bytes(m, b - a)
  {
    if a < b {
      BytesSplit(m, a, b - 1);
    }
  }

  /** A part of what has been copied is a part of the original. */
  lemma PieceOf<D>(buf: seq<D>, medium: seq<D>, at: int, count: int, offset: int, n: int)
    requires Holds(medium, buf, at, count) && 0 <= offset && 0 <= n && offset + n <= count
    ensures buf[offset..offset + n] == medium[at + offset..at + offset + n]
  {
    assert Unfold(0);
    var l, r := buf[offset..offset + n], medium[at + offset..at + offset + n];
    forall y | 0 <= y < n
      ensures l[y] == r[y]
    {
      assert buf[offset + y] == medium[at + (offset + y)];
    }
  }

  lemma PiecesJoin<D>(medium: seq<D>, a: int, b: int, c: int)
    requires 0 <= a <= b <= c <= |medium|
    ensures medium[a..b] + medium[b..c] == medium[a..c]
  {
  }

  /** A command has been answered as it must be: the host has got exactly the sectors it asked for, once each and in
      order, or nothing if they are not all on the medium; and the residue is what it did not get. */
  ghost predicate Right<D>(medium: seq<D>, sectorSize: nat, a: Answer<D>) {
    && a.residue + Bytes(sectorSize, |a.data|) == Bytes(sectorSize, a.asked)
    && (if 0 <= a.first && 0 <= a.asked && a.first + a.asked <= |medium|
        then a.status == 0 && a.residue == 0 && a.data == medium[a.first..a.first + a.asked]
        else a.status == 1 && a.data == [])
  }

  /** All commands have been answered as they must be. */
  ghost predicate AllRight<D>(medium: seq<D>, sectorSize: nat, answers: seq<Answer<D>>) {
    forall k {:trigger Unfold(k)} | Unfold(k) :: forall i | 0 <= i < |answers| :: Right(medium, sectorSize, answers[i])
  }

  lemma OneMoreRight<D>(medium: seq<D>, sectorSize: nat, answers: seq<Answer<D>>, a: Answer<D>)
    requires AllRight(medium, sectorSize, answers) && Right(medium, sectorSize, a)
    ensures AllRight(medium, sectorSize, answers + [a])
  {
    assert Unfold(0);
  }

  /** How many events the commands among these can bring about. */
  function Granted<D>(events: seq<Event<D>>): nat {
    if events == [] then 0
    else
      var e := events[|events| - 1];
      Granted(events[..|events| - 1])
      + (if e.Request? && e.count >= 0 then EVENTS_PER_SECTOR * (e.count + 3) else 0)
  }

  /** The first `n` sectors of a buffer are those of the medium from sector `at` on. */
  ghost predicate Holds<D>(medium: seq<D>, buf: seq<D>, at: int, n: int) {
    && 0 <= at && n <= |buf| && at + n <= |medium|
    && forall k {:trigger Unfold(k)} | Unfold(k) :: forall j | 0 <= j < n :: buf[j] == medium[at + j]
  }

  class Pipeline<D> {
    const medium: seq<D>             // the contents of the sectors
    const sectorSize: nat
    const bufsize: int               // sectors per buffer
    var phase: Phase
    var sector: int                  // cur_cmd: next sector to be sent
    var count: int                   // cur_cmd: sectors still to be sent
    var bytesPending: int            // cur_cmd
    var readSector: seq<int>         // readbuf_sector
    var readCount: seq<int>          // readbuf_count, 0 if the buffer is to be filled
    var current: int                 // readbuf_current, the buffer to be filled next
    var blocked: bool                // read_blocked
    var umsbuf: seq<seq<D>>
    var transfer: Transfer
    var signalled: bool              // the wakeup of the worker
    var worker: Worker
    ghost var first: int             // the command being served
    ghost var asked: int
    ghost var sent: seq<D>           // what the host has received for it
    ghost var answers: seq<Answer<D>>

    /** How many sectors a buffer that begins with `s` holds when it is full. */
    function Full(s: int): int {
      Min(bufsize, |medium| - s)
    }

    ghost predicate BufferOk(i: int)
      reads this
      requires |readSector| == |readCount| == |umsbuf| == 2 && 0 <= i < 2
    {
      && 0 <= readSector[i] < |medium| && |umsbuf[i]| == bufsize
      && (readCount[i] == 0 || readCount[i] == Full(readSector[i]))
      && Holds(medium, umsbuf[i], readSector[i], readCount[i])
    }

    /** The buffers hold what they say, and nobody fills the buffer that is being sent. */
    ghost predicate Sound()
      reads this
    {
      && 0 < |medium| && |medium| + bufsize < 0x1_0000_0000 && 1 <= bufsize <= 127 && 0 < sectorSize
      && |readSector| == |readCount| == |umsbuf| == 2 && 0 <= current < 2
      && BufferOk(0) && BufferOk(1)
      && (worker.Reading? ==>
            && 0 <= worker.c < 2 && readCount[worker.c] == 0 && 0 <= worker.sector < |medium|
            && worker.count == Full(worker.sector)
            && (transfer.Blocks? ==> transfer.buf != worker.c))
      && (transfer.Blocks? ==>
            && 0 <= transfer.buf < 2 && 0 <= transfer.offset && 1 <= transfer.n
            && transfer.offset + transfer.n <= readCount[transfer.buf])
    }

    /** Sectors on their way to the host. */
    ghost function InFlight(): int
      reads this
    {
      if transfer.Blocks? then transfer.n else 0
    }

    /** The command being served: the host has received a prefix of what it asked for, and the bytes it is still owed
        are accounted for. */
    ghost predicate Serving()
      reads this
    {
      && 0 <= first && 0 <= count && 0 <= InFlight()
      && sector + count == first + asked <= |medium| && first + |sent| + InFlight() == sector
      && sent == medium[first..first + |sent|]
      && bytesPending == Bytes(sectorSize, count)
      && (transfer.Blocks? ==>
            |readSector| == 2 && 0 <= transfer.buf < 2 && readSector[transfer.buf] + transfer.offset + transfer.n == sector)
    }

    /** What holds between any two events; folded but for the sizes. */
    ghost predicate Valid()
      reads this
    {
      && |readSector| == |readCount| == |umsbuf| == 2 && 0 <= current < 2
      && (phase == WaitingForCsw ==> transfer.Status?) && (worker.Reading? ==> 0 <= worker.c < 2)
      && (transfer.Blocks? ==>
            0 <= transfer.buf < 2 && 0 <= transfer.offset <= transfer.offset + transfer.n <= |umsbuf[transfer.buf]|)
      && forall k {:trigger Open(k)} | Open(k) :: Sound() && AllRight(medium, sectorSize, answers) && InPhase()
    }

    ghost predicate InPhase()
      reads this
      requires |readSector| == 2 && 0 <= current < 2
    {
      match phase
      case WaitingForCommand => transfer == NoTransfer && !blocked
      case Processing => Serving() && blocked && Awaited()
      case SendingBlocks => Serving() && (if blocked then Awaited() else transfer.Blocks?)
      case WaitingForCsw =>
        && !blocked && transfer.Status? && transfer.residue == bytesPending
        && transfer.residue + Bytes(sectorSize, |sent|) == Bytes(sectorSize, asked)
        && (if transfer.status == 0 then Serving() && count == 0
            else transfer.status == 1 && first + asked > |medium| && sent == [])
    }

    /** What the host is still to get for the command being served, the status included. */
    ghost function Owed(): nat
      reads this
    {
      match phase
      case WaitingForCommand => 0
      case WaitingForCsw => 1
      case _ => if count + InFlight() >= 0 then 2 + count + InFlight() else 2
    }

    /** When the worker has done what it is about, sending will have to wait for it once more. */
    ghost predicate AgainInVain()
      reads this
    {
      blocked && 0 <= current < |readCount| && current < |readSector| &&
      match worker
      case Asleep => false
      case Reading(c, from, _) => c != current || from != readSector[current]
      case Finishing => readCount[current] == 0
    }

    /** A bound on the number of events that can happen before the next command. */
    ghost function EventsLeft(): nat
      reads this
    {
      EVENTS_PER_SECTOR * Owed() + (if blocked then 6 else 0)
      + (if signalled || AgainInVain() then 3 else 0)
      + (match worker case Asleep => 0 case Reading(_, _, _) => 2 case Finishing => 1)
    }

    lemma EventsBounded()
      ensures EVENTS_PER_SECTOR * Owed() <= EventsLeft() < EVENTS_PER_SECTOR * (Owed() + 1)
    {
    }

    /** As long as a command is being served, something can happen. */
    lemma SomethingHappens()
      requires Valid() && phase != WaitingForCommand
      ensures transfer != NoTransfer || signalled || worker != Asleep
    {
      assert Open(0);
    }

    /** Sending that waits will be taken up by the worker. */
    lemma WaitingIsNoticed()
      requires Valid() && blocked
      ensures transfer == NoTransfer && (signalled || worker != Asleep)
    {
      assert Open(0);
    }

    /** The next sector to be sent belongs into buffer `i`. */
    ghost predicate Found(i: int)
      reads this
      requires |readSector| == 2 && 0 <= i < 2
    {
      readSector[i] <= sector < readSector[i] + bufsize
    }

    /** Sending waits for the worker, which has been told or is on its way. */
    ghost predicate Awaited()
      reads this
      requires |readSector| == 2 && 0 <= current < 2
    {
      && transfer == NoTransfer && count > 0 && (signalled || worker != Asleep)
      && Found(current) && (current == 1 ==> !Found(0))
    }

    constructor (medium: seq<D>, sectorSize: nat, buffers: seq<seq<D>>)
      requires 0 < |medium| && 0 < sectorSize <= UMS_BUFSIZE && UMS_BUFSIZE / sectorSize <= 127
      requires |medium| + UMS_BUFSIZE / sectorSize < 0x1_0000_0000
      requires |buffers| == 2 && |buffers[0]| == |buffers[1]| == UMS_BUFSIZE / sectorSize
      ensures Valid() && phase == WaitingForCommand && this.medium == medium && this.sectorSize == sectorSize
      ensures bufsize == 65536 / sectorSize
    {
      this.medium, this.sectorSize, bufsize := medium, sectorSize, UMS_BUFSIZE / sectorSize;
      phase, transfer, worker := WaitingForCommand, NoTransfer, Asleep;
      sector, count, bytesPending := 0, 0, 0;
      readSector, readCount, current, blocked := [0, 0], [0, 0], 0, false;
      umsbuf, signalled := buffers, false;
      first, asked, sent, answers := 0, 0, [], [];
    }

    /** send_csw: the status, with the bytes the host asked for and does not get. */
    method SendCsw(status: int)
      requires Sound() && AllRight(medium, sectorSize, answers) && transfer == NoTransfer && !blocked
      requires bytesPending + Bytes(sectorSize, |sent|) == Bytes(sectorSize, asked)
      requires if status == 0 then Serving() && count == 0 else status == 1 && first + asked > |medium| && sent == []
      modifies this`phase, this`transfer
      ensures Valid() && phase == WaitingForCsw
      ensures transfer == Status(status, Bytes(sectorSize, asked) - Bytes(sectorSize, |sent|))
    {
      transfer := Status(status, bytesPending);
      phase := WaitingForCsw;
    }

    /** send_block_data; the source's complaints about overruns and direction are excluded. */
    method SendBlockData(buf: int, offset: int, n: int)
      requires 0 <= Bytes(sectorSize, n) <= bytesPending
      modifies this`phase, this`transfer, this`bytesPending
      ensures phase == SendingBlocks && transfer == Blocks(buf, offset, n)
      ensures bytesPending == old(bytesPending) - Bytes(sectorSize, n)
    {
      bytesPending := bytesPending - Bytes(sectorSize, n);
      transfer := Blocks(buf, offset, n);
      phase := SendingBlocks;
    }

    /** Let the other buffer be filled with what comes after buffer `i`. */
    method ReadAhead(i: int, overlap: int)
      requires Sound() && Serving() && transfer == NoTransfer && 0 <= i < 2
      requires readSector[i] <= sector && 0 < overlap && sector + overlap <= readSector[i] + readCount[i]
      modifies this`current, this`readSector, this`readCount, this`signalled
      ensures Sound() && Serving() && readSector[i] == old(readSector[i]) && readCount[i] == old(readCount[i])
      ensures if i == old(current) && readSector[i] + readCount[i] < |medium|
        then current == 1 - i && readCount[current] == 0 && signalled
             && readSector[current] >= readSector[i] + readCount[i] && readSector[current] >= sector + overlap
             && (readSector[current] == readSector[i] + readCount[i] || readSector[current] == sector + overlap)
        else current == old(current) && readSector == old(readSector) && readCount == old(readCount)
             && signalled == old(signalled)
    {
      if i == current && readSector[i] + readCount[i] < |medium| {
        current := 1 - i;
        readSector := readSector[1 - i := Max(readSector[i] + readCount[i], sector + overlap)];
        readCount := readCount[1 - i := 0];
        signalled := true;
      }
    }

    /** Send the next sectors, which buffer `i` has. */
    method SendOverlap(i: int, overlap: int)
      requires Sound() && Serving() && transfer == NoTransfer && count > 0 && !blocked && 0 <= i < 2
      requires AllRight(medium, sectorSize, answers) && 0 < overlap <= count
      requires readSector[i] <= sector && sector + overlap <= readSector[i] + readCount[i]
      requires worker.Reading? ==> worker.c != i
      modifies this`bytesPending, this`transfer, this`phase, this`sector, this`count
      ensures Valid() && phase == SendingBlocks && transfer == Blocks(i, old(sector) - readSector[i], overlap)
      ensures count == old(count) - overlap
    {
      var offset := sector - readSector[i];
      BytesSplit(sectorSize, overlap, count);
      SendBlockData(i, offset, overlap);
      sector := sector + overlap;
      count := count - overlap;
    }

    /** Send what buffer `i` has of the sectors asked for, and let the other one be filled with what comes next. */
    method SendFrom(i: int)
      requires Sound() && Serving() && transfer == NoTransfer && count > 0 && !blocked && 0 <= i < 2
      requires AllRight(medium, sectorSize, answers)
      requires readSector[i] <= sector < readSector[i] + readCount[i]
      modifies this`current, this`readSector, this`readCount, this`signalled,
        this`bytesPending, this`transfer, this`phase, this`sector, this`count
      ensures Valid() && phase == SendingBlocks
      ensures readSector[i] == old(readSector[i]) && readCount[i] == old(readCount[i])
      ensures transfer ==
        Blocks(i, old(sector) - readSector[i], Min(readSector[i] + readCount[i] - old(sector), old(count)))
      ensures count + InFlight() == old(count) && count >= 0 && !blocked
    {
      var overlap := Min(readSector[i] + readCount[i] - sector, count);
      ReadAhead(i, overlap);
      SendOverlap(i, overlap);
    }

    /** Wait for a buffer that is to hold the next sector. */
    method AwaitBuffer(i: int)
      requires Sound() && Serving() && transfer == NoTransfer && count > 0 && !blocked && 0 <= i < 2
      requires AllRight(medium, sectorSize, answers) && (phase == Processing || phase == SendingBlocks)
      requires Found(i) && (i == 1 ==> !Found(0))
      modifies this`current, this`blocked, this`signalled
      ensures Valid() && blocked && current == i && signalled
    {
      current := i;
      blocked := true;
      signalled := true;
    }

    /** No buffer is to hold the next sector: have this one filled with it, and wait. */
    method ClaimBuffer(i: int)
      requires Sound() && Serving() && transfer == NoTransfer && count > 0 && !blocked && 0 <= i < 2
      requires AllRight(medium, sectorSize, answers) && (phase == Processing || phase == SendingBlocks)
      requires !Found(0) && !Found(1)
      modifies this`current, this`blocked, this`signalled, this`readSector, this`readCount
      ensures Valid() && blocked && current == i && readCount[i] == 0 && signalled
    {
      readSector := readSector[i := sector];
      readCount := readCount[i := 0];
      AwaitBuffer(i);
    }

    /** send_and_read_next: send from a buffer that has the next sector, or wait for one to be filled. */
    method SendAndReadNext()
      requires Sound() && Serving() && transfer == NoTransfer && count > 0 && !blocked
      requires AllRight(medium, sectorSize, answers)
      requires phase == Processing || phase == SendingBlocks
      modifies this`current, this`readSector, this`readCount, this`signalled, this`blocked,
        this`bytesPending, this`transfer, this`phase, this`sector, this`count
      ensures Valid() && (phase == Processing || phase == SendingBlocks)
      ensures old(Found(0) && readCount[0] > 0) ==> transfer.Blocks?
      ensures old(Found(1) && !Found(0) && readCount[1] > 0) ==> transfer.Blocks?
      ensures blocked <==> !transfer.Blocks?
      ensures blocked ==> readCount[current] == 0 && signalled
      ensures count + InFlight() == old(count) && InFlight() >= 0 && count >= 0
    {
      for i := 0 to 2
        invariant sector == old(sector) && readSector == old(readSector) && readCount == old(readCount)
        invariant !blocked && transfer == NoTransfer && phase == old(phase) && current == old(current)
        invariant count == old(count) && bytesPending == old(bytesPending)
        invariant forall j | 0 <= j < i :: !(readSector[j] <= sector < readSector[j] + bufsize)
      {
        assert BufferOk(i);
        if readSector[i] <= sector && readSector[i] + bufsize > sector {
          if readSector[i] + readCount[i] <= sector {
            AwaitBuffer(i);
            return;
          }
          SendFrom(i);
          return;
        }
      }
      assert BufferOk(0) && BufferOk(1);
      ClaimBuffer(1 - current);
    }

    /** READ(10): reject a request beyond the medium, have nothing to do, or start sending. */
    method HandleRead(from: int, n: int)
      requires Valid() && phase == WaitingForCommand && 0 <= from < 0x1_0000_0000 && 0 <= n < 0x1_0000
      requires !(0x1_0000_0000 <= from + n <= 0x1_0000_0000 + |medium|)
      modifies this`phase, this`sector, this`count, this`bytesPending, this`transfer, this`current, this`readSector,
        this`readCount, this`signalled, this`blocked, this`first, this`asked, this`sent
      ensures Valid() && first == from && asked == n && sent == []
      ensures phase == WaitingForCsw <==> n == 0 || from + n > |medium|
      ensures phase == WaitingForCsw ==> transfer.status == if from + n > |medium| then 1 else 0
      ensures EventsLeft() <= EVENTS_PER_SECTOR * (n + 3)
    {
      assert Open(0);
      RangeCheckIsExact(from, n, |medium|);
      TakeCommand(from, n);
      if Wrap(sector + count) > |medium| {
        SendCsw(1);
      } else if count == 0 {
        SendCsw(0);
      } else {
        SendAndReadNext();
      }
    }

    /** Note what the host asks for. */
    method TakeCommand(from: int, n: int)
      requires Valid() && phase == WaitingForCommand && 0 <= from && 0 <= n
      modifies this`phase, this`sector, this`count, this`bytesPending, this`first, this`asked, this`sent
      ensures Sound() && phase == Processing && sector == first == from && count == asked == n && sent == []
      ensures bytesPending == Bytes(sectorSize, n) && bytesPending >= 0
      ensures from + n <= |medium| ==> Serving()
    {
      assert Open(0);
      first, asked, sent := from, n, [];
      phase := Processing;
      bytesPending := Bytes(sectorSize, n);
      sector, count := from, n;
    }

    /** ums_xfer_complete: the host has got what was being sent. */
    method XferComplete()
      requires Valid() && transfer != NoTransfer
      modifies this`phase, this`sector, this`count, this`bytesPending, this`transfer, this`current, this`readSector,
        this`readCount, this`signalled, this`blocked, this`sent, this`answers
      ensures Valid()
      ensures old(transfer.Blocks?) ==>
        sent == old(sent + umsbuf[transfer.buf][transfer.offset..transfer.offset + transfer.n])
      ensures old(transfer.Blocks?) ==> (phase == WaitingForCsw <==> old(count) == 0)
      ensures phase == WaitingForCsw ==> transfer.status == 0
      ensures old(transfer.Blocks?) ==> answers == old(answers)
      ensures EventsLeft() < old(EventsLeft())
      ensures phase == WaitingForCommand <==> old(transfer.Status?)
      ensures old(transfer.Status?) ==>
        answers == old(answers) + [Answer(first, asked, sent, old(transfer).status, old(transfer).residue)]
    {
      assert Open(0);
      EventsBounded();
      if transfer.Status? {
        Answered();
      } else {
        Delivered();
        if count == 0 {
          SendCsw(0);
        } else {
          SendAndReadNext();
        }
      }
      EventsBounded();
      assert Owed() < old(Owed());
    }

    /** The host has got the status: the command is over. */
    method Answered()
      requires Valid() && transfer.Status?
      modifies this`transfer, this`phase, this`answers
      ensures Valid() && phase == WaitingForCommand
      ensures answers == old(answers) + [Answer(first, asked, sent, old(transfer).status, old(transfer).residue)]
    {
      assert Open(0);
      OneMoreRight(medium, sectorSize, answers, Answer(first, asked, sent, transfer.status, transfer.residue));
      answers := answers + [Answer(first, asked, sent, transfer.status, transfer.residue)];
      transfer := NoTransfer;
      phase := WaitingForCommand;
    }

    /** The host has received the sectors that were being sent. */
    method Delivered()
      requires Valid() && transfer.Blocks?
      modifies this`transfer, this`sent
      ensures Sound() && Serving() && transfer == NoTransfer
      ensures sent == old(sent + umsbuf[transfer.buf][transfer.offset..transfer.offset + transfer.n])
    {
      assert Open(0);
      ghost var got := umsbuf[transfer.buf][transfer.offset..transfer.offset + transfer.n];
      PieceOf(umsbuf[transfer.buf], medium, readSector[transfer.buf], readCount[transfer.buf], transfer.offset, transfer.n);
      PiecesJoin(medium, first, first + |sent|, first + |sent| + transfer.n);
      sent := sent + got;
      transfer := NoTransfer;
    }

    /** ums_handle_async up to the storage driver: it begins to fill the current buffer if that is empty. Until the
        storage has been read, the buffer may hold anything. */
    method AsyncBegin(partial: seq<D>)
      requires Valid() && worker == Asleep && signalled && |partial| == bufsize
      modifies this`signalled, this`worker, this`umsbuf
      ensures Valid() && (worker.Reading? || worker == Finishing)
      ensures worker.Reading? ==> worker.c == current && worker.sector == readSector[current]
      ensures worker.Reading? ==>
        worker.count == if worker.sector + bufsize > |medium| then |medium| - worker.sector else bufsize
      ensures worker == Finishing ==> readCount[current] > 0
      ensures transfer.Blocks? ==> umsbuf[transfer.buf] == old(umsbuf[transfer.buf])
      ensures EventsLeft() < old(EventsLeft())
    {
      assert Open(0);
      signalled := false;
      var c := current;
      if readCount[c] == 0 {
        worker := Reading(c, readSector[c], Min(bufsize, |medium| - readSector[c]));
        umsbuf := umsbuf[c := partial];
      } else {
        worker := Finishing;
      }
    }

    /** The storage has been read; if meanwhile other sectors were wanted in the buffer, it stays empty. */
    method AsyncFinish()
      requires Valid() && worker.Reading?
      modifies this`worker, this`umsbuf, this`readCount
      ensures Valid() && worker == Finishing && |umsbuf| == |readCount| == 2
      ensures readCount == old(readCount)[
        old(worker.c) := if old(worker.sector) == readSector[old(worker.c)] then old(worker.count) else 0]
      ensures old(worker.c) == current && old(worker.sector) == readSector[current] ==> readCount[current] > 0
      ensures transfer.Blocks? ==> umsbuf[transfer.buf] == old(umsbuf[transfer.buf])
      ensures EventsLeft() < old(EventsLeft())
    {
      assert Open(0);
      var c, from, n := worker.c, worker.sector, worker.count;
      umsbuf := umsbuf[c := medium[from..from + n] + umsbuf[c][n..]];
      readCount := readCount[c := if from == readSector[c] then SignedByte(n) else 0];
      worker := Finishing;
    }

    /** The rest of ums_handle_async: go on sending if that had to wait. */
    method AsyncProceed()
      requires Valid() && worker == Finishing
      modifies this`phase, this`sector, this`count, this`bytesPending, this`transfer, this`current, this`readSector,
        this`readCount, this`signalled, this`blocked, this`worker
      ensures Valid() && worker == Asleep && (old(blocked) || phase == old(phase))
      ensures old(blocked) ==> phase == Processing || phase == SendingBlocks
      ensures old(blocked && readCount[current] > 0) ==> transfer.Blocks?
      ensures blocked ==> readCount[current] == 0
      ensures old(blocked) ==> (blocked <==> !transfer.Blocks?)
      ensures !old(blocked) ==> transfer == old(transfer) && !blocked
      ensures EventsLeft() < old(EventsLeft())
    {
      assert Open(0);
      worker := Asleep;
      if blocked {
        GoOnSending();
      }
      assert Owed() == old(Owed());
    }

    /** Sending need not wait any longer, or has to wait again. */
    method GoOnSending()
      requires Sound() && AllRight(medium, sectorSize, answers) && Serving() && transfer == NoTransfer && count > 0
      requires (phase == Processing || phase == SendingBlocks) && Found(current) && (current == 1 ==> !Found(0))
      modifies this`phase, this`sector, this`count, this`bytesPending, this`transfer, this`current, this`readSector,
        this`readCount, this`signalled, this`blocked
      ensures Valid() && (phase == Processing || phase == SendingBlocks) && (blocked <==> !transfer.Blocks?)
      ensures old(readCount[current] > 0) ==> transfer.Blocks?
      ensures blocked ==> readCount[current] == 0 && signalled
      ensures count + InFlight() == old(count) && 0 <= old(count) && Owed() == old(Owed())
    {
      blocked := false;
      SendAndReadNext();
    }

    /** Whenever sending waits, the worker gets it going by its own steps: no deadlock, and no wait without end. */
    method GetGoing(partial: seq<D>)
      requires Valid() && blocked && |partial| == bufsize
      modifies this`phase, this`sector, this`count, this`bytesPending, this`transfer, this`current, this`readSector,
        this`readCount, this`signalled, this`blocked, this`worker, this`umsbuf
      ensures Valid() && transfer.Blocks?
    {
      WaitingIsNoticed();
      if worker.Reading? {
        AsyncFinish();
      }
      if worker == Finishing {
        AsyncProceed();
      }
      if blocked {
        WaitingIsNoticed();
        AsyncBegin(partial);
        if worker.Reading? {
          AsyncFinish();
        }
        AsyncProceed();
      }
    }

    /** An event, if it can happen: a command while none is being served, the completion of a transfer, a step of the
        worker. All but commands use up what events are left. */
    method Happen(event: Event<D>) returns (happens: bool)
      requires Valid()
      modifies this
      ensures Valid() && old(answers) <= answers
      ensures happens && !event.Request? ==> EventsLeft() < old(EventsLeft())
      ensures happens && event.Request? ==> EventsLeft() <= EVENTS_PER_SECTOR * (event.count + 3) && 0 <= event.count
      ensures !happens ==> EventsLeft() == old(EventsLeft())
    {
      happens := false;
      match event {
        case Request(from, n) =>
          if phase == WaitingForCommand && 0 <= from < 0x1_0000_0000 && 0 <= n < 0x1_0000
             && !(0x1_0000_0000 <= from + n <= 0x1_0000_0000 + |medium|) {
            HandleRead(from, n);
            happens := true;
          }
        case Complete =>
          if transfer != NoTransfer {
            XferComplete();
            happens := true;
          }
        case Begin(partial) =>
          if worker == Asleep && signalled && |partial| == bufsize {
            AsyncBegin(partial);
            happens := true;
          }
        case Finish =>
          if worker.Reading? {
            AsyncFinish();
            happens := true;
          }
        case Proceed =>
          if worker == Finishing {
            AsyncProceed();
            happens := true;
          }
      }
    }

    /** Over every interleaving of commands, transfer completions and steps of the worker, every command that has been
        answered has been answered as it must be, and no more than `granted` events have happened besides commands, a
        bounded number for each command. Events that cannot happen in a state are passed over. */
    method Run(events: seq<Event<D>>) returns (happened: nat, ghost granted: nat)
      requires Valid()
      modifies this
      ensures Valid() && forall i | 0 <= i < |answers| :: Right(medium, sectorSize, answers[i])
      ensures old(answers) <= answers
      ensures happened + EventsLeft() <= old(EventsLeft()) + granted && granted <= Granted(events)
    {
      happened, granted := 0, 0;
      for i := 0 to |events|
        invariant Valid() && old(answers) <= answers
        invariant happened + EventsLeft() <= old(EventsLeft()) + granted && granted <= Granted(events[..i])
      {
        assert events[..i + 1][..i] == events[..i];
        var happens := Happen(events[i]);
        if events[i].Request? {
          granted := granted + if happens then EVENTS_PER_SECTOR * (events[i].count + 3) else 0;
        } else if happens {
          happened := happened + 1;
        }
      }
      assert events[..|events|] == events;
      assert Open(0) && Unfold(0);
    }

    /** Every command is answered: however the steps of the worker and the completions of transfers follow one another,
        after finitely many of them its status has been received. `workerFirst` says for each step who gets his turn if
        both can. */
    method ServeCommand(workerFirst: nat -> bool, partial: seq<D>) returns (steps: nat)
      requires Valid() && phase != WaitingForCommand && |partial| == bufsize
      modifies this
      ensures Valid() && phase == WaitingForCommand && steps <= old(EventsLeft())
      ensures |answers| == |old(answers)| + 1 && old(answers) <= answers && Right(medium, sectorSize, answers[|answers| - 1])
    {
      steps := 0;
      while phase != WaitingForCommand
        invariant Valid() && |partial| == bufsize && steps + EventsLeft() <= old(EventsLeft())
        invariant old(answers) <= answers && |answers| == |old(answers)| + if phase == WaitingForCommand then 1 else 0
        decreases EventsLeft()
      {
        SomethingHappens();
        if transfer != NoTransfer && !((signalled || worker != Asleep) && workerFirst(steps)) {
          XferComplete();
        } else {
          WorkerStep(partial);
        }
        steps := steps + 1;
      }
      assert Open(0) && Unfold(0);
    }

    /** What the worker does next. */
    method WorkerStep(partial: seq<D>)
      requires Valid() && (signalled || worker != Asleep) && |partial| == bufsize
      modifies this`phase, this`sector, this`count, this`bytesPending, this`transfer, this`current, this`readSector,
        this`readCount, this`signalled, this`blocked, this`worker, this`umsbuf
      ensures Valid() && EventsLeft() < old(EventsLeft())
      ensures phase == WaitingForCommand <==> old(phase) == WaitingForCommand
    {
      match worker {
        case Asleep => AsyncBegin(partial);
        case Reading(_, _, _) => AsyncFinish();
        case Finishing => AsyncProceed();
      }
    }
  }
}
