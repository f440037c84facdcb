/** The interrupt-driven disk driver (ide.c) against the synchronous one (memide.c). Buffers are numbered;
    qnext holds a buffer's number, or -1. The controller completes one command at a time, without
    errors, and interrupts when it has done so. */
module IdeQueue {
  import opened Outcomes
  import BufferCache

  type Block = BufferCache.Block

  datatype Buf = Buf(busy: bool, valid: bool, dirty: bool, dev: nat, sector: nat, data: Block, qnext: int)

  /** A unit of the controller and a sector on it. */
  datatype Addr = Addr(drive: int, sector: int)

  type Disk = map<Addr, Block>

  datatype Command = NoCommand | ReadSector(addr: Addr) | WriteSector(addr: Addr, data: Block)

  /** A call of iderw on buffer b. */
  datatype Request = Request(b: int, addr: Addr, write: bool, data: Block)

  function Get(disk: Disk, a: Addr): Block {
    if a in disk then disk[a] else BufferCache.Block([])
  }

  // ----- the synchronous driver -----

  function SyncDisk(disk: Disk, r: Request): Disk {
    if r.write then disk[r.addr := r.data] else disk
  }

  function SyncData(disk: Disk, r: Request): Block {
    if r.write then r.data else Get(disk, r.addr)
  }

  /** The disk after the synchronous driver served the requests in order. */
  function Replay(disk: Disk, rs: seq<Request>): Disk {
    if rs == [] then disk else SyncDisk(Replay(disk, rs[..|rs| - 1]), rs[|rs| - 1])
  }

  /** The controller's first sectors of drive 1 are those of the memory disk. */
  ghost predicate Shows(disk: Disk, image: BufferCache.Image) {
    forall s {:trigger image[s]} :: 0 <= s < |image| ==> Get(disk, Addr(1, s)) == image[s]
  }

  function InCache(b: Buf): BufferCache.Buf {
    BufferCache.Buf(b.busy, b.valid, b.dirty, b.dev, b.sector, b.data)
  }

  /** The synchronous driver, as the buffer cache uses it, on that disk. */
  lemma {:induction false} SyncIsMemory(disk: Disk, image: BufferCache.Image, i: int, b: Buf)
    requires Shows(disk, image) && b.dev == BufferCache.ROOTDEV && b.sector < |image| <= 0x1000_0000
    ensures SyncData(disk, RequestOf(i, b)) == BufferCache.DataAfter(image, InCache(b))
    ensures Shows(SyncDisk(disk, RequestOf(i, b)), BufferCache.DiskAfter(image, InCache(b)))
  {
    assert AddrOf(b) == Addr(1, b.sector) && Get(disk, Addr(1, b.sector)) == image[b.sector];
    var image' := BufferCache.DiskAfter(image, InCache(b));
    forall s {:trigger image'[s]} | 0 <= s < |image'|
      ensures Get(SyncDisk(disk, RequestOf(i, b)), Addr(1, s)) == image'[s]
    {
      assert Get(disk, Addr(1, s)) == image[s];
    }
  }

  // ----- task file registers -----

  /** The four bytes that idestart gives for a sector number and a drive. */
  datatype Registers = Registers(r3: int, r4: int, r5: int, r6: int)

  function TaskFile(dev: nat, sector: nat): Registers {
    Registers(sector % 256, sector / 256 % 256, sector / 65536 % 256, 0xe0 + (dev % 2) * 16 + sector / 16777216 % 16)
  }

  /** What the controller makes of them: 28 bits of sector number, one bit of drive. */
  function Decode(t: Registers): Addr {
    Addr((t.r6 / 16) % 2, t.r3 + 256 * t.r4 + 65536 * t.r5 + 16777216 * (t.r6 % 16))
  }

  function AddrOf(b: Buf): Addr {
    Addr(b.dev % 2, b.sector % 0x1000_0000)
  }

  /** The registers carry the address over. */
  lemma {:induction false} DecodeTaskFile(b: Buf)
    ensures Decode(TaskFile(b.dev, b.sector)) == AddrOf(b)
  {
    var n := b.sector;
    var t := TaskFile(b.dev, n);
    assert t.r6 % 16 == n / 16777216 % 16 && t.r6 / 16 == 14 + b.dev % 2;
    Bytes(n);
  }

  lemma {:induction false} Bytes(n: nat)
    ensures n % 0x1000_0000 ==
      n % 256 + 256 * (n / 256 % 256) + 65536 * (n / 65536 % 256) + 16777216 * (n / 16777216 % 16)
  {
    var a := n / 256;
    var c := a / 256;
    var d := c / 256;
    Quotient(n, 256);
    Quotient(n, 65536);
    assert n / 65536 == c && n / 16777216 == d;
    Digits(n % 256, a % 256, c % 256, d % 16, d / 16);
  }

  lemma {:induction false} Quotient(n: nat, m: nat)
    requires m == 256 || m == 65536
    ensures n / m / 256 == n / (256 * m)
  {
  }

  lemma {:induction false} Digits(r0: nat, r1: nat, r2: nat, r3: nat, e: nat)
    requires r0 < 256 && r1 < 256 && r2 < 256 && r3 < 16
    ensures (r0 + 256 * r1 + 65536 * r2 + 16777216 * r3 + 0x1000_0000 * e) % 0x1000_0000 ==
      r0 + 256 * r1 + 65536 * r2 + 16777216 * r3
  {
  }

  // ----- the queue -----

  predicate Pending(b: Buf) {
    b.busy && !(b.valid && !b.dirty)
  }

  function RequestOf(i: int, b: Buf): Request {
    Request(i, AddrOf(b), b.dirty, b.data)
  }

  function CommandOf(r: Request): Command {
    if r.write then WriteSector(r.addr, r.data) else ReadSector(r.addr)
  }

  ghost predicate Differ(queue: seq<int>, j: int, k: int)
    requires 0 <= j < |queue| && 0 <= k < |queue|
  {
    queue[j] != queue[k]
  }

  /** The buffers linked from head are those of queue, in order. */
  ghost predicate Chain(buf: seq<Buf>, head: int, queue: seq<int>) {
    && head == (if queue == [] then -1 else queue[0])
    && (forall k {:trigger queue[k]} :: 0 <= k < |queue| ==>
      0 <= queue[k] < |buf| && buf[queue[k]].qnext == if k + 1 < |queue| then queue[k + 1] else -1)
    && (forall j, k {:trigger Differ(queue, j, k)} :: 0 <= j < k < |queue| ==> Differ(queue, j, k))
  }

  /** Queued buffers still hold what was asked, and wait. */
  ghost predicate Queued(buf: seq<Buf>, queue: seq<int>, log: seq<Request>, done: nat) {
    && |log| == done + |queue|
    && forall k {:trigger queue[k]} :: 0 <= k < |queue| ==>
      0 <= queue[k] < |buf| && Pending(buf[queue[k]]) && log[done + k] == RequestOf(queue[k], buf[queue[k]])
  }

  /** Each served request got the answer of the synchronous driver on the disk as it was at its turn. */
  ghost predicate Answered(disk0: Disk, log: seq<Request>, answers: seq<Block>) {
    && |answers| <= |log|
    && forall k {:trigger answers[k]} :: 0 <= k < |answers| ==> answers[k] == SyncData(Replay(disk0, log[..k]), log[k])
  }

  // ----- any order of events -----

  /** What the driver knows and has done. */
  datatype State = State(buf: seq<Buf>, disk: Disk, queue: seq<int>, log: seq<Request>, answers: seq<Block>)

  predicate Done(b: Buf) {
    b.valid && !b.dirty
  }

  /** iderw has queued buffer c. */
  ghost predicate Submits(s: State, t: State, c: int) {
    && 0 <= c < |s.buf| == |t.buf| && c !in s.queue
    && t.queue == s.queue + [c] && t.log == s.log + [RequestOf(c, s.buf[c])] && t.answers == s.answers
    && t.disk == s.disk
    && (forall i {:trigger t.buf[i]} :: 0 <= i < |s.buf| ==> t.buf[i] == s.buf[i].(qnext := t.buf[i].qnext))
  }

  /** ideintr has served the head of the queue, if there is one, as the synchronous driver would. */
  ghost predicate Serves(s: State, t: State) {
    && t.log == s.log && |t.buf| == |s.buf|
    && if s.queue == [] then t.buf == s.buf && t.disk == s.disk && t.queue == [] && t.answers == s.answers
       else
         && |s.answers| < |s.log| && 0 <= s.queue[0] < |s.buf| && t.queue == s.queue[1..]
         && var b, r := s.queue[0], s.log[|s.answers|];
         && t.answers == s.answers + [SyncData(s.disk, r)] && t.disk == SyncDisk(s.disk, r)
         && t.buf == s.buf[b := s.buf[b].(valid := true, dirty := false, data := SyncData(s.disk, r))]
  }

  /** The holder of a buffer that is not queued changes it. */
  ghost predicate Edits(s: State, t: State, c: int) {
    0 <= c < |s.buf| == |t.buf| && c !in s.queue && t == s.(buf := s.buf[c := t.buf[c]])
  }

  /** Requests are served in order, each buffer is queued once, and the disk is the one of the requests served. */
  ghost predicate InOrder(disk0: Disk, s: State) {
    && |s.log| == |s.answers| + |s.queue| && s.disk == Replay(disk0, s.log[..|s.answers|])
    && (forall j, k {:trigger Differ(s.queue, j, k)} :: 0 <= j < k < |s.queue| ==> Differ(s.queue, j, k))
  }

  /** Request k, for buffer b: before its turn the buffer waits in the queue, afterwards it holds what the synchronous
      driver answers in that place. */
  ghost predicate Tracks(disk0: Disk, s: State, b: int, k: nat) {
    && 0 <= b < |s.buf| && k < |s.log| && |s.answers| <= |s.log| == |s.answers| + |s.queue|
    && (Done(s.buf[b]) <==> k < |s.answers|)
    && if k < |s.answers| then b !in s.queue && s.buf[b].data == SyncData(Replay(disk0, s.log[..k]), s.log[k])
       else s.queue[k - |s.answers|] == b
  }

  lemma {:induction false} TracksSubmitted(disk0: Disk, s: State, t: State, b: int, k: nat, c: int)
    requires InOrder(disk0, s) && Tracks(disk0, s, b, k) && Submits(s, t, c) && c != b
    ensures InOrder(disk0, t) && Tracks(disk0, t, b, k) && s.log <= t.log
  {
    hide Replay, SyncData, RequestOf, AddrOf;
    assert t.log[..k] == s.log[..k] && t.log[..|s.answers|] == s.log[..|s.answers|];
    assert t.buf[b] == s.buf[b].(qnext := t.buf[b].qnext);
    forall i, j | 0 <= i < j < |t.queue| ensures Differ(t.queue, i, j) {
      assert j < |s.queue| ==> Differ(s.queue, i, j);
      assert t.queue[i] == s.queue[i];
    }
  }

  lemma {:induction false} TracksEdited(disk0: Disk, s: State, t: State, b: int, k: nat, c: int)
    requires InOrder(disk0, s) && Tracks(disk0, s, b, k) && Edits(s, t, c) && c != b
    ensures InOrder(disk0, t) && Tracks(disk0, t, b, k) && s.log <= t.log
  {
    hide Replay, SyncData;
  }

  lemma {:induction false} TracksServed(disk0: Disk, s: State, t: State, b: int, k: nat)
    requires InOrder(disk0, s) && Tracks(disk0, s, b, k) && Serves(s, t)
    ensures InOrder(disk0, t) && Tracks(disk0, t, b, k) && s.log <= t.log
  {
    hide SyncData, SyncDisk;
    if s.queue != [] {
      var n := |s.answers|;
      assert s.log[..n + 1][..n] == s.log[..n];
      forall i, j | 0 <= i < j < |t.queue| ensures Differ(t.queue, i, j) {
        assert Differ(s.queue, i + 1, j + 1);
      }
      if k >= n {
        forall j | 0 < j < |s.queue| ensures s.queue[j] != s.queue[0] {
          assert Differ(s.queue, 0, j);
        }
      }
    }
  }

  /** Each state of the run comes from the one before by an interrupt, or by another process with a buffer other
      than b: it changes the buffer, or asks for its transfer. */
  ghost predicate IsRun(run: seq<State>, b: int) {
    forall j {:trigger run[j]} :: 0 < j < |run| ==> Happens(run[j - 1], run[j], b)
  }

  ghost predicate Happens(s: State, t: State, b: int) {
    Serves(s, t) || exists c :: c != b && (Submits(s, t, c) || Edits(s, t, c))
  }

  /** However interrupts and other requests are interleaved: as soon as b is valid and clean, it holds what the
      synchronous driver answers in its place, and the disk is always the one of the requests served so far. */
  lemma {:induction false} ServedInTurn(disk0: Disk, run: seq<State>, b: int, k: nat, j: nat)
    requires IsRun(run, b) && j < |run| && InOrder(disk0, run[0]) && Tracks(disk0, run[0], b, k)
    ensures InOrder(disk0, run[j]) && Tracks(disk0, run[j], b, k) && run[0].log <= run[j].log
  {
    hide InOrder, Tracks, Submits, Serves, Edits;
    if j > 0 {
      ServedInTurn(disk0, run, b, k, j - 1);
      assert Happens(run[j - 1], run[j], b);
      if Serves(run[j - 1], run[j]) {
        TracksServed(disk0, run[j - 1], run[j], b, k);
      } else {
        var c :| c != b && (Submits(run[j - 1], run[j], c) || Edits(run[j - 1], run[j], c));
        if Submits(run[j - 1], run[j], c) {
          TracksSubmitted(disk0, run[j - 1], run[j], b, k, c);
        } else {
          TracksEdited(disk0, run[j - 1], run[j], b, k, c);
        }
      }
    }
  }

  /** The request that iderw has just queued. */
  lemma {:induction false} TracksNew(disk0: Disk, s: State, t: State, b: int)
    requires InOrder(disk0, s) && Submits(s, t, b) && !Done(s.buf[b])
    ensures InOrder(disk0, t) && Tracks(disk0, t, b, |s.log|)
  {
    hide Replay, SyncData, RequestOf, AddrOf;
    assert t.log[..|s.answers|] == s.log[..|s.answers|];
    assert t.buf[b] == s.buf[b].(qnext := t.buf[b].qnext);
    forall i, j | 0 <= i < j < |t.queue| ensures Differ(t.queue, i, j) {
      assert j < |s.queue| ==> Differ(s.queue, i, j);
      assert t.queue[i] == s.queue[i];
    }
  }

  class Driver {
    var buf: seq<Buf>
    var idequeue: int
    var command: Command
    var disk: Disk
    const havedisk1: bool
    ghost const disk0: Disk
    var queue: seq<int> // the buffers linked from idequeue, each held by the process that waits for it
    ghost var log: seq<Request>
    ghost var answers: seq<Block>

    /** The active request is the head of the queue, which holds the requests not yet answered in order. */
    ghost predicate Valid()
      reads this
    {
      && Chain(buf, idequeue, queue) && Queued(buf, queue, log, |answers|) && Answered(disk0, log, answers)
      && disk == Replay(disk0, log[..|answers|])
      && command == if queue == [] then NoCommand else CommandOf(log[|answers|])
    }

    constructor (bufs: seq<Buf>, disk: Disk, second: bool)
      ensures Valid() && buf == bufs && this.disk == disk == disk0 && havedisk1 == second && queue == [] && log == []
      ensures answers == []
    {
      buf, idequeue, command, this.disk, havedisk1, disk0 := bufs, -1, NoCommand, disk, second, disk;
      queue, log, answers := [], [], [];
    }

    /** idestart. */
    method Start(b: int)
      requires 0 <= b < |buf|
      modifies this`command
      ensures command == CommandOf(RequestOf(b, buf[b]))
    {
      DecodeTaskFile(buf[b]);
      var a := Decode(TaskFile(buf[b].dev, buf[b].sector));
      command := if buf[b].dirty then WriteSector(a, buf[b].data) else ReadSector(a);
    }

    /** The walk of iderw to the end of the queue. */
    method LastInQueue() returns (q: int)
      requires Chain(buf, idequeue, queue)
      ensures q == if queue == [] then -1 else queue[|queue| - 1]
    {
      q := idequeue;
      ghost var k := 0;
      while q != -1 && buf[q].qnext != -1
        invariant 0 <= k && (if queue == [] then q == -1 else k < |queue| && q == queue[k])
        decreases |queue| - k
      {
        q := buf[q].qnext;
        k := k + 1;
      }
    }

    /** The insertion of iderw. */
    method Enqueue(b: int)
      requires Chain(buf, idequeue, queue) && 0 <= b < |buf| && b !in queue
      modifies this`buf, this`idequeue
      ensures idequeue == if queue == [] then b else old(idequeue)
      ensures Linked(old(buf), buf, queue, b)
    {
      hide Chain;
      Unlinked(buf, idequeue, queue, b);
      LinkedAt(buf, idequeue, queue, b);
      buf := buf[b := buf[b].(qnext := -1)];
      var q := LastInQueue();
      if q == -1 {
        idequeue := b;
      } else {
        buf := buf[q := buf[q].(qnext := b)];
      }
    }

    ghost function Now(): State
      reads this
    {
      State(buf, disk, queue, log, answers)
    }

    lemma {:induction false} ValidInOrder()
      requires Valid()
      ensures InOrder(disk0, Now())
    {
    }

    /** The three checks at the start of iderw. */
    predicate Acceptable(b: int)
      requires 0 <= b < |buf|
      reads this
    {
      Pending(buf[b]) && (buf[b].dev == 0 || havedisk1)
    }

    /** iderw up to its wait. */
    method Submit(b: int) returns (r: Outcome<()>)
      requires Valid() && 0 <= b < |buf| && b !in queue
      modifies this`buf, this`idequeue, this`command, this`queue, this`log
      ensures Valid() && r == if old(Acceptable(b)) then Ok(()) else Panic
      ensures r.Panic? ==> unchanged(this)
      ensures r.Ok? ==> Submits(old(Now()), Now(), b)
    {
      hide Chain, Queued, Answered, Replay, RequestOf, CommandOf, Linked;
      if !buf[b].busy { return Panic; }
      if buf[b].valid && !buf[b].dirty { return Panic; }
      if buf[b].dev != 0 && !havedisk1 { return Panic; }
      LinkedAt(buf, idequeue, queue, b);
      LogSize(buf, queue, log, |answers|);
      Enqueue(b);
      LinkedSame(old(buf), buf, queue, b);
      SameRequest(b, old(buf)[b], buf[b]);
      Appended(old(buf), old(idequeue), queue, log, |answers|, buf, idequeue, b);
      if idequeue == b {
        Start(b);
      }
      ghost var req := RequestOf(b, buf[b]);
      assert (log + [req])[..|answers|] == log[..|answers|];
      AnsweredMore(disk0, log, answers, req);
      queue, log := queue + [b], log + [req];
      return Ok(());
    }

    /** The controller finishes its command, and ideintr fetches the data of a read. */
    method Finish(b: int, ghost r: Request)
      requires 0 <= b < |buf| && r == RequestOf(b, buf[b]) && command == CommandOf(r)
      modifies this`buf, this`disk
      ensures disk == SyncDisk(old(disk), r)
      ensures buf == old(buf)[b := old(buf)[b].(valid := true, dirty := false, data := SyncData(old(disk), r))]
    {
      if command.WriteSector? {
        disk := disk[command.addr := command.data];
      }
      if !buf[b].dirty {
        buf := buf[b := buf[b].(data := Get(disk, command.addr))];
      }
      buf := buf[b := buf[b].(valid := true, dirty := false)];
    }

    /** ideintr: the head of the queue is served, and the next request is started. */
    method Interrupt()
      requires Valid()
      modifies this
      ensures Valid() && Serves(old(Now()), Now())
    {
      hide Chain, Queued, Answered, Replay, RequestOf, SyncData, SyncDisk, CommandOf, Serves, Pending;
      HeadIs(buf, idequeue, queue, log, |answers|);
      if idequeue == -1 {
        ServesNone(Now());
        return;
      }
      var b := idequeue;
      ghost var r := log[|answers|];
      idequeue := buf[b].qnext;
      Finish(b, r);
      NextIs(old(buf), old(idequeue), queue, log, |answers|, buf[b]);
      if idequeue != -1 {
        Start(idequeue);
      } else {
        command := NoCommand;
      }
      AnsweredNext(disk0, log, answers, old(disk));
      queue, answers := queue[1..], answers + [SyncData(old(disk), r)];
      ServesHead(old(Now()), Now());
    }

    /** iderw when it wakes up: it sleeps again until its request has been served, and returns with the answer that the
        synchronous driver gives in that place, whatever else was asked meanwhile. */
    method Resume(b: int, ghost k: nat) returns (r: Outcome<()>)
      requires Valid() && Tracks(disk0, Now(), b, k)
      ensures r == if k < |answers| then Ok(()) else Sleep
      ensures r.Ok? ==> Done(buf[b]) && buf[b].data == SyncData(Replay(disk0, log[..k]), log[k])
    {
      r := if buf[b].valid && !buf[b].dirty then Ok(()) else Sleep;
    }

    /** What other processes do while one waits for b: any number of times, one of them changes a buffer that it holds
        and calls iderw on it. */
    method Meanwhile(b: int, ghost k: nat)
      requires Valid() && InOrder(disk0, Now()) && Tracks(disk0, Now(), b, k)
      modifies this`buf, this`idequeue, this`command, this`queue, this`log
      ensures Valid() && InOrder(disk0, Now()) && Tracks(disk0, Now(), b, k)
      ensures |buf| == |old(buf)| && old(log) <= log
    {
      hide Driver.Valid, Submits, InOrder, Tracks;
      var n: nat := *;
      while n > 0
        invariant Valid() && InOrder(disk0, Now()) && Tracks(disk0, Now(), b, k)
        invariant |buf| == |old(buf)| && old(log) <= log
      {
        var c: int, held: Buf := *, *;
        if 0 <= c < |buf| && c != b && c !in queue {
          ghost var s := Now();
          Edit(c, held);
          TracksEdited(disk0, s, Now(), b, k, c);
          s := Now();
          var r := Submit(c);
          if r.Ok? {
            SubmittedFacts(s, Now(), c);
            TracksSubmitted(disk0, s, Now(), b, k, c);
          }
        }
        n := n - 1;
      }
    }

    /** The holder of a buffer that is not queued changes it. */
    method Edit(c: int, held: Buf)
      requires Valid() && 0 <= c < |buf| && c !in queue
      modifies this`buf
      ensures Valid() && buf == old(buf)[c := held] && Edits(old(Now()), Now(), c)
    {
      hide Chain, Queued, Answered, Replay, CommandOf;
      Unqueued(buf, idequeue, queue, log, |answers|, c, held);
      buf := buf[c := held];
    }

    /** iderw: whatever other processes ask while it waits, it returns after as many interrupts as requests were queued
        before it and its own, and then buffer and disk are as the synchronous driver leaves them when it serves the
        requests in the order in which they came. */
    method IdeRw(b: int, alone: bool) returns (r: Outcome<()>)
      requires Valid() && 0 <= b < |buf| && b !in queue
      modifies this
      ensures Valid() && r == if old(Acceptable(b)) then Ok(()) else Panic
      ensures r.Panic? ==> unchanged(this)
      ensures r.Ok? ==>
        var req := RequestOf(b, old(buf)[b]);
        && |buf| == |old(buf)| && old(log) + [req] <= log && |answers| == |old(answers)| + |old(queue)| + 1
        && Done(buf[b]) && buf[b].data == SyncData(Replay(disk0, old(log)), req)
        && disk == Replay(disk0, old(log) + [req])
        && (old(queue) == [] ==> disk == SyncDisk(old(disk), req) && buf[b].data == SyncData(old(disk), req))
        && (alone ==> log == old(log) + [req] && queue == [])
    {
      hide Driver.Valid, Replay, RequestOf, SyncData, SyncDisk, Submits, Serves, InOrder, Tracks;
      ghost var k, req := |log|, RequestOf(b, buf[b]);
      ValidInOrder();
      OrderFacts(disk0, Now());
      r := Submit(b);
      if r.Panic? {
        return;
      }
      TracksNew(disk0, old(Now()), Now(), b);
      SubmittedFacts(old(Now()), Now(), b);
      TracksFacts(disk0, Now(), b, k);
      while !(buf[b].valid && !buf[b].dirty)
        invariant Valid() && InOrder(disk0, Now()) && Tracks(disk0, Now(), b, k) && |buf| == |old(buf)|
        invariant old(log) + [req] <= log && |answers| <= k + 1 && (Done(buf[b]) <==> |answers| == k + 1)
        invariant alone ==> log == old(log) + [req]
        decreases k + 1 - |answers|
      {
        if !alone {
          Meanwhile(b, k);
        }
        TracksFacts(disk0, Now(), b, k);
        ghost var s := Now();
        Interrupt();
        ServedFacts(s, Now());
        TracksServed(disk0, s, Now(), b, k);
        TracksFacts(disk0, Now(), b, k);
      }
      TracksFacts(disk0, Now(), b, k);
      assert log[..k] == old(log) && log[k] == req && log[..k + 1] == old(log) + [req];
      ReplayMore(disk0, old(log), req);
      assert old(queue) == [] ==> old(log)[..|old(answers)|] == old(log);
    }
  }

  lemma {:induction false} Unqueued(buf: seq<Buf>, head: int, queue: seq<int>, log: seq<Request>, done: nat, c: int,
                                    held: Buf)
    requires Chain(buf, head, queue) && Queued(buf, queue, log, done) && 0 <= c < |buf| && c !in queue
    ensures Chain(buf[c := held], head, queue) && Queued(buf[c := held], queue, log, done)
  {
  }

  lemma {:induction false} ServesNone(s: State)
    requires s.queue == []
    ensures Serves(s, s)
  {
  }

  lemma {:induction false} ServesHead(s: State, t: State)
    requires s.queue != [] && |s.answers| < |s.log| && 0 <= s.queue[0] < |s.buf| && t.queue == s.queue[1..]
    requires var b, r := s.queue[0], s.log[|s.answers|];
      t == s.(queue := s.queue[1..], answers := s.answers + [SyncData(s.disk, r)], disk := SyncDisk(s.disk, r),
              buf := s.buf[b := s.buf[b].(valid := true, dirty := false, data := SyncData(s.disk, r))])
    ensures Serves(s, t)
  {
  }

  lemma {:induction false} ReplayMore(disk0: Disk, log: seq<Request>, r: Request)
    ensures Replay(disk0, log + [r]) == SyncDisk(Replay(disk0, log), r)
  {
    assert (log + [r])[..|log|] == log;
  }

  lemma {:induction false} OrderFacts(disk0: Disk, s: State)
    requires InOrder(disk0, s)
    ensures |s.log| == |s.answers| + |s.queue| && s.disk == Replay(disk0, s.log[..|s.answers|])
  {
  }

  lemma {:induction false} SubmittedFacts(s: State, t: State, b: int)
    requires Submits(s, t, b)
    ensures t.log == s.log + [RequestOf(b, s.buf[b])] && |t.buf| == |s.buf|
  {
  }

  lemma {:induction false} ServedFacts(s: State, t: State)
    requires Serves(s, t)
    ensures t.log == s.log && |t.buf| == |s.buf|
    ensures s.queue != [] ==> |t.queue| == |s.queue| - 1 && |t.answers| == |s.answers| + 1
  {
  }

  lemma {:induction false} TracksFacts(disk0: Disk, s: State, b: int, k: nat)
    requires InOrder(disk0, s) && Tracks(disk0, s, b, k)
    ensures |s.log| == |s.answers| + |s.queue| && s.disk == Replay(disk0, s.log[..|s.answers|]) && k < |s.log|
    ensures (Done(s.buf[b]) <==> k < |s.answers|) && (k >= |s.answers| ==> s.queue != [])
    ensures k < |s.answers| ==> s.buf[b].data == SyncData(Replay(disk0, s.log[..k]), s.log[k])
  {
  }

  lemma {:induction false} HeadIs(buf: seq<Buf>, head: int, queue: seq<int>, log: seq<Request>, done: nat)
    requires Chain(buf, head, queue) && Queued(buf, queue, log, done)
    ensures head == (if queue == [] then -1 else queue[0])
    ensures (queue != [] ==> 0 <= head < |buf| && done < |log| && log[done] == RequestOf(head, buf[head]))
  {
  }

  lemma {:induction false} NextIs(buf: seq<Buf>, head: int, queue: seq<int>, log: seq<Request>, done: nat, served: Buf)
    requires Chain(buf, head, queue) && Queued(buf, queue, log, done) && queue != [] && 0 <= head < |buf|
    ensures Chain(buf[head := served], buf[head].qnext, queue[1..])
    ensures Queued(buf[head := served], queue[1..], log, done + 1)
    ensures |queue| == 1 ==> buf[head].qnext == -1
    ensures |queue| > 1 ==>
      && 0 <= buf[head].qnext < |buf| && done + 1 < |log|
      && log[done + 1] == RequestOf(buf[head].qnext, buf[head := served][buf[head].qnext])
  {
    var queue', buf' := queue[1..], buf[head := served];
    assert queue[0] == head;
    forall k {:trigger queue'[k]} | 0 <= k < |queue'|
      ensures 0 <= queue'[k] < |buf'| && buf'[queue'[k]].qnext == (if k + 1 < |queue'| then queue'[k + 1] else -1)
      ensures Pending(buf'[queue'[k]]) && log[done + 1 + k] == RequestOf(queue'[k], buf'[queue'[k]])
    {
      assert queue'[k] == queue[k + 1] && Differ(queue, 0, k + 1);
    }
    forall j, k | 0 <= j < k < |queue'| ensures Differ(queue', j, k) {
      assert Differ(queue, j + 1, k + 1);
    }
    if |queue| > 1 {
      assert Differ(queue, 0, 1) && log[done + 1] == RequestOf(queue[1], buf[queue[1]]);
    }
  }

  lemma {:induction false} AnsweredNext(disk0: Disk, log: seq<Request>, answers: seq<Block>, disk: Disk)
    requires Answered(disk0, log, answers) && |answers| < |log| && disk == Replay(disk0, log[..|answers|])
    ensures Answered(disk0, log, answers + [SyncData(disk, log[|answers|])])
    ensures Replay(disk0, log[..|answers| + 1]) == SyncDisk(disk, log[|answers|])
  {
    var n := |answers|;
    assert log[..n + 1][..n] == log[..n];
    var answers' := answers + [SyncData(disk, log[n])];
    forall k {:trigger answers'[k]} | 0 <= k < |answers'|
      ensures answers'[k] == SyncData(Replay(disk0, log[..k]), log[k])
    {
      assert k < n ==> answers'[k] == answers[k];
    }
  }

  /** b is linked behind the last buffer of queue. */
  ghost predicate Linked(buf: seq<Buf>, buf': seq<Buf>, queue: seq<int>, b: int) {
    && |buf'| == |buf|
    && forall i {:trigger buf'[i]} :: 0 <= i < |buf| ==>
      buf'[i] == buf[i].(qnext :=
        if i == b then -1 else if queue != [] && i == queue[|queue| - 1] then b else buf[i].qnext)
  }

  lemma {:induction false} LinkedSame(buf: seq<Buf>, buf': seq<Buf>, queue: seq<int>, b: int)
    requires Linked(buf, buf', queue, b)
    ensures |buf'| == |buf|
    ensures forall i {:trigger buf'[i]} :: 0 <= i < |buf| ==> buf'[i] == buf[i].(qnext := buf'[i].qnext)
  {
  }

  lemma {:induction false} LogSize(buf: seq<Buf>, queue: seq<int>, log: seq<Request>, done: nat)
    requires Queued(buf, queue, log, done)
    ensures |log| == done + |queue|
  {
  }

  lemma {:induction false} Unlinked(buf: seq<Buf>, head: int, queue: seq<int>, b: int)
    requires Chain(buf, head, queue) && 0 <= b < |buf| && b !in queue
    ensures Chain(buf[b := buf[b].(qnext := -1)], head, queue)
  {
  }

  lemma {:induction false} LinkedAt(buf: seq<Buf>, head: int, queue: seq<int>, b: int)
    requires Chain(buf, head, queue) && b !in queue
    ensures head == (if queue == [] then -1 else queue[0])
    ensures (queue != [] ==> 0 <= queue[|queue| - 1] < |buf| && queue[|queue| - 1] != b && head != b && head != -1)
  {
  }

  lemma {:induction false} SameRequest(i: int, b: Buf, b': Buf)
    requires b' == b.(qnext := b'.qnext)
    ensures RequestOf(i, b') == RequestOf(i, b)
  {
  }

  lemma {:induction false} AnsweredMore(disk0: Disk, log: seq<Request>, answers: seq<Block>, r: Request)
    requires Answered(disk0, log, answers)
    ensures Answered(disk0, log + [r], answers)
  {
    forall k {:trigger answers[k]} | 0 <= k < |answers|
      ensures answers[k] == SyncData(Replay(disk0, (log + [r])[..k]), (log + [r])[k])
    {
      assert (log + [r])[..k] == log[..k];
    }
  }

  /** Linking b behind the last buffer appends it to the queue. */
  lemma {:induction false} Appended(buf: seq<Buf>, head: int, queue: seq<int>, log: seq<Request>, done: nat,
                                    buf': seq<Buf>, head': int, b: int)
    requires Chain(buf, head, queue) && Queued(buf, queue, log, done) && 0 <= b < |buf| && b !in queue
    requires Pending(buf[b])
    requires Linked(buf, buf', queue, b) && head' == if queue == [] then b else head
    ensures Chain(buf', head', queue + [b]) && Queued(buf', queue + [b], log + [RequestOf(b, buf'[b])], done)
  {
    var queue', log' := queue + [b], log + [RequestOf(b, buf'[b])];
    forall k {:trigger queue'[k]} | 0 <= k < |queue'|
      ensures 0 <= queue'[k] < |buf'| && buf'[queue'[k]].qnext == (if k + 1 < |queue'| then queue'[k + 1] else -1)
      ensures Pending(buf'[queue'[k]]) && log'[done + k] == RequestOf(queue'[k], buf'[queue'[k]])
    {
      if k < |queue| {
        assert queue'[k] == queue[k] && log'[done + k] == log[done + k];
        assert k + 1 < |queue| ==> Differ(queue, k, |queue| - 1);
      }
    }
    forall j, k | 0 <= j < k < |queue'| ensures Differ(queue', j, k) {
      assert queue'[j] == queue[j] && (k < |queue| ==> queue'[k] == queue[k] && Differ(queue, j, k));
    }
  }
}
