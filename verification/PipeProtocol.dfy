/** Pipes (pipe.c) and sleep/wakeup (proc.c) as a machine of interleaved steps. A step of a process is what
    it does between two points where another process can see a difference; acquire waits until the
    lock is free. Any number of processes may use the pipe. */
module PipeProtocol {
  const PIPESIZE := 512
  const WRAP := 0x1_0000_0000

  /** The calls pipewrite, piperead and pipeclose. */
  datatype Call = Writing | Reading | Closing(writable: bool)

  /** Where a process stands in its call. SleepLock, Unlock and Sleep are the steps of sleep(): take the
      process table's lock, let go of the pipe's, go to sleep. In Asleep the process is SLEEPING, in Awake it
      is RUNNABLE again and has not yet the pipe's lock. */
  datatype Point =
    Idle | Acquire | Loop | Test | Wake | SleepLock | Unlock | Sleep | Asleep | Awake | Body | Last | Done

  /** buf holds the bytes to write, or the bytes read so far; i and n are the source's loop variables. */
  datatype Proc = Proc(call: Call, point: Point, i: int, n: int, buf: seq<int>, killed: bool, failed: bool)

  /** lock and tableLock name the holder of the pipe's and the process table's lock, or -1. readCloser
      and writeCloser name the process that drops the last reference to an end, or -1. stored and taken
      record every byte ever put into and taken out of the pipe. */
  datatype State = State(
    lock: int, tableLock: int, nread: int, nwrite: int, data: seq<int>, readOpen: bool, writeOpen: bool,
    readCloser: int, writeCloser: int, proc: seq<Proc>, stored: seq<int>, taken: seq<int>)

  datatype Event =
    StartWrite(p: int, bytes: seq<int>) | StartRead(p: int, n: nat) | StartClose(p: int, writable: bool) | Run(p: int)
    | Kill(p: int)

  predicate InWrite(me: Proc) {
    me.call.Writing? && !me.point.Idle?
  }

  predicate InRead(me: Proc) {
    me.call.Reading? && !me.point.Idle?
  }

  predicate HoldsLock(at: Point) {
    !(at.Idle? || at.Acquire? || at.Sleep? || at.Asleep? || at.Awake?)
  }

  predicate HoldsTable(at: Point) {
    at.Unlock? || at.Sleep?
  }

  // ----- steps -----

  function Move(s: State, p: int, to: Point): State
    requires 0 <= p < |s.proc|
  {
    s.(proc := s.proc[p := s.proc[p].(point := to)])
  }

  /** Whether the wakeup of this call is for readers, on nread, or for writers, on nwrite. */
  predicate ForReaders(call: Call) {
    call.Writing? || (call.Closing? && call.writable)
  }

  /** What wakeup does to a process. */
  function Woken(me: Proc, readers: bool): Proc {
    if me.point.Asleep? && me.call == (if readers then Reading else Writing) then me.(point := Awake) else me
  }

  /** wakeup: every process asleep on the channel becomes runnable. */
  function WakeAll(s: State, readers: bool): (r: State)
    ensures |r.proc| == |s.proc|
    ensures forall q {:trigger r.proc[q]} :: 0 <= q < |s.proc| ==> r.proc[q] == Woken(s.proc[q], readers)
  {
    s.(proc := seq(|s.proc|, q requires 0 <= q < |s.proc| => Woken(s.proc[q], readers)))
  }

  /** The loop body and the tests of pipewrite. */
  function WriteStep(s: State, p: int): (r: State)
    requires 0 <= p < |s.proc| && |s.data| == PIPESIZE
    ensures |r.data| == |s.data| && |r.proc| == |s.proc|
  {
    var me := s.proc[p];
    match me.point
    case Loop => Move(s, p, if me.i < me.n then Test else Last)
    case Test =>
      if s.nwrite == (s.nread + PIPESIZE) % WRAP then
        if !s.readOpen || me.killed then
          s.(proc := s.proc[p := me.(point := Done, failed := true)])
        else
          Move(s, p, Wake)
      else Move(s, p, Body)
    case Wake => if s.tableLock == -1 then Move(WakeAll(s, true), p, SleepLock) else s
    case Body => if !(0 <= me.i < |me.buf|) then s else
      s.(data := s.data[s.nwrite % PIPESIZE := me.buf[me.i]], nwrite := (s.nwrite + 1) % WRAP,
        stored := s.stored + [me.buf[me.i]],
        proc := s.proc[p := me.(point := Loop, i := me.i + 1)])
    case _ => s
  }

  /** The loop body and the tests of piperead. */
  function ReadStep(s: State, p: int): (r: State)
    requires 0 <= p < |s.proc| && |s.data| == PIPESIZE
    ensures |r.data| == |s.data| && |r.proc| == |s.proc|
  {
    var me := s.proc[p];
    match me.point
    case Test =>
      if s.nread == s.nwrite && s.writeOpen then
        if me.killed then s.(proc := s.proc[p := me.(point := Done, failed := true)]) else Move(s, p, SleepLock)
      else Move(s, p, Body)
    case Body =>
      if me.i < me.n && s.nread != s.nwrite then
        var byte := s.data[s.nread % PIPESIZE];
        s.(nread := (s.nread + 1) % WRAP, taken := s.taken + [byte],
           proc := s.proc[p := me.(i := me.i + 1, buf := me.buf + [byte])])
      else Move(s, p, Last)
    case _ => s
  }

  /** pipeclose marks its end closed. */
  function CloseStep(s: State, p: int, writable: bool): (r: State)
    requires 0 <= p < |s.proc|
    ensures |r.data| == |s.data| && |r.proc| == |s.proc|
  {
    if !s.proc[p].point.Body? then s
    else if writable then Move(s, p, Last).(writeOpen := false)
    else Move(s, p, Last).(readOpen := false)
  }

  /** The steps that the calls share: acquire, sleep, the last wakeup and release. */
  function SharedStep(s: State, p: int): (r: State)
    requires 0 <= p < |s.proc|
    ensures |r.data| == |s.data| && |r.proc| == |s.proc|
  {
    var me := s.proc[p];
    match me.point
    case Acquire =>
      if s.lock == -1 then
        Move(s, p, if me.call.Writing? then Loop else if me.call.Reading? then Test else Body).(lock := p)
      else
        s
    case SleepLock => if s.tableLock == -1 then Move(s, p, Unlock).(tableLock := p) else s
    case Unlock => Move(s, p, Sleep).(lock := -1)
    case Sleep => Move(s, p, Asleep).(tableLock := -1)
    case Awake => if s.lock == -1 then Move(s, p, Test).(lock := p) else s
    case Last => if s.tableLock == -1 then Move(WakeAll(s, ForReaders(me.call)), p, Done) else s
    case Done => Move(s, p, Idle).(lock := -1)
    case _ => s
  }

  predicate Shared(at: Point) {
    at.Acquire? || at.SleepLock? || at.Unlock? || at.Sleep? || at.Awake? || at.Last? || at.Done?
  }

  function Step(s: State, p: int): (r: State)
    requires 0 <= p < |s.proc| && |s.data| == PIPESIZE
    ensures |r.data| == |s.data| && |r.proc| == |s.proc|
  {
    if Shared(s.proc[p].point) then SharedStep(s, p)
    else match s.proc[p].call
      case Writing => WriteStep(s, p)
      case Reading => ReadStep(s, p)
      case Closing(w) => CloseStep(s, p, w)
  }

  predicate IdleAt(s: State, p: int) {
    0 <= p < |s.proc| && s.proc[p].point.Idle?
  }

  function Begin(s: State, p: int, me: Proc): State
    requires 0 <= p < |s.proc|
  {
    s.(proc := s.proc[p := me])
  }

  /** No process is in a call on this end. */
  predicate Unused(s: State, writable: bool) {
    forall q :: 0 <= q < |s.proc| ==> if writable then !InWrite(s.proc[q]) else !InRead(s.proc[q])
  }

  /** What an event does; an event that cannot happen now does nothing. Calls are made through an end of
      the pipe that is still referenced, by a process that was not killed. */
  function Apply(s: State, e: Event): (r: State)
    requires |s.data| == PIPESIZE
    ensures |r.data| == PIPESIZE && |r.proc| == |s.proc|
  {
    match e
    case StartWrite(p, bytes) =>
      if IdleAt(s, p) && s.writeCloser == -1 && !s.proc[p].killed then
        Begin(s, p, Proc(Writing, Acquire, 0, |bytes|, bytes, false, false))
      else
        s
    case StartRead(p, n) =>
      if IdleAt(s, p) && s.readCloser == -1 && !s.proc[p].killed then
        Begin(s, p, Proc(Reading, Acquire, 0, n, [], false, false))
      else
        s
    case StartClose(p, w) =>
      if IdleAt(s, p) && (if w then s.writeCloser else s.readCloser) == -1 && Unused(s, w) then
        var s1 := Begin(s, p, s.proc[p].(call := Closing(w), point := Acquire));
        if w then s1.(writeCloser := p) else s1.(readCloser := p)
      else s
    case Run(p) => if 0 <= p < |s.proc| then Step(s, p) else s
    case Kill(p) =>
      if !(0 <= p < |s.proc|) || s.tableLock != -1 then s
      else
        var me := s.proc[p];
        Begin(s, p, me.(killed := true, point := if me.point.Asleep? then Awake else me.point))
  }

  /** The state after a run. */
  function After(s: State, run: seq<Event>): (r: State)
    requires |s.data| == PIPESIZE
    ensures |r.data| == PIPESIZE && |r.proc| == |s.proc|
    decreases |run|
  {
    if run == [] then s else Apply(After(s, run[..|run| - 1]), run[|run| - 1])
  }

  /** A new pipe among n processes. */
  function NewPipe(n: nat, data: seq<int>): State
    requires |data| == PIPESIZE
  {
    State(-1, -1, 0, 0, data, true, true, -1, -1, seq(n, _ => Proc(Writing, Idle, 0, 0, [], false, false)), [], [])
  }

  // ----- first in, first out -----

  function Count(s: State): int {
    |s.stored| - |s.taken|
  }

  /** Where byte number k goes. */
  function Cell(k: int): (r: int)
    ensures 0 <= r < PIPESIZE
  {
    k % PIPESIZE
  }

  /** The counters count modulo 2^32, and the unread bytes are the ring slice between them. */
  ghost predicate Fifo(s: State) {
    && |s.data| == PIPESIZE && 0 <= Count(s) <= PIPESIZE && s.taken == s.stored[..|s.taken|]
    && s.nread == |s.taken| % WRAP && s.nwrite == |s.stored| % WRAP
    && forall k {:trigger s.stored[k]} :: |s.taken| <= k < |s.stored| ==> s.data[Cell(k)] == s.stored[k]
  }

  lemma {:induction false} Counters(s: State)
    requires Fifo(s)
    ensures s.nread == s.nwrite <==> Count(s) == 0
    ensures s.nwrite == (s.nread + PIPESIZE) % WRAP <==> Count(s) == PIPESIZE
    ensures s.nread % PIPESIZE == Cell(|s.taken|) && s.nwrite % PIPESIZE == Cell(|s.stored|)
  {
    SameRing(|s.taken|);
    SameRing(|s.stored|);
  }

  /** The ring size divides the counters' range. */
  lemma {:induction false} SameRing(a: nat)
    ensures a % WRAP % PIPESIZE == a % PIPESIZE
  {
    var q := a / WRAP;
    assert a == PIPESIZE * (q * (WRAP / PIPESIZE)) + a % WRAP;
    SameRemainder(q * (WRAP / PIPESIZE), a % WRAP);
  }

  lemma {:induction false} SameRemainder(m: int, b: int)
    ensures (PIPESIZE * m + b) % PIPESIZE == b % PIPESIZE
  {
  }

  // ----- no lost wakeup -----

  predicate GoingToSleep(at: Point) {
    at.SleepLock? || at.Unlock? || at.Sleep? || at.Asleep?
  }

  /** Bound to sleep on nread, or asleep there: from the check of the condition to the wakeup. */
  predicate ReaderSleeps(me: Proc) {
    me.call.Reading? && GoingToSleep(me.point)
  }

  predicate WriterSleeps(me: Proc) {
    me.call.Writing? && (me.point.Wake? || GoingToSleep(me.point))
  }

  /** A holder of the lock that will call wakeup(&nread) before it lets go. */
  predicate WillWakeReaders(me: Proc) {
    ForReaders(me.call) && (me.point.Last? || me.point.Body? || me.point.Loop? || me.point.Test? || me.point.Wake?)
  }

  predicate WillWakeWriters(me: Proc) {
    !ForReaders(me.call) && (me.point.Last? || me.point.Body?)
  }

  /** A sleeping reader has nothing to read and may get more, or the holder of the lock will wake it. */
  ghost predicate ReaderMaySleep(s: State) {
    (Count(s) == 0 && s.writeOpen) || (0 <= s.lock < |s.proc| && WillWakeReaders(s.proc[s.lock]))
  }

  ghost predicate WriterMaySleep(s: State) {
    (Count(s) == PIPESIZE && s.readOpen) || (0 <= s.lock < |s.proc| && WillWakeWriters(s.proc[s.lock]))
  }

  /** What holds of every process. The part about sleepers is claimed only of runs in which no writer abandons
      a sleeping reader, which is what safe says. */
  ghost predicate ProcOk(s: State, p: int, safe: bool)
    requires 0 <= p < |s.proc|
  {
    var me := s.proc[p];
    && (HoldsLock(me.point) <==> s.lock == p) && (HoldsTable(me.point) <==> s.tableLock == p)
    && (safe && ReaderSleeps(me) ==> ReaderMaySleep(s)) && (safe && WriterSleeps(me) ==> WriterMaySleep(s))
    && match me.call
      case Writing => WriterOk(s, me)
      case Reading => ReaderOk(s, me)
      case Closing(w) => !me.point.Idle? && !me.point.Done? ==>
        && (me.point.Acquire? || me.point.Body? || me.point.Last?)
        && p == if w then s.writeCloser else s.readCloser
  }

  ghost predicate WriterOk(s: State, me: Proc) {
    !me.point.Idle? ==>
      && 0 <= me.i <= me.n == |me.buf| && s.writeCloser == -1
      && (me.point.Test? || me.point.Body? || me.point.Awake? || WriterSleeps(me) ==> me.i < me.n)
      && (me.point.Body? ==> Count(s) < PIPESIZE)
  }

  ghost predicate ReaderOk(s: State, me: Proc) {
    !me.point.Idle? ==>
      && s.readCloser == -1 && !me.point.Wake? && !me.point.Loop?
      && (me.point.Acquire? || me.point.Test? || me.point.Awake? || GoingToSleep(me.point) ==>
          me.i == 0 && me.buf == [])
      && (me.point.Body? || me.point.Last? || (me.point.Done? && !me.failed) ==>
            0 <= me.i <= |s.taken| && me.buf == s.taken[|s.taken| - me.i..])
  }

  ghost predicate Inv(s: State, safe: bool) {
    && Fifo(s) && -1 <= s.lock < |s.proc| && -1 <= s.tableLock < |s.proc|
    && (!s.readOpen ==> s.readCloser != -1) && (!s.writeOpen ==> s.writeCloser != -1)
    && forall p {:trigger ProcOk(s, p, safe)} :: 0 <= p < |s.proc| ==> ProcOk(s, p, safe)
  }

  ghost predicate SomeReaderSleeps(s: State) {
    exists q :: 0 <= q < |s.proc| && ReaderSleeps(s.proc[q])
  }

  /** A killed writer leaves a full pipe while a reader sleeps. */
  ghost predicate Abandons(s: State, e: Event) {
    && e.Run? && 0 <= e.p < |s.proc| && s.proc[e.p].call.Writing? && s.proc[e.p].point.Test? && s.proc[e.p].killed
    && s.nwrite == (s.nread + PIPESIZE) % WRAP && s.readOpen && SomeReaderSleeps(s)
  }

  lemma {:induction false} NewPipeInv(n: nat, data: seq<int>, safe: bool)
    requires |data| == PIPESIZE
    ensures Inv(NewPipe(n, data), safe)
  {
  }

  lemma {:induction false} FifoSame(s: State, s': State)
    requires Fifo(s) && s'.data == s.data && s'.nread == s.nread && s'.nwrite == s.nwrite && s'.stored == s.stored
    requires s'.taken == s.taken
    ensures Fifo(s')
  {
  }

  lemma {:induction false} InvAt(s: State, p: int, safe: bool)
    requires Inv(s, safe) && 0 <= p < |s.proc|
    ensures ProcOk(s, p, safe) && |s.data| == PIPESIZE && 0 <= Count(s) <= PIPESIZE && -1 <= s.lock < |s.proc|
    ensures !s.readOpen ==> s.readCloser != -1
    ensures s.nread == s.nwrite <==> Count(s) == 0
    ensures s.nwrite == (s.nread + PIPESIZE) % WRAP <==> Count(s) == PIPESIZE
  {
    Counters(s);
  }

  /** The steps of one process that touch neither bytes nor sleepers. */
  lemma {:induction false} MoveKeeps(s: State, p: int, me: Proc, lock: int, table: int, safe: bool)
    requires Inv(s, safe) && 0 <= p < |s.proc| && me.call == s.proc[p].call
    requires lock == s.lock || (s.lock == -1 && lock == p) || (s.lock == p && lock == -1)
    requires table == s.tableLock || (s.tableLock == -1 && table == p) || (s.tableLock == p && table == -1)
    requires safe && s.lock == p ==>
      && (WillWakeReaders(s.proc[p]) ==> (lock == p && WillWakeReaders(me)) || !s.readOpen || !SomeReaderSleeps(s))
      && (WillWakeWriters(s.proc[p]) ==> lock == p && WillWakeWriters(me))
    requires ProcOk(s.(proc := s.proc[p := me], lock := lock, tableLock := table), p, safe)
    ensures Inv(s.(proc := s.proc[p := me], lock := lock, tableLock := table), safe)
  {
    hide Fifo, WriterOk, ReaderOk, WillWakeReaders, WillWakeWriters, HoldsTable, WriterSleeps;
    var s' := s.(proc := s.proc[p := me], lock := lock, tableLock := table);
    FifoSame(s, s');
    assert ProcOk(s, p, safe);
    forall q | 0 <= q < |s'.proc| ensures ProcOk(s', q, safe) {
      assert ProcOk(s, q, safe);
      if q != p {
        OkSame(s, s', s.proc[q]);
      }
    }
  }

  lemma {:induction false} OkSame(s: State, s': State, me: Proc)
    requires s'.readCloser == s.readCloser && s'.writeCloser == s.writeCloser && s'.taken == s.taken
    requires Count(s') == Count(s)
    ensures WriterOk(s', me) == WriterOk(s, me) && ReaderOk(s', me) == ReaderOk(s, me)
    ensures ReaderOk(s, me) && ReaderSleeps(me) ==> s.readCloser == -1
  {
  }

  /** wakeup by p, which holds the lock and moves on. */
  lemma {:induction false} WakeKeeps(s: State, p: int, to: Point, safe: bool)
    requires Inv(s, safe) && 0 <= p < |s.proc| && s.lock == p && s.tableLock == -1
    requires (s.proc[p].call.Writing? && s.proc[p].point.Wake? && to.SleepLock?) || (s.proc[p].point.Last? && to.Done?)
    ensures Inv(Move(WakeAll(s, ForReaders(s.proc[p].call)), p, to), safe)
  {
    hide Fifo, WriterOk, ReaderOk;
    var s' := Move(WakeAll(s, ForReaders(s.proc[p].call)), p, to);
    FifoSame(s, s');
    assert ProcOk(s, p, safe);
    forall q | 0 <= q < |s'.proc| ensures ProcOk(s', q, safe) {
      assert ProcOk(s, q, safe);
      OkWoken(s, s.proc[q], s'.proc[q]);
      OkSame(s, s', s'.proc[q]);
    }
  }

  lemma {:induction false} OkWoken(s: State, me: Proc, me': Proc)
    requires me' == me.(point := me'.point)
    requires
      || me'.point == me.point || (me.point.Asleep? && me'.point.Awake?) || (me.point.Last? && me'.point.Done?)
      || (me.call.Writing? && me.point.Wake? && me'.point.SleepLock?)
    ensures me.call.Writing? && WriterOk(s, me) ==> WriterOk(s, me')
    ensures me.call.Reading? && ReaderOk(s, me) ==> ReaderOk(s, me')
  {
  }

  lemma {:induction false} AcquireKeeps(s: State, p: int, safe: bool)
    requires Inv(s, safe) && 0 <= p < |s.proc| && (s.proc[p].point.Acquire? || s.proc[p].point.Awake?)
    ensures Inv(SharedStep(s, p), safe)
  {
    hide Inv;
    InvAt(s, p, safe);
    var s' := SharedStep(s, p);
    if s.lock == -1 {
      MoveKeeps(s, p, s'.proc[p], p, s.tableLock, safe);
    }
  }

  lemma {:induction false} SleepLockKeeps(s: State, p: int, safe: bool)
    requires Inv(s, safe) && 0 <= p < |s.proc| && s.proc[p].point.SleepLock? && s.tableLock == -1
    ensures Inv(SharedStep(s, p), safe)
  {
    hide Inv;
    InvAt(s, p, safe);
    MoveKeeps(s, p, s.proc[p].(point := Unlock), s.lock, p, safe);
  }

  lemma {:induction false} UnlockKeeps(s: State, p: int, safe: bool)
    requires Inv(s, safe) && 0 <= p < |s.proc| && s.proc[p].point.Unlock?
    ensures Inv(SharedStep(s, p), safe)
  {
    hide Inv;
    InvAt(s, p, safe);
    MoveKeeps(s, p, s.proc[p].(point := Sleep), -1, s.tableLock, safe);
  }

  lemma {:induction false} SleepKeeps(s: State, p: int, safe: bool)
    requires Inv(s, safe) && 0 <= p < |s.proc| && s.proc[p].point.Sleep?
    ensures Inv(SharedStep(s, p), safe)
  {
    hide Inv;
    InvAt(s, p, safe);
    MoveKeeps(s, p, s.proc[p].(point := Asleep), s.lock, -1, safe);
  }

  lemma {:induction false} DoneKeeps(s: State, p: int, safe: bool)
    requires Inv(s, safe) && 0 <= p < |s.proc| && s.proc[p].point.Done?
    ensures Inv(SharedStep(s, p), safe)
  {
    hide Inv;
    InvAt(s, p, safe);
    MoveKeeps(s, p, s.proc[p].(point := Idle), -1, s.tableLock, safe);
  }

  lemma {:induction false} SharedKeeps(s: State, p: int, safe: bool)
    requires Inv(s, safe) && 0 <= p < |s.proc| && Shared(s.proc[p].point)
    ensures Inv(SharedStep(s, p), safe)
  {
    hide Inv, Move, WakeAll, ProcOk;
    match s.proc[p].point
    case Acquire => AcquireKeeps(s, p, safe);
    case Awake => AcquireKeeps(s, p, safe);
    case Last =>
      LockHeld(s, p, safe);
      if s.tableLock == -1 { WakeKeeps(s, p, Done, safe); }
    case Done => DoneKeeps(s, p, safe);
    case SleepLock => if s.tableLock == -1 { SleepLockKeeps(s, p, safe); }
    case Unlock => UnlockKeeps(s, p, safe);
    case Sleep => SleepKeeps(s, p, safe);
  }

  lemma {:induction false} LockHeld(s: State, p: int, safe: bool)
    requires Inv(s, safe) && 0 <= p < |s.proc|
    ensures |s.data| == PIPESIZE && (HoldsLock(s.proc[p].point) <==> s.lock == p)
  {
    assert ProcOk(s, p, safe);
  }

  // ----- bytes go in and out -----

  lemma {:induction false} StoreFifo(s: State, b: int)
    requires Fifo(s) && Count(s) < PIPESIZE
    ensures 0 <= s.nwrite % PIPESIZE
    ensures Fifo(s.(data := s.data[s.nwrite % PIPESIZE := b], nwrite := (s.nwrite + 1) % WRAP,
                    stored := s.stored + [b]))
  {
    hide Cell;
    Counters(s);
    NextCounter(|s.stored|);
    var s' := s.(data := s.data[s.nwrite % PIPESIZE := b], nwrite := (s.nwrite + 1) % WRAP, stored := s.stored + [b]);
    forall k {:trigger s'.stored[k]} | |s'.taken| <= k < |s'.stored| ensures s'.data[Cell(k)] == s'.stored[k] {
      if k < |s.stored| {
        assert s.data[Cell(k)] == s.stored[k];
        OtherCell(k, |s.stored|);
      }
    }
  }

  lemma {:induction false} NextCounter(a: nat)
    ensures (a % WRAP + 1) % WRAP == (a + 1) % WRAP
  {
  }

  lemma {:induction false} OtherCell(j: nat, k: nat)
    requires j < k < j + PIPESIZE
    ensures Cell(j) != Cell(k)
  {
  }

  lemma {:induction false} TakeFifo(s: State)
    requires Fifo(s) && Count(s) > 0
    ensures s.data[s.nread % PIPESIZE] == s.stored[|s.taken|]
    ensures Fifo(s.(nread := (s.nread + 1) % WRAP, taken := s.taken + [s.data[s.nread % PIPESIZE]]))
  {
    hide Cell;
    Counters(s);
    NextCounter(|s.taken|);
    assert s.data[Cell(|s.taken|)] == s.stored[|s.taken|];
  }

  lemma {:induction false} StoreKeeps(s: State, p: int, safe: bool)
    requires Inv(s, safe) && 0 <= p < |s.proc| && s.proc[p].call.Writing? && s.proc[p].point.Body?
    ensures |s.data| == PIPESIZE && Inv(WriteStep(s, p), safe)
  {
    hide Fifo;
    InvAt(s, p, safe);
    StoreFifo(s, s.proc[p].buf[s.proc[p].i]);
    var s' := WriteStep(s, p);
    FifoSame(s.(data := s'.data, nwrite := s'.nwrite, stored := s'.stored), s');
    forall q | 0 <= q < |s'.proc| ensures ProcOk(s', q, safe) {
      assert ProcOk(s, q, safe);
    }
  }

  lemma {:induction false} CopyKeeps(s: State, p: int, safe: bool)
    requires Inv(s, safe) && 0 <= p < |s.proc| && s.proc[p].call.Reading? && s.proc[p].point.Body?
    requires s.proc[p].i < s.proc[p].n && s.nread != s.nwrite
    ensures |s.data| == PIPESIZE && Inv(ReadStep(s, p), safe)
  {
    hide Fifo;
    InvAt(s, p, safe);
    TakeFifo(s);
    var s' := ReadStep(s, p);
    FifoSame(s.(nread := s'.nread, taken := s'.taken), s');
    forall q | 0 <= q < |s'.proc| ensures ProcOk(s', q, safe) {
      assert ProcOk(s, q, safe);
      if q != p {
        OkWaiting(s, s', s.proc[q]);
      }
    }
  }

  lemma {:induction false} OkWaiting(s: State, s': State, me: Proc)
    requires !HoldsLock(me.point) && s'.readCloser == s.readCloser && s'.writeCloser == s.writeCloser
    ensures WriterOk(s', me) == WriterOk(s, me) && ReaderOk(s', me) == ReaderOk(s, me)
  {
  }

  // ----- every event -----

  lemma {:induction false} WriteTestKeeps(s: State, p: int, safe: bool)
    requires Inv(s, safe) && 0 <= p < |s.proc| && s.proc[p].call.Writing?
    requires (s.proc[p].point.Loop? || s.proc[p].point.Test?)
    requires safe ==> !Abandons(s, Run(p))
    ensures |s.data| == PIPESIZE && Inv(WriteStep(s, p), safe)
  {
    hide Inv;
    InvAt(s, p, safe);
    MoveKeeps(s, p, WriteStep(s, p).proc[p], s.lock, s.tableLock, safe);
  }

  lemma {:induction false} WriteKeeps(s: State, p: int, safe: bool)
    requires Inv(s, safe) && 0 <= p < |s.proc| && s.proc[p].call.Writing? && (safe ==> !Abandons(s, Run(p)))
    ensures |s.data| == PIPESIZE && Inv(WriteStep(s, p), safe)
  {
    hide Inv, Move, WakeAll, ProcOk;
    LockHeld(s, p, safe);
    match s.proc[p].point
    case Loop => WriteTestKeeps(s, p, safe);
    case Test => WriteTestKeeps(s, p, safe);
    case Wake => if s.tableLock == -1 { WakeKeeps(s, p, SleepLock, safe); }
    case Body => StoreKeeps(s, p, safe);
    case _ =>
  }

  lemma {:induction false} ReadTestKeeps(s: State, p: int, safe: bool)
    requires Inv(s, safe) && 0 <= p < |s.proc| && s.proc[p].call.Reading?
    requires s.proc[p].point.Test? || (s.proc[p].point.Body? && !(s.proc[p].i < s.proc[p].n && s.nread != s.nwrite))
    ensures |s.data| == PIPESIZE && Inv(ReadStep(s, p), safe)
  {
    hide Inv;
    InvAt(s, p, safe);
    MoveKeeps(s, p, ReadStep(s, p).proc[p], s.lock, s.tableLock, safe);
  }

  lemma {:induction false} ReadKeeps(s: State, p: int, safe: bool)
    requires Inv(s, safe) && 0 <= p < |s.proc| && s.proc[p].call.Reading?
    ensures |s.data| == PIPESIZE && Inv(ReadStep(s, p), safe)
  {
    hide Inv, Move, ProcOk;
    LockHeld(s, p, safe);
    match s.proc[p].point
    case Test => ReadTestKeeps(s, p, safe);
    case Body =>
      if s.proc[p].i < s.proc[p].n && s.nread != s.nwrite {
        CopyKeeps(s, p, safe);
      } else {
        ReadTestKeeps(s, p, safe);
      }
    case _ =>
  }

  lemma {:induction false} CloseKeeps(s: State, p: int, w: bool, safe: bool)
    requires Inv(s, safe) && 0 <= p < |s.proc| && s.proc[p].call == Closing(w)
    ensures Inv(CloseStep(s, p, w), safe)
  {
    hide Fifo;
    var s' := CloseStep(s, p, w);
    FifoSame(s, s');
    assert ProcOk(s, p, safe);
    forall q | 0 <= q < |s'.proc| ensures ProcOk(s', q, safe) {
      assert ProcOk(s, q, safe);
    }
  }

  lemma {:induction false} StepKeeps(s: State, p: int, safe: bool)
    requires Inv(s, safe) && 0 <= p < |s.proc| && (safe ==> !Abandons(s, Run(p)))
    ensures |s.data| == PIPESIZE && Inv(Step(s, p), safe)
  {
    hide Inv, SharedStep, WriteStep, ReadStep, CloseStep;
    LockHeld(s, p, safe);
    if Shared(s.proc[p].point) {
      SharedKeeps(s, p, safe);
    } else {
      match s.proc[p].call
      case Writing => WriteKeeps(s, p, safe);
      case Reading => ReadKeeps(s, p, safe);
      case Closing(w) => CloseKeeps(s, p, w, safe);
    }
  }

  lemma {:induction false} BeginKeeps(s: State, p: int, me: Proc, safe: bool)
    requires Inv(s, safe) && IdleAt(s, p) && me.point.Acquire? && me.i == 0
    requires
      || (me.call.Writing? && me.n == |me.buf| && s.writeCloser == -1)
      || (me.call.Reading? && me.buf == [] && s.readCloser == -1)
    ensures Inv(Begin(s, p, me), safe)
  {
    hide Fifo, WriterOk, ReaderOk;
    var s' := Begin(s, p, me);
    FifoSame(s, s');
    assert ProcOk(s, p, safe);
    OkFirst(s', me);
    forall q | 0 <= q < |s'.proc| ensures ProcOk(s', q, safe) {
      assert ProcOk(s, q, safe);
      OkSame(s, s', s.proc[q]);
    }
  }

  lemma {:induction false} OkFirst(s: State, me: Proc)
    requires me.point.Acquire? && me.i == 0
    ensures me.n == |me.buf| && s.writeCloser == -1 ==> WriterOk(s, me)
    ensures me.buf == [] && s.readCloser == -1 ==> ReaderOk(s, me)
  {
  }

  lemma {:induction false} BeginCloseKeeps(s: State, p: int, w: bool, safe: bool)
    requires Inv(s, safe) && IdleAt(s, p) && (if w then s.writeCloser else s.readCloser) == -1 && Unused(s, w)
    ensures |s.data| == PIPESIZE && Inv(Apply(s, StartClose(p, w)), safe)
  {
    hide Fifo;
    DataSize(s);
    var s' := Apply(s, StartClose(p, w));
    FifoSame(s, s');
    assert ProcOk(s, p, safe);
    forall q | 0 <= q < |s'.proc| ensures ProcOk(s', q, safe) {
      assert ProcOk(s, q, safe);
    }
  }

  lemma {:induction false} StartKeeps(s: State, e: Event, safe: bool)
    requires Inv(s, safe) && (e.StartWrite? || e.StartRead? || e.StartClose?)
    ensures |s.data| == PIPESIZE && Inv(Apply(s, e), safe)
  {
    hide Inv, Begin, Unused;
    DataSizeOf(s, safe);
    match e
    case StartWrite(p, bytes) =>
      if IdleAt(s, p) && s.writeCloser == -1 && !s.proc[p].killed {
        BeginKeeps(s, p, Proc(Writing, Acquire, 0, |bytes|, bytes, false, false), safe);
      }
    case StartRead(p, n) =>
      if IdleAt(s, p) && s.readCloser == -1 && !s.proc[p].killed {
        BeginKeeps(s, p, Proc(Reading, Acquire, 0, n, [], false, false), safe);
      }
    case StartClose(p, w) =>
      if IdleAt(s, p) && (if w then
        s.writeCloser
      else
        s.readCloser) == -1 && Unused(s, w) { BeginCloseKeeps(s, p, w, safe); }
  }

  lemma {:induction false} DataSizeOf(s: State, safe: bool)
    requires Inv(s, safe)
    ensures |s.data| == PIPESIZE
  {
  }

  lemma {:induction false} KillKeeps(s: State, p: int, safe: bool)
    requires Inv(s, safe)
    ensures |s.data| == PIPESIZE && Inv(Apply(s, Kill(p)), safe)
  {
    hide Fifo, WriterOk, ReaderOk, WillWakeReaders, WillWakeWriters;
    DataSize(s);
    var s' := Apply(s, Kill(p));
    FifoSame(s, s');
    if s.tableLock == -1 && 0 <= p < |s.proc| {
      assert ProcOk(s, p, safe);
      var me := s.proc[p];
      if !me.point.Asleep? { StillWakes(me); }
      forall q | 0 <= q < |s'.proc| ensures ProcOk(s', q, safe) {
        assert ProcOk(s, q, safe);
        OkSame(s, s', s'.proc[q]);
        OkKilled(s, me, s'.proc[p]);
      }
    }
  }

  lemma {:induction false} OkKilled(s: State, me: Proc, me': Proc)
    requires me' == me.(killed := true, point := if me.point.Asleep? then Awake else me.point)
    ensures WriterOk(s, me) && me.call.Writing? ==> WriterOk(s, me')
    ensures ReaderOk(s, me) && me.call.Reading? ==> ReaderOk(s, me')
  {
  }

  lemma {:induction false} StillWakes(me: Proc)
    requires !me.point.Asleep?
    ensures WillWakeReaders(me.(killed := true)) == WillWakeReaders(me)
    ensures WillWakeWriters(me.(killed := true)) == WillWakeWriters(me)
  {
  }

  lemma {:induction false} DataSize(s: State)
    requires Fifo(s)
    ensures |s.data| == PIPESIZE
  {
  }

  /** Every event keeps the invariant; the part about sleepers, if it abandons nobody. */
  lemma {:induction false} ApplyKeeps(s: State, e: Event, safe: bool)
    requires Inv(s, safe) && (safe ==> !Abandons(s, e))
    ensures |s.data| == PIPESIZE && Inv(Apply(s, e), safe)
  {
    match e
    case Run(p) => if 0 <= p < |s.proc| { StepKeeps(s, p, safe); }
    case Kill(p) => KillKeeps(s, p, safe);
    case _ => StartKeeps(s, e, safe);
  }

  // ----- over every run -----

  ghost predicate NoneAbandoned(s: State, run: seq<Event>)
    requires |s.data| == PIPESIZE
  {
    forall k {:trigger run[k]} :: 0 <= k < |run| ==> !Abandons(After(s, run[..k]), run[k])
  }

  lemma {:induction false} RunKeeps(s: State, run: seq<Event>, safe: bool)
    requires Inv(s, safe) && |s.data| == PIPESIZE && (safe ==> NoneAbandoned(s, run))
    ensures Inv(After(s, run), safe)
    decreases |run|
  {
    hide Inv, Apply;
    var n := |run| - 1;
    if n >= 0 {
      if safe {
        forall k {:trigger run[..n][k]} | 0 <= k < n ensures !Abandons(After(s, run[..n][..k]), run[..n][k]) {
          assert run[..n][..k] == run[..k] && run[..n][k] == run[k];
        }
      }
      RunKeeps(s, run[..n], safe);
      ApplyKeeps(After(s, run[..n]), run[n], safe);
    }
  }

  /** An abandoned reader is lost: the condition is exact. */
  lemma {:induction false} AbandonedIsLost(s: State, e: Event)
    requires Inv(s, true)
    ensures |s.data| == PIPESIZE && (Inv(Apply(s, e), true) <==> !Abandons(s, e))
  {
    if Abandons(s, e) {
      InvAt(s, e.p, true);
      var q :| 0 <= q < |s.proc| && ReaderSleeps(s.proc[q]);
      var s' := Apply(s, e);
      assert s'.lock == e.p && s'.proc[e.p].point.Done? && s'.proc[q] == s.proc[q];
      assert !ProcOk(s', q, true);
    } else {
      ApplyKeeps(s, e, true);
    }
  }

  /** No writer is killed in the middle of a call. */
  ghost predicate SparesWriters(s: State, run: seq<Event>)
    requires |s.data| == PIPESIZE
  {
    forall k {:trigger run[k]} :: 0 <= k < |run| && run[k].Kill? && 0 <= run[k].p < |s.proc| ==>
      !InWrite(After(s, run[..k]).proc[run[k].p])
  }

  ghost predicate WritersLive(s: State) {
    forall q {:trigger s.proc[q]} :: 0 <= q < |s.proc| && InWrite(s.proc[q]) ==> !s.proc[q].killed
  }

  /** Steps neither kill nor start calls. */
  ghost predicate SameLives(s: State, s': State) {
    && |s'.proc| == |s.proc|
    && forall q {:trigger s'.proc[q]} :: 0 <= q < |s.proc| ==>
      s'.proc[q].killed == s.proc[q].killed && (InWrite(s'.proc[q]) ==> InWrite(s.proc[q]))
  }

  lemma {:induction false} MoveLives(s: State, p: int, to: Point)
    requires 0 <= p < |s.proc| && !s.proc[p].point.Idle?
    ensures SameLives(s, Move(s, p, to))
    ensures SameLives(s, Move(s, p, to).(lock := p)) && SameLives(s, Move(s, p, to).(tableLock := p))
    ensures SameLives(s, Move(s, p, to).(lock := -1)) && SameLives(s, Move(s, p, to).(tableLock := -1))
  {
  }

  lemma {:induction false} WakeLives(s: State, readers: bool, p: int, to: Point)
    requires 0 <= p < |s.proc| && !s.proc[p].point.Idle?
    ensures SameLives(s, Move(WakeAll(s, readers), p, to))
  {
  }

  lemma {:induction false} SharedLives(s: State, p: int)
    requires 0 <= p < |s.proc|
    ensures SameLives(s, SharedStep(s, p))
  {
    hide Move, WakeAll, SameLives;
    StayLives(s);
    match s.proc[p].point
    case Acquire =>
      MoveLives(s, p, Loop);
      MoveLives(s, p, Test);
      MoveLives(s, p, Body);
    case SleepLock => MoveLives(s, p, Unlock);
    case Unlock => MoveLives(s, p, Sleep);
    case Sleep => MoveLives(s, p, Asleep);
    case Awake => MoveLives(s, p, Test);
    case Last => WakeLives(s, ForReaders(s.proc[p].call), p, Done);
    case Done => MoveLives(s, p, Idle);
    case _ =>
  }

  lemma {:induction false} StayLives(s: State)
    ensures SameLives(s, s)
  {
  }

  lemma {:induction false} WriteLives(s: State, p: int)
    requires |s.data| == PIPESIZE && 0 <= p < |s.proc|
    ensures SameLives(s, WriteStep(s, p))
  {
    hide Move, WakeAll, Woken;
    StayLives(s);
    match s.proc[p].point
    case Loop =>
      MoveLives(s, p, Test);
      MoveLives(s, p, Last);
    case Test =>
      MoveLives(s, p, Wake);
      MoveLives(s, p, Body);
    case Wake => WakeLives(s, true, p, SleepLock);
    case _ =>
  }

  lemma {:induction false} LiveKeeps(s: State, e: Event)
    requires |s.data| == PIPESIZE && WritersLive(s) && (e.Kill? && 0 <= e.p < |s.proc| ==> !InWrite(s.proc[e.p]))
    ensures WritersLive(Apply(s, e))
  {
    hide SharedStep, WriteStep;
    var s' := Apply(s, e);
    if e.Run? && 0 <= e.p < |s.proc| {
      SharedLives(s, e.p);
      WriteLives(s, e.p);
      assert SameLives(s, s');
    }
    forall q {:trigger s'.proc[q]} | 0 <= q < |s'.proc| && InWrite(s'.proc[q]) ensures !s'.proc[q].killed {
      assert InWrite(s.proc[q]) ==> !s.proc[q].killed;
    }
  }

  lemma {:induction false} NobodyKilled(n: nat, data: seq<int>)
    requires |data| == PIPESIZE
    ensures WritersLive(NewPipe(n, data)) && |NewPipe(n, data).data| == PIPESIZE
  {
  }

  lemma {:induction false} LiveNotAbandons(s: State, e: Event)
    requires WritersLive(s)
    ensures !Abandons(s, e)
  {
  }

  lemma {:induction false} SparesBefore(s: State, run: seq<Event>, m: nat)
    requires |s.data| == PIPESIZE && m < |run| && SparesWriters(s, run)
    ensures SparesWriters(s, run[..m])
    ensures run[m].Kill? && 0 <= run[m].p < |s.proc| ==> !InWrite(After(s, run[..m]).proc[run[m].p])
  {
    hide After, InWrite;
    forall k {:trigger run[..m][k]} | 0 <= k < m && run[..m][k].Kill? && 0 <= run[..m][k].p < |s.proc|
      ensures !InWrite(After(s, run[..m][..k]).proc[run[..m][k].p])
    {
      assert run[..m][..k] == run[..k] && run[..m][k] == run[k];
    }
  }

  lemma {:induction false} NoneAbandonedYet(s: State, run: seq<Event>, m: nat)
    requires |s.data| == PIPESIZE && |run| == m + 1 && NoneAbandoned(s, run[..m])
    requires !Abandons(After(s, run[..m]), run[m])
    ensures NoneAbandoned(s, run)
  {
    hide After, Abandons;
    forall k {:trigger run[k]} | 0 <= k < |run| ensures !Abandons(After(s, run[..k]), run[k]) {
      if k < m {
        assert run[..m][..k] == run[..k] && run[..m][k] == run[k];
      }
    }
  }

  /** Where no writer is killed, nobody is abandoned. */
  lemma {:induction false} SparedIsSafe(n: nat, data: seq<int>, run: seq<Event>)
    requires |data| == PIPESIZE && SparesWriters(NewPipe(n, data), run)
    ensures NoneAbandoned(NewPipe(n, data), run) && WritersLive(After(NewPipe(n, data), run))
    decreases |run|
  {
    hide Apply, Abandons, WritersLive, InWrite, SparesWriters, NewPipe;
    NobodyKilled(n, data);
    if run != [] {
      var s, m := NewPipe(n, data), |run| - 1;
      SparesBefore(s, run, m);
      SparedIsSafe(n, data, run[..m]);
      LiveKeeps(After(s, run[..m]), run[m]);
      LiveNotAbandons(After(s, run[..m]), run[m]);
      NoneAbandonedYet(s, run, m);
    }
  }

  /** Over every run, whoever is killed: what was read is a prefix of what was stored, the rest is the ring
      slice between the counters, and a reader's buffer holds the last bytes taken. */
  lemma {:induction false} PipeIsFifo(n: nat, data: seq<int>, run: seq<Event>, p: int)
    requires |data| == PIPESIZE && 0 <= p < n
    ensures var s := After(NewPipe(n, data), run);
      && Fifo(s)
      && (s.proc[p].call.Reading? && s.proc[p].point.Done? && !s.proc[p].failed ==>
        0 <= s.proc[p].i <= |s.taken| && s.proc[p].buf == s.taken[|s.taken| - s.proc[p].i..])
  {
    NewPipeInv(n, data, false);
    RunKeeps(NewPipe(n, data), run, false);
    InvAt(After(NewPipe(n, data), run), p, false);
  }

  /** Whenever the lock is free, a process asleep in piperead has nothing to read and the write end is open,
      one asleep in pipewrite faces a full ring and the read end is open; so they never sleep together. */
  lemma {:induction false} NoLostWakeup(n: nat, data: seq<int>, run: seq<Event>, p: int)
    requires |data| == PIPESIZE && NoneAbandoned(NewPipe(n, data), run)
    requires var s := After(NewPipe(n, data), run); s.lock == -1 && 0 <= p < |s.proc| && s.proc[p].point.Asleep?
    ensures var s := After(NewPipe(n, data), run);
      && (s.proc[p].call.Reading? ==> s.nread == s.nwrite && s.writeOpen)
      && (s.proc[p].call.Writing? ==> s.nwrite == (s.nread + PIPESIZE) % WRAP && s.readOpen)
      && !s.proc[p].call.Closing?
  {
    hide After, Inv;
    NewPipeInv(n, data, true);
    RunKeeps(NewPipe(n, data), run, true);
    InvAt(After(NewPipe(n, data), run), p, true);
  }

  lemma {:induction false} NeverBothAsleep(n: nat, data: seq<int>, run: seq<Event>, p: int, q: int)
    requires |data| == PIPESIZE && NoneAbandoned(NewPipe(n, data), run)
    requires var s := After(NewPipe(n, data), run);
      s.lock == -1 && 0 <= p < |s.proc| && 0 <= q < |s.proc| && s.proc[p].point.Asleep? && s.proc[q].point.Asleep?
    ensures var s := After(NewPipe(n, data), run); s.proc[p].call == s.proc[q].call
  {
    hide After, Inv;
    NewPipeInv(n, data, true);
    RunKeeps(NewPipe(n, data), run, true);
    InvAt(After(NewPipe(n, data), run), p, true);
    InvAt(After(NewPipe(n, data), run), q, true);
  }

  // ----- a killed writer -----

  function Zeroes(n: nat): (r: seq<int>)
    ensures |r| == n && forall k {:trigger r[k]} :: 0 <= k < n ==> r[k] == 0
  {
    seq(n, _ => 0)
  }

  ghost predicate Reached(s: State) {
    exists run {:trigger After(NewPipe(2, Zeroes(PIPESIZE)), run)} :: After(NewPipe(2, Zeroes(PIPESIZE)), run) == s
  }

  lemma {:induction false} ReachedNext(s: State, e: Event)
    requires Reached(s) && |s.data| == PIPESIZE
    ensures Reached(Apply(s, e))
  {
    var s0 := NewPipe(2, Zeroes(PIPESIZE));
    var run :| After(s0, run) == s;
    assert (run + [e])[..|run|] == run;
    assert After(s0, run + [e]) == Apply(s, e);
  }

  /** Process 1 asleep in piperead, and process 0 with k of its 513 bytes stored. */
  function Filling(k: nat): State {
    State(0, -1, 0, k, Zeroes(PIPESIZE), true, true, -1, -1,
      [Proc(Writing, Loop, k, 513, Zeroes(513), false, false), Proc(Reading, Asleep, 0, 1, [], false, false)],
      Zeroes(k), [])
  }

  /** The same pipe, still empty, with the two processes and the locks as given. */
  function Opening(lock: int, table: int, w: Proc, r: Proc): State {
    Filling(0).(lock := lock, tableLock := table, proc := [w, r])
  }

  lemma {:induction false} Pair(w: Proc, r: Proc, x: Proc)
    ensures [w, r][0 := x] == [x, r] && [w, r][1 := x] == [w, x]
  {
  }

  lemma {:induction false} ReaderMoves(w: Proc, from: Point, lock: int, table: int)
    requires Reached(Opening(lock, table, w, Proc(Reading, from, 0, 1, [], false, false)))
    ensures from == Acquire && lock == -1 ==> Reached(Opening(1, table, w, Proc(Reading, Test, 0, 1, [], false, false)))
    ensures from == Test ==> Reached(Opening(lock, table, w, Proc(Reading, SleepLock, 0, 1, [], false, false)))
    ensures from == SleepLock && table == -1 ==>
      Reached(Opening(lock, 1, w, Proc(Reading, Unlock, 0, 1, [], false, false)))
    ensures from == Unlock ==> Reached(Opening(-1, table, w, Proc(Reading, Sleep, 0, 1, [], false, false)))
    ensures from == Sleep ==> Reached(Opening(lock, -1, w, Proc(Reading, Asleep, 0, 1, [], false, false)))
  {
    hide Reached;
    var r := Proc(Reading, from, 0, 1, [], false, false);
    ReachedNext(Opening(lock, table, w, r), Run(1));
    Pair(w, r, r.(point := Test));
    Pair(w, r, r.(point := SleepLock));
    Pair(w, r, r.(point := Unlock));
    Pair(w, r, r.(point := Sleep));
    Pair(w, r, r.(point := Asleep));
  }

  lemma {:induction false} FillingStarts()
    ensures Reached(Filling(0))
  {
    hide Reached;
    var idle := Proc(Writing, Idle, 0, 0, [], false, false);
    var r := Proc(Reading, Acquire, 0, 1, [], false, false);
    var w := Proc(Writing, Acquire, 0, 513, Zeroes(513), false, false);
    ReachedFirst();
    assert NewPipe(2, Zeroes(PIPESIZE)).proc == [idle, idle] && Zeroes(0) == [];
    ReachedNext(Opening(-1, -1, idle, idle), StartRead(1, 1));
    Pair(idle, idle, r);
    ReaderMoves(idle, Acquire, -1, -1);
    ReaderMoves(idle, Test, 1, -1);
    ReaderMoves(idle, SleepLock, 1, -1);
    ReaderMoves(idle, Unlock, 1, 1);
    ReaderMoves(idle, Sleep, -1, 1);
    WriterEnters(idle, r.(point := Asleep), w);
  }

  lemma {:induction false} WriterEnters(idle: Proc, r: Proc, w: Proc)
    requires idle == Proc(Writing, Idle, 0, 0, [], false, false)
    requires w == Proc(Writing, Acquire, 0, 513, Zeroes(513), false, false)
    requires r == Proc(Reading, Asleep, 0, 1, [], false, false) && Reached(Opening(-1, -1, idle, r))
    ensures Reached(Filling(0))
  {
    hide Reached;
    ReachedNext(Opening(-1, -1, idle, r), StartWrite(0, Zeroes(513)));
    Pair(idle, r, w);
    ReachedNext(Opening(-1, -1, w, r), Run(0));
    Pair(w, r, w.(point := Loop));
  }

  lemma {:induction false} ReachedFirst()
    ensures Reached(NewPipe(2, Zeroes(PIPESIZE)))
  {
    assert After(NewPipe(2, Zeroes(PIPESIZE)), []) == NewPipe(2, Zeroes(PIPESIZE));
  }

  lemma {:induction false} FillingGoesOn(k: nat)
    requires k < PIPESIZE && Reached(Filling(k))
    ensures Reached(Filling(k + 1))
  {
    hide Reached;
    var s := Filling(k);
    var w, r := s.proc[0], s.proc[1];
    ReachedNext(s, Run(0));
    Pair(w, r, w.(point := Test));
    var s1 := s.(proc := [w.(point := Test), r]);
    assert Apply(s, Run(0)) == s1;
    ReachedNext(s1, Run(0));
    Pair(w.(point := Test), r, w.(point := Body));
    var s2 := s.(proc := [w.(point := Body), r]);
    assert Apply(s1, Run(0)) == s2;
    ReachedNext(s2, Run(0));
    Pair(w.(point := Body), r, w.(i := k + 1));
    assert Zeroes(PIPESIZE)[k % PIPESIZE := 0] == Zeroes(PIPESIZE) && Zeroes(k) + [0] == Zeroes(k + 1);
    assert Apply(s2, Run(0)) == Filling(k + 1);
  }

  lemma {:induction false} Filled(k: nat)
    requires k <= PIPESIZE
    ensures Reached(Filling(k))
  {
    if k == 0 {
      FillingStarts();
    } else {
      Filled(k - 1);
      FillingGoesOn(k - 1);
    }
  }

  /** A writer that fills the ring and is then killed leaves without a wakeup: the lock is free, the ring is
      full, and the reader sleeps on. */
  lemma {:induction false} KilledWriterLosesWakeup()
    ensures exists s ::
      && Reached(s) && s.lock == -1 && |s.proc| == 2 && s.proc[1].call.Reading? && s.proc[1].point.Asleep?
      && s.nread != s.nwrite
  {
    hide Reached;
    Filled(PIPESIZE);
    var s := Filling(PIPESIZE);
    var w, r := s.proc[0], s.proc[1];
    ReachedNext(s, Kill(0));
    Pair(w, r, w.(killed := true));
    var s1 := s.(proc := [w.(killed := true), r]);
    ReachedNext(s1, Run(0));
    Pair(w.(killed := true), r, w.(killed := true, point := Test));
    var s2 := s.(proc := [w.(killed := true, point := Test), r]);
    ReachedNext(s2, Run(0));
    Pair(w.(killed := true, point := Test), r, w.(killed := true, point := Done, failed := true));
    var s3 := s.(proc := [w.(killed := true, point := Done, failed := true), r]);
    ReachedNext(s3, Run(0));
    var s4 := Apply(s3, Run(0));
    assert Reached(s4) && s4.lock == -1 && s4.proc[1] == r && s4.nread != s4.nwrite;
  }
}
