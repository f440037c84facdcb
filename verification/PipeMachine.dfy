/** The pipe and the process table as objects that the calls update in place: struct pipe's fields, its ring of
    bytes, the two locks, and where each process stands. */
module PipeMachine {
  import opened PipeProtocol

  class Machine {
    var lock: int
    var tableLock: int
    var nread: int
    var nwrite: int
    const data: array<int>
    var readOpen: bool
    var writeOpen: bool
    var readCloser: int
    var writeCloser: int
    var proc: seq<Proc>
    ghost var stored: seq<int>
    ghost var taken: seq<int>

    ghost function Now(): State
      reads this, data
    {
      State(lock, tableLock, nread, nwrite, data[..], readOpen, writeOpen, readCloser, writeCloser, proc, stored, taken)
    }

    /** pipealloc, among n processes. */
    constructor (n: nat)
      ensures fresh(data) && data.Length == PIPESIZE && Now() == NewPipe(n, data[..]) && forall safe :: Inv(Now(), safe)
    {
      lock, tableLock, nread, nwrite, readOpen, writeOpen, readCloser, writeCloser := -1, -1, 0, 0, true, true, -1, -1;
      data := new int[PIPESIZE];
      proc := seq(n, _ => Proc(Writing, Idle, 0, 0, [], false, false));
      stored, taken := [], [];
      new;
      forall safe ensures Inv(Now(), safe) {
        NewPipeInv(n, data[..], safe);
      }
    }

    /** wakeup1: the scan of the process table. */
    method Wakeup(readers: bool)
      modifies this`proc
      ensures Now() == WakeAll(old(Now()), readers)
    {
      var p := 0;
      while p < |proc|
        invariant 0 <= p <= |proc| == |old(proc)|
        invariant forall q {:trigger proc[q]} :: 0 <= q < |proc| ==>
          proc[q] == if q < p then Woken(old(proc)[q], readers) else old(proc)[q]
      {
        if proc[p].point.Asleep? && proc[p].call == (if readers then Reading else Writing) {
          proc := proc[p := proc[p].(point := Awake)];
        }
        p := p + 1;
      }
      assert proc == WakeAll(old(Now()), readers).proc;
    }

    method Go(p: int, to: Point)
      requires 0 <= p < |proc|
      modifies this`proc
      ensures Now() == Move(old(Now()), p, to)
    {
      proc := proc[p := proc[p].(point := to)];
    }

    /** pipewrite between acquire and its last wakeup. */
    method WriteOn(p: int)
      requires 0 <= p < |proc| && data.Length == PIPESIZE
      modifies this, data
      ensures Now() == WriteStep(old(Now()), p)
    {
      var me := proc[p];
      match me.point
      case Loop => Go(p, if me.i < me.n then Test else Last);
      case Test =>
        if nwrite == (nread + PIPESIZE) % WRAP {
          if !readOpen || me.killed {
            proc := proc[p := me.(point := Done, failed := true)];
          } else {
            Go(p, Wake);
          }
        } else {
          Go(p, Body);
        }
      case Wake =>
        if tableLock == -1 {
          Wakeup(true);
          Go(p, SleepLock);
        }
      case Body =>
        if 0 <= me.i < |me.buf| {
          data[nwrite % PIPESIZE] := me.buf[me.i];
          nwrite := (nwrite + 1) % WRAP;
          stored := stored + [me.buf[me.i]];
          proc := proc[p := me.(point := Loop, i := me.i + 1)];
        }
      case _ =>
    }

    /** piperead between acquire and its last wakeup. */
    method ReadOn(p: int)
      requires 0 <= p < |proc| && data.Length == PIPESIZE
      modifies this
      ensures Now() == ReadStep(old(Now()), p)
    {
      var me := proc[p];
      match me.point
      case Test =>
        if nread == nwrite && writeOpen {
          if me.killed {
            proc := proc[p := me.(point := Done, failed := true)];
          } else {
            Go(p, SleepLock);
          }
        } else {
          Go(p, Body);
        }
      case Body =>
        if me.i < me.n && nread != nwrite {
          var byte := data[nread % PIPESIZE];
          nread := (nread + 1) % WRAP;
          taken := taken + [byte];
          proc := proc[p := me.(i := me.i + 1, buf := me.buf + [byte])];
        } else {
          Go(p, Last);
        }
      case _ =>
    }

    /** pipeclose between acquire and its wakeup. */
    method CloseOn(p: int, writable: bool)
      requires 0 <= p < |proc|
      modifies this
      ensures Now() == CloseStep(old(Now()), p, writable)
      ensures old(proc[p].point).Body? ==>
        (if writable then !writeOpen else !readOpen) && p < |proc| && proc[p].point.Last?
      ensures if writable then readOpen == old(readOpen) else writeOpen == old(writeOpen)
    {
      if proc[p].point.Body? {
        if writable {
          writeOpen := false;
        } else {
          readOpen := false;
        }
        Go(p, Last);
      }
    }

    /** acquire, the steps of sleep, the last wakeup, and release. */
    method SharedOn(p: int)
      requires 0 <= p < |proc|
      modifies this
      ensures Now() == SharedStep(old(Now()), p)
    {
      var me := proc[p];
      match me.point
      case Acquire =>
        if lock == -1 {
          lock := p;
          Go(p, if me.call.Writing? then Loop else if me.call.Reading? then Test else Body);
        }
      case SleepLock =>
        if tableLock == -1 {
          tableLock := p;
          Go(p, Unlock);
        }
      case Unlock =>
        lock := -1;
        Go(p, Sleep);
      case Sleep =>
        Go(p, Asleep);
        tableLock := -1;
      case Awake =>
        if lock == -1 {
          lock := p;
          Go(p, Test);
        }
      case Last =>
        if tableLock == -1 {
          Wakeup(ForReaders(me.call));
          Go(p, Done);
        }
      case Done =>
        lock := -1;
        Go(p, Idle);
      case _ =>
    }

    /** One step of process p. */
    method RunOn(p: int)
      requires 0 <= p < |proc| && data.Length == PIPESIZE
      modifies this, data
      ensures Now() == Step(old(Now()), p)
    {
      if Shared(proc[p].point) {
        SharedOn(p);
      } else {
        match proc[p].call
        case Writing => WriteOn(p);
        case Reading => ReadOn(p);
        case Closing(w) => CloseOn(p, w);
      }
    }

    /** The calls begin; kill. */
    method StartOn(e: Event)
      requires data.Length == PIPESIZE && !e.Run?
      modifies this
      ensures Now() == Apply(old(Now()), e)
    {
      if !(0 <= e.p < |proc|) {
        return;
      }
      var me := proc[e.p];
      match e
      case StartWrite(p, bytes) =>
        if me.point.Idle? && writeCloser == -1 && !me.killed {
          proc := proc[p := Proc(Writing, Acquire, 0, |bytes|, bytes, false, false)];
        }
      case StartRead(p, n) =>
        if me.point.Idle? && readCloser == -1 && !me.killed {
          proc := proc[p := Proc(Reading, Acquire, 0, n, [], false, false)];
        }
      case StartClose(p, w) =>
        var inUse := exists q | 0 <= q < |proc| :: if w then InWrite(proc[q]) else InRead(proc[q]);
        if me.point.Idle? && (if w then writeCloser else readCloser) == -1 && !inUse {
          proc := proc[p := me.(call := Closing(w), point := Acquire)];
          if w {
            writeCloser := p;
          } else {
            readCloser := p;
          }
        }
      case Kill(p) =>
        if tableLock == -1 {
          proc := proc[p := me.(killed := true, point := if me.point.Asleep? then Awake else me.point)];
        }
    }

    /** Any event. The pipe stays first in, first out whatever happens; nobody is lost exactly if the event does not
        abandon a sleeping reader. */
    method Happen(e: Event)
      requires data.Length == PIPESIZE
      modifies this, data
      ensures Now() == Apply(old(Now()), e)
      ensures old(Inv(Now(), false)) ==> Inv(Now(), false)
      ensures old(Inv(Now(), true)) ==> (Inv(Now(), true) <==> !old(Abandons(Now(), e)))
    {
      hide Inv, Abandons, Step;
      ghost var s := Now();
      if !e.Run? {
        StartOn(e);
      } else if 0 <= e.p < |proc| {
        RunOn(e.p);
      }
      if Inv(s, false) {
        ApplyKeeps(s, e, false);
      }
      if Inv(s, true) {
        AbandonedIsLost(s, e);
      }
    }

    /** The loop of piperead, which nobody can interrupt: it takes the oldest unread bytes, n or as many as there
        are. */
    method CopyOut(p: int) returns (ghost run: seq<Event>)
      requires data.Length == PIPESIZE && Inv(Now(), false) && 0 <= p < |proc|
      requires proc[p].call.Reading? && proc[p].point.Body? && proc[p].i == 0 <= proc[p].n
      modifies this
      ensures Inv(Now(), false) && Now() == After(old(Now()), run) && OnlyRuns(run, p)
      ensures Drains(old(Now()), Now(), p) && proc[p].point.Last?
    {
      hide Inv, After, OnlyRuns, Drains, ReadStep, Apply;
      run := [];
      ghost var s0 := Now();
      NoRuns(s0, p);
      DrainStart(s0, p);
      while proc[p].point.Body?
        invariant Inv(Now(), false) && Drains(s0, Now(), p) && 0 <= p < |proc|
        invariant Now() == After(s0, run) && OnlyRuns(run, p)
        decreases proc[p].n - proc[p].i, proc[p].point.Body?
      {
        ghost var s := Now();
        ReadOn(p);
        DrainStep(s0, s, p);
        MoreRuns(s0, run, p);
        run := run + [Run(p)];
      }
      DrainEnd(s0, Now(), p);
    }

    /** The loop of pipewrite as far as it goes without sleeping: it stores bytes until all are in, or the ring is
        full. */
    method CopyIn(p: int) returns (ghost run: seq<Event>)
      requires data.Length == PIPESIZE && Inv(Now(), false) && 0 <= p < |proc|
      requires proc[p].call.Writing? && proc[p].point.Loop?
      modifies this, data
      ensures Inv(Now(), false) && Now() == After(old(Now()), run) && OnlyRuns(run, p)
      ensures Fills(old(Now()), Now(), p)
      ensures proc[p].point.Last? || proc[p].point.Wake? || proc[p].point.Done?
    {
      hide Inv, After, OnlyRuns, Fills, WriteStep, Apply;
      run := [];
      ghost var s0 := Now();
      NoRuns(s0, p);
      FillStart(s0, p);
      while proc[p].point.Loop? || proc[p].point.Test? || proc[p].point.Body?
        invariant Inv(Now(), false) && Fills(s0, Now(), p) && 0 <= p < |proc|
        invariant Now() == After(s0, run) && OnlyRuns(run, p)
        decreases proc[p].n - proc[p].i, Rank(proc[p].point)
      {
        ghost var s := Now();
        WriteOn(p);
        FillStep(s0, s, p);
        MoreRuns(s0, run, p);
        run := run + [Run(p)];
      }
      FillEnd(s0, Now(), p);
    }
  }

  // ----- what the two loops need -----

  /** The bytes in the pipe. */
  ghost function Unread(s: State): seq<int> {
    if |s.taken| <= |s.stored| then s.stored[|s.taken|..] else []
  }

  ghost predicate OnlyRuns(run: seq<Event>, p: int) {
    forall k {:trigger run[k]} :: 0 <= k < |run| ==> run[k] == Run(p)
  }

  lemma {:induction false} NoRuns(s: State, p: int)
    requires |s.data| == PIPESIZE
    ensures After(s, []) == s && OnlyRuns([], p)
  {
  }

  lemma {:induction false} MoreRuns(s: State, run: seq<Event>, p: int)
    requires |s.data| == PIPESIZE && OnlyRuns(run, p)
    ensures After(s, run + [Run(p)]) == Apply(After(s, run), Run(p)) && OnlyRuns(run + [Run(p)], p)
  {
    assert (run + [Run(p)])[..|run|] == run;
  }

  /** The reader has taken the oldest bytes of s, and the rest is still there; where it left the loop it has as many
      as it wanted or as there were. */
  ghost predicate Drains(s: State, t: State, p: int) {
    && 0 <= p < |s.proc| == |t.proc| && t.proc[p].call.Reading? && (t.proc[p].point.Body? || t.proc[p].point.Last?)
    && t == s.(nread := t.nread, taken := t.taken, proc := s.proc[p := t.proc[p]]) && t.proc[p].n == s.proc[p].n
    && 0 <= t.proc[p].i <= t.proc[p].n && t.proc[p].i <= |Unread(s)|
    && t.proc[p].buf == Unread(s)[..t.proc[p].i] && Unread(t) == Unread(s)[t.proc[p].i..]
    && (t.proc[p].point.Last? ==> t.proc[p].i == t.proc[p].n || t.proc[p].i == |Unread(s)|)
  }

  lemma {:induction false} DrainStart(s: State, p: int)
    requires Inv(s, false) && 0 <= p < |s.proc| && s.proc[p].call.Reading? && s.proc[p].point.Body?
    requires s.proc[p].i == 0 <= s.proc[p].n
    ensures Drains(s, s, p) && |s.data| == PIPESIZE
  {
    assert ProcOk(s, p, false);
    assert s.proc == s.proc[p := s.proc[p]];
  }

  lemma {:induction false} DrainEnd(s: State, t: State, p: int)
    requires Drains(s, t, p)
    ensures 0 <= p < |t.proc| && (t.proc[p].point.Body? || t.proc[p].point.Last?)
  {
  }

  /** A round of piperead's loop takes the oldest byte, or ends the loop where it should. */
  lemma {:induction false} TakesOldest(s: State, p: int)
    requires Fifo(s) && 0 <= p < |s.proc| && s.proc[p].call.Reading? && s.proc[p].point.Body?
    ensures var t, me := ReadStep(s, p), s.proc[p];
      && t == Apply(s, Run(p)) && |Unread(s)| == Count(s)
      && if me.i < me.n && Count(s) > 0 then
           t == s.(nread := t.nread, taken := s.taken + [Unread(s)[0]],
                   proc := s.proc[p := me.(i := me.i + 1, buf := me.buf + [Unread(s)[0]])])
         else t == Move(s, p, Last)
  {
    hide Fifo;
    Counters(s);
    FifoCount(s);
    if Count(s) > 0 {
      TakeFifo(s);
    }
  }

  lemma {:induction false} DrainStep(s0: State, s: State, p: int)
    requires Inv(s, false) && Drains(s0, s, p) && s.proc[p].point.Body? && |s.data| == PIPESIZE
    ensures var t := ReadStep(s, p);
      && t == Apply(s, Run(p)) && Inv(t, false) && Drains(s0, t, p)
      && (t.proc[p].point.Body? ==> t.proc[p].n - t.proc[p].i < s.proc[p].n - s.proc[p].i)
      && t.proc[p].n - t.proc[p].i <= s.proc[p].n - s.proc[p].i && 0 <= t.proc[p].n - t.proc[p].i
  {
    hide Inv, Fifo, ReadStep, Apply;
    InvFifo(s);
    FifoCount(s);
    ApplyKeeps(s, Run(p), false);
    TakesOldest(s, p);
    if s.proc[p].i < s.proc[p].n && Count(s) > 0 {
      Oldest(s0, s, ReadStep(s, p), p);
    }
  }

  lemma {:induction false} Oldest(s0: State, s: State, t: State, p: int)
    requires Drains(s0, s, p) && Unread(s) != [] && t.stored == s.stored && |s.taken| < |s.stored|
    requires t.taken == s.taken + [s.stored[|s.taken|]]
    ensures s.proc[p].i < |Unread(s0)| && s.stored[|s.taken|] == Unread(s0)[s.proc[p].i]
    ensures Unread(t) == Unread(s0)[s.proc[p].i + 1..]
    ensures s.proc[p].buf + [s.stored[|s.taken|]] == Unread(s0)[..s.proc[p].i + 1]
  {
    assert Unread(s)[0] == s.stored[|s.taken|] == Unread(s0)[s.proc[p].i];
    assert Unread(t) == Unread(s)[1..];
  }

  lemma {:induction false} InvFifo(s: State)
    requires Inv(s, false)
    ensures Fifo(s)
  {
  }

  lemma {:induction false} FifoCount(s: State)
    requires Fifo(s)
    ensures 0 <= Count(s) <= PIPESIZE && |Unread(s)| == Count(s)
  {
  }

  function Rank(at: Point): nat {
    match at
    case Loop => 3
    case Test => 2
    case Body => 1
    case _ => 0
  }

  /** The writer has added its next bytes behind those of s; where it left the loop, all are in, or the ring is full and
      it goes to sleep or gives up. */
  ghost predicate Fills(s: State, t: State, p: int) {
    && 0 <= p < |s.proc| == |t.proc| && s.proc[p].call.Writing? && |Unread(t)| <= PIPESIZE
    && var me, now := s.proc[p], t.proc[p];
    && now == me.(i := now.i, point := now.point, failed := now.failed) && 0 <= me.i <= now.i <= me.n == |me.buf|
    && t == s.(nwrite := t.nwrite, data := t.data, stored := t.stored, proc := s.proc[p := now])
    && t.stored == s.stored + me.buf[me.i..now.i] && Unread(t) == Unread(s) + me.buf[me.i..now.i]
    && match now.point
       case Loop => true
       case Test => now.i < me.n
       case Body => now.i < me.n && |Unread(t)| < PIPESIZE
       case Last => now.i == me.n
       case Wake => now.i < me.n && |Unread(t)| == PIPESIZE && s.readOpen && !me.killed
       case Done => now.i < me.n && |Unread(t)| == PIPESIZE && (!s.readOpen || me.killed) && now.failed
       case _ => false
  }

  lemma {:induction false} FillStart(s: State, p: int)
    requires Inv(s, false) && 0 <= p < |s.proc| && s.proc[p].call.Writing? && s.proc[p].point.Loop?
    ensures Fills(s, s, p) && |s.data| == PIPESIZE
  {
    assert ProcOk(s, p, false);
    assert s.proc == s.proc[p := s.proc[p]];
  }

  lemma {:induction false} FillEnd(s: State, t: State, p: int)
    requires Fills(s, t, p) && !t.proc[p].point.Loop? && !t.proc[p].point.Test? && !t.proc[p].point.Body?
    ensures t.proc[p].point.Last? || t.proc[p].point.Wake? || t.proc[p].point.Done?
  {
  }

  /** A round of pipewrite's loop stores the next byte at the end, or moves on where it should. */
  lemma {:induction false} FillStep(s0: State, s: State, p: int)
    requires Inv(s, false) && Fills(s0, s, p) && |s.data| == PIPESIZE
    requires s.proc[p].point.Loop? || s.proc[p].point.Test? || s.proc[p].point.Body?
    ensures var t := WriteStep(s, p);
      && t == Apply(s, Run(p)) && Inv(t, false) && Fills(s0, t, p)
      && (if s.proc[p].point.Body? then t.proc[p].i == s.proc[p].i + 1
          else t.proc[p].i == s.proc[p].i && Rank(t.proc[p].point) < Rank(s.proc[p].point))
      && t.proc[p].i <= t.proc[p].n == s.proc[p].n
  {
    hide Inv, Fifo;
    InvFifo(s);
    ApplyKeeps(s, Run(p), false);
    Counters(s);
    FifoCount(s);
    if s.proc[p].point.Body? {
      Newest(s0, s, WriteStep(s, p), p);
    }
  }

  lemma {:induction false} Newest(s0: State, s: State, t: State, p: int)
    requires Fills(s0, s, p) && s.proc[p].i < s.proc[p].n && |s.taken| <= |s.stored| && t.taken == s.taken
    requires t.stored == s.stored + [s.proc[p].buf[s.proc[p].i]]
    ensures var me, i := s0.proc[p], s.proc[p].i + 1;
      && t.stored == s0.stored + me.buf[me.i..i] && Unread(t) == Unread(s0) + me.buf[me.i..i]
      && |Unread(t)| == |Unread(s)| + 1
  {
    var me, i := s0.proc[p], s.proc[p].i;
    assert me.buf[me.i..i + 1] == me.buf[me.i..i] + [me.buf[i]];
  }
}
