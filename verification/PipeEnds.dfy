/** What closing an end of a pipe does (pipe.c), over every run of the machine: the end stays closed, readers come to
    the end of the stream, writers fail, and nobody is left in the pipe when it is freed. */
module PipeEnds {
  import opened PipeProtocol

  predicate Open(s: State, w: bool) {
    if w then s.writeOpen else s.readOpen
  }

  function Closer(s: State, w: bool): int {
    if w then s.writeCloser else s.readCloser
  }

  /** In pipeclose, with the end not yet marked. */
  predicate Pending(me: Proc, w: bool) {
    me.call == Closing(w) && (me.point.Acquire? || me.point.Body?)
  }

  /** Where a call of pipeclose can stand, and who makes it; what a call that failed or ended has done. */
  predicate ProcEnds(s: State, p: int)
    requires 0 <= p < |s.proc|
  {
    var me := s.proc[p];
    match me.call
    case Closing(w) =>
      && Closer(s, w) == p
      && (me.point.Acquire? || me.point.Body? || me.point.Last? || me.point.Done? || me.point.Idle?)
    case Writing =>
      && (me.failed ==> (me.point.Done? || me.point.Idle?) && me.i < me.n && (me.killed || !s.readOpen))
      && (me.point.Acquire? ==> me.i == 0) && (me.point.Last? || (me.point.Done? && !me.failed) ==> me.i == me.n)
    case Reading =>
      && (me.failed ==> (me.point.Done? || me.point.Idle?) && me.i == 0 && me.killed)
      && 0 <= me.i == |me.buf| <= me.n
      && (me.point.Body? && me.i == 0 ==> Count(s) > 0 || !s.writeOpen)
      && (me.point.Last? || (me.point.Done? && !me.failed) ==>
            (me.i == me.n || Count(s) == 0) && (me.i > 0 || me.n == 0 || !s.writeOpen))
  }

  /** An end is open exactly until its closer marks it. */
  predicate EndOk(s: State, w: bool) {
    && -1 <= Closer(s, w) < |s.proc|
    && (Open(s, w) <==> Closer(s, w) == -1 || Pending(s.proc[Closer(s, w)], w))
  }

  ghost predicate Ends(s: State) {
    && EndOk(s, true) && EndOk(s, false)
    && forall p {:trigger ProcEnds(s, p)} :: 0 <= p < |s.proc| ==> ProcEnds(s, p)
  }

  lemma {:induction false} NewEnds(n: nat, data: seq<int>)
    requires |data| == PIPESIZE
    ensures Ends(NewPipe(n, data))
  {
  }

  /** A step changes its own process, and may wake others. */
  lemma {:induction false} OneMoves(s: State, s': State, p: int)
    requires Ends(s) && Inv(s, false) && 0 <= p < |s.proc| == |s'.proc| && (Count(s') == Count(s) || s.lock == p)
    requires s'.readCloser == s.readCloser && s'.writeCloser == s.writeCloser
    requires forall q {:trigger s'.proc[q]} :: 0 <= q < |s.proc| && q != p ==>
      s'.proc[q] == s.proc[q] || (s.proc[q].point.Asleep? && s'.proc[q] == s.proc[q].(point := Awake))
    requires ProcEnds(s', p) && s'.proc[p].call == s.proc[p].call
    requires forall w :: Open(s', w) == (Open(s, w) && !(Pending(s.proc[p], w) && !Pending(s'.proc[p], w)))
    requires forall w :: Pending(s'.proc[p], w) ==> Pending(s.proc[p], w)
    ensures Ends(s')
  {
    hide Inv;
    forall q {:trigger ProcEnds(s', q)} | 0 <= q < |s'.proc| ensures ProcEnds(s', q) {
      assert ProcEnds(s, q);
      InvAt(s, q, false);
      assert Open(s', true) ==> Open(s, true);
      assert Open(s', false) ==> Open(s, false);
    }
    forall w ensures EndOk(s', w) {
      assert EndOk(s, w);
      assert ProcEnds(s, p);
    }
  }

  /** Where a shared step leads. */
  function Next(me: Proc): Point {
    match me.point
    case Acquire => if me.call.Writing? then Loop else if me.call.Reading? then Test else Body
    case SleepLock => Unlock
    case Unlock => Sleep
    case Sleep => Asleep
    case Awake => Test
    case Last => Done
    case _ => Idle
  }

  lemma {:induction false} SharedMoves(s: State, p: int)
    requires 0 <= p < |s.proc| && Shared(s.proc[p].point)
    ensures var s' := SharedStep(s, p);
      && s' == s.(proc := s'.proc, lock := s'.lock, tableLock := s'.tableLock)
      && (s' == s || s'.proc[p] == s.proc[p].(point := Next(s.proc[p])))
      && forall q {:trigger s'.proc[q]} :: 0 <= q < |s.proc| && q != p ==>
           s'.proc[q] == s.proc[q] || (s.proc[q].point.Asleep? && s'.proc[q] == s.proc[q].(point := Awake))
  {
  }

  lemma {:induction false} SharedEnds(s: State, p: int)
    requires Ends(s) && Inv(s, false) && 0 <= p < |s.proc| && Shared(s.proc[p].point)
    ensures Ends(SharedStep(s, p))
  {
    hide Inv, Ends, SharedStep;
    EndsAt(s, p);
    SharedMoves(s, p);
    var s' := SharedStep(s, p);
    if s' != s {
      OneMoves(s, s', p);
    }
  }

  lemma {:induction false} WriteEnds(s: State, p: int)
    requires Ends(s) && Inv(s, false) && 0 <= p < |s.proc| && !Shared(s.proc[p].point) && |s.data| == PIPESIZE
    requires s.proc[p].call.Writing?
    ensures Ends(Step(s, p))
  {
    hide Inv, Ends;
    InvAt(s, p, false);
    EndsAt(s, p);
    var s' := Step(s, p);
    if s' != s {
      OneMoves(s, s', p);
    }
  }

  lemma {:induction false} ReadEnds(s: State, p: int)
    requires Ends(s) && Inv(s, false) && 0 <= p < |s.proc| && !Shared(s.proc[p].point) && |s.data| == PIPESIZE
    requires s.proc[p].call.Reading?
    ensures Ends(Step(s, p))
  {
    hide Inv, Ends;
    InvAt(s, p, false);
    EndsAt(s, p);
    var s' := Step(s, p);
    if s' != s {
      OneMoves(s, s', p);
    }
  }

  lemma {:induction false} CloseEnds(s: State, p: int)
    requires Ends(s) && Inv(s, false) && 0 <= p < |s.proc| && !Shared(s.proc[p].point) && |s.data| == PIPESIZE
    requires s.proc[p].call.Closing?
    ensures Ends(Step(s, p))
  {
    hide Inv, Ends;
    InvAt(s, p, false);
    EndsAt(s, p);
    var s' := Step(s, p);
    if s' != s {
      OneMoves(s, s', p);
    }
  }

  lemma {:induction false} KillEnds(s: State, p: int)
    requires Ends(s) && Inv(s, false) && |s.data| == PIPESIZE
    ensures Ends(Apply(s, Kill(p)))
  {
    var s' := Apply(s, Kill(p));
    if s' != s {
      assert ProcEnds(s, p);
      OneMoves(s, s', p);
    }
  }

  /** A new call by a process that was in none. */
  lemma {:induction false} CallBegins(s: State, s': State, p: int)
    requires Ends(s) && IdleAt(s, p) && |s'.proc| == |s.proc| && s'.proc == s.proc[p := s'.proc[p]]
    requires s' == s.(proc := s'.proc, readCloser := s'.readCloser, writeCloser := s'.writeCloser)
    requires forall w :: Closer(s', w) == (if s'.proc[p].call == Closing(w) then p else Closer(s, w))
    requires s'.proc[p].point.Acquire? && forall w :: s'.proc[p].call == Closing(w) ==> Closer(s, w) == -1
    requires ProcEnds(s', p)
    ensures Ends(s')
  {
    forall q {:trigger ProcEnds(s', q)} | 0 <= q < |s'.proc| ensures ProcEnds(s', q) {
      assert ProcEnds(s, q);
    }
    forall w ensures EndOk(s', w) {
      assert EndOk(s, w);
    }
  }

  lemma {:induction false} StartEnds(s: State, e: Event)
    requires Ends(s) && |s.data| == PIPESIZE && !e.Run? && !e.Kill?
    ensures Ends(Apply(s, e))
  {
    hide Ends;
    var s' := Apply(s, e);
    if s' != s {
      CallBegins(s, s', e.p);
    }
  }

  lemma {:induction false} EndsKeeps(s: State, e: Event)
    requires Ends(s) && Inv(s, false)
    ensures |s.data| == PIPESIZE && Ends(Apply(s, e)) && Inv(Apply(s, e), false)
  {
    hide Inv, Ends, Step;
    ApplyKeeps(s, e, false);
    match e
    case Run(p) =>
      if 0 <= p < |s.proc| {
        if Shared(s.proc[p].point) {
          SharedEnds(s, p);
          assert Step(s, p) == SharedStep(s, p) by { StepShared(s, p); }
        } else {
          match s.proc[p].call
          case Writing => WriteEnds(s, p);
          case Reading => ReadEnds(s, p);
          case Closing(_) => CloseEnds(s, p);
        }
      }
    case Kill(p) => KillEnds(s, p);
    case _ => StartEnds(s, e);
  }

  lemma {:induction false} StepShared(s: State, p: int)
    requires 0 <= p < |s.proc| && |s.data| == PIPESIZE && Shared(s.proc[p].point)
    ensures Step(s, p) == SharedStep(s, p)
  {
  }

  lemma {:induction false} RunEnds(s: State, run: seq<Event>)
    requires Ends(s) && Inv(s, false) && |s.data| == PIPESIZE
    ensures Ends(After(s, run)) && Inv(After(s, run), false)
    decreases |run|
  {
    hide Inv, Ends, Apply;
    if run != [] {
      RunEnds(s, run[..|run| - 1]);
      EndsKeeps(After(s, run[..|run| - 1]), run[|run| - 1]);
    }
  }

  /** Whatever state a pipe gets into satisfies both invariants. */
  lemma {:induction false} PipeEndsOk(n: nat, data: seq<int>, run: seq<Event>)
    requires |data| == PIPESIZE
    ensures var s := After(NewPipe(n, data), run); Ends(s) && Inv(s, false) && |s.proc| == n
  {
    hide Inv, Ends;
    NewPipeInv(n, data, false);
    NewEnds(n, data);
    RunEnds(NewPipe(n, data), run);
  }

  // ----- closed is closed -----

  lemma {:induction false} StaysClosed(s: State, e: Event, w: bool)
    requires !Open(s, w) && |s.data| == PIPESIZE
    ensures !Open(Apply(s, e), w)
  {
  }

  lemma {:induction false} StaysClosedAfter(s: State, more: seq<Event>, w: bool)
    requires !Open(s, w) && |s.data| == PIPESIZE
    ensures !Open(After(s, more), w)
    decreases |more|
  {
    hide Apply;
    if more != [] {
      StaysClosedAfter(s, more[..|more| - 1], w);
      StaysClosed(After(s, more[..|more| - 1]), more[|more| - 1], w);
    }
  }

  /** Over every run: once a call of pipeclose is past its assignment, its end is closed, and stays closed. Before a
      call of pipeclose on it the end is open. */
  lemma {:induction false} ClosedForGood(n: nat, data: seq<int>, run: seq<Event>, more: seq<Event>, p: int, w: bool)
    requires |data| == PIPESIZE && 0 <= p < n
    ensures var s := After(NewPipe(n, data), run);
      && (s.proc[p].call == Closing(w) && !s.proc[p].point.Acquire? && !s.proc[p].point.Body? ==>
            !Open(s, w) && !Open(After(s, more), w))
      && (Closer(s, w) == -1 ==> Open(s, w))
  {
    hide Inv, Apply, After;
    PipeEndsOk(n, data, run);
    var s := After(NewPipe(n, data), run);
    assert ProcEnds(s, p) && EndOk(s, w);
    if !Open(s, w) {
      StaysClosedAfter(s, more, w);
    }
  }

  // ----- readers at the end of the stream -----

  /** Nothing to read, as in was, and nobody to write; a read by p finds nothing and does not fail. */
  ghost predicate AtEnd(was: State, s: State, p: int) {
    && s.stored == was.stored && s.taken == was.taken && 0 <= p < |s.proc| && Count(s) == 0 && !s.writeOpen
    && (InRead(s.proc[p]) ==> s.proc[p].i == 0 && s.proc[p].buf == [] && !s.proc[p].failed)
  }

  lemma {:induction false} NoWriters(s: State, q: int)
    requires Inv(s, false) && !s.writeOpen && 0 <= q < |s.proc|
    ensures !InWrite(s.proc[q]) && s.writeCloser != -1
  {
    assert ProcOk(s, q, false);
  }

  lemma {:induction false} AtEndStays(was: State, s: State, e: Event, p: int)
    requires Inv(s, false) && |s.data| == PIPESIZE && AtEnd(was, s, p)
    ensures AtEnd(was, Apply(s, e), p)
  {
    hide Inv;
    if 0 <= e.p < |s.proc| {
      NoWriters(s, e.p);
      InvAt(s, e.p, false);
    }
  }

  lemma {:induction false} AtEndAfter(was: State, s: State, more: seq<Event>, p: int)
    requires Inv(s, false) && |s.data| == PIPESIZE && AtEnd(was, s, p)
    ensures AtEnd(was, After(s, more), p) && Inv(After(s, more), false)
    decreases |more|
  {
    hide Inv, Apply, AtEnd;
    if more != [] {
      AtEndAfter(was, s, more[..|more| - 1], p);
      AtEndStays(was, After(s, more[..|more| - 1]), more[|more| - 1], p);
      ApplyKeeps(After(s, more[..|more| - 1]), more[|more| - 1], false);
    }
  }

  /** Over every run: a reader that tests the pipe when it is empty and the write end is closed comes away with no
      bytes and no failure, killed or not, whatever else happens; so does its every later read. */
  lemma {:induction false} ReaderMeetsEnd(n: nat, data: seq<int>, run: seq<Event>, more: seq<Event>, p: int)
    requires |data| == PIPESIZE && 0 <= p < n
    requires var s := After(NewPipe(n, data), run);
      s.proc[p].call.Reading? && s.proc[p].point.Test? && s.nread == s.nwrite && !s.writeOpen
    ensures var s := After(NewPipe(n, data), run); var t := After(s, more);
      && t.nread == t.nwrite && t.taken == s.taken == t.stored
      && (InRead(t.proc[p]) ==> t.proc[p].buf == [] && t.proc[p].i == 0 && !t.proc[p].failed)
  {
    hide Inv, Apply, After, Ends;
    PipeEndsOk(n, data, run);
    var s := After(NewPipe(n, data), run);
    InvAt(s, p, false);
    EndsAt(s, p);
    AtEndAfter(s, s, more, p);
    var t := After(s, more);
    InvAt(t, p, false);
    AllTaken(t);
  }

  lemma {:induction false} EndsAt(s: State, p: int)
    requires Ends(s) && 0 <= p < |s.proc|
    ensures ProcEnds(s, p)
  {
  }

  lemma {:induction false} AllTaken(s: State)
    requires Inv(s, false) && Count(s) == 0
    ensures s.taken == s.stored
  {
  }

  /** And it gets there by itself: three steps to the end of the call, and one out of it. */
  lemma {:induction false} ReaderReturns(s: State, p: int)
    requires |s.data| == PIPESIZE && 0 <= p < |s.proc| && s.proc[p].call.Reading? && s.proc[p].point.Test?
    requires s.nread == s.nwrite && !s.writeOpen && s.tableLock == -1
    ensures After(s, [Run(p), Run(p), Run(p)]).proc[p] == s.proc[p].(point := Done)
    ensures After(s, [Run(p), Run(p), Run(p), Run(p)]).proc[p] == s.proc[p].(point := Idle)
  {
    hide Apply, After;
    var e := Run(p);
    FirstRun(s, e);
    AfterMore(s, [e], e);
    AfterMore(s, [e, e], e);
    AfterMore(s, [e, e, e], e);
    assert [e] + [e] == [e, e] && [e, e] + [e] == [e, e, e] && [e, e, e] + [e] == [e, e, e, e];
    ReaderLeavesLoop(s, p);
    ReaderLetsGo(After(s, [e, e]), p);
  }

  lemma {:induction false} ReaderLeavesLoop(s: State, p: int)
    requires |s.data| == PIPESIZE && 0 <= p < |s.proc| && s.proc[p].call.Reading? && s.proc[p].point.Test?
    requires s.nread == s.nwrite && !s.writeOpen
    ensures Apply(Apply(s, Run(p)), Run(p)) == Move(s, p, Last)
  {
    var s1 := Move(s, p, Body);
    assert Move(s, p, Last).proc == s1.proc[p := s1.proc[p].(point := Last)];
  }

  lemma {:induction false} ReaderLetsGo(s: State, p: int)
    requires |s.data| == PIPESIZE && 0 <= p < |s.proc| && s.proc[p].call.Reading? && s.proc[p].point.Last?
    requires s.tableLock == -1
    ensures Apply(s, Run(p)).proc[p] == s.proc[p].(point := Done)
    ensures Apply(Apply(s, Run(p)), Run(p)).proc[p] == s.proc[p].(point := Idle)
  {
    hide WakeAll;
  }

  lemma {:induction false} FirstRun(s: State, e: Event)
    requires |s.data| == PIPESIZE
    ensures After(s, [e]) == Apply(s, e)
  {
    assert [e][..0] == [];
  }

  lemma {:induction false} AfterMore(s: State, run: seq<Event>, e: Event)
    requires |s.data| == PIPESIZE
    ensures After(s, run + [e]) == Apply(After(s, run), e)
  {
    assert (run + [e])[..|run|] == run;
  }

  // ----- writers to a pipe nobody reads -----

  /** The ring is full for good, as in was; a write by p that wants to store something fails. */
  ghost predicate Broken(was: State, s: State, p: int) {
    && s.stored == was.stored && s.taken == was.taken && 0 <= p < |s.proc| && Count(s) == PIPESIZE && !s.readOpen
    && (InWrite(s.proc[p]) ==> var me := s.proc[p];
          && !me.point.Body? && (me.point.Loop? ==> me.i == 0) && (me.point.Last? ==> me.n == 0)
          && (me.point.Done? ==> me.failed || me.n == 0))
  }

  lemma {:induction false} NoReaders(s: State, q: int)
    requires Inv(s, false) && !s.readOpen && 0 <= q < |s.proc|
    ensures !InRead(s.proc[q]) && s.readCloser != -1
  {
    assert ProcOk(s, q, false);
  }

  /** Who neither reads nor writes a byte leaves the counts as they are. */
  lemma {:induction false} NothingMoves(s: State, q: int)
    requires |s.data| == PIPESIZE && 0 <= q < |s.proc| && !(s.proc[q].call.Reading? && s.proc[q].point.Body?)
    requires !(s.proc[q].call.Writing? && s.proc[q].point.Body?)
    ensures var s' := Step(s, q); s'.stored == s.stored && s'.taken == s.taken && (s'.readOpen ==> s.readOpen)
  {
    hide SharedStep;
    if Shared(s.proc[q].point) {
      SharedMoves(s, q);
    }
  }

  lemma {:induction false} BrokenRun(was: State, s: State, q: int, p: int)
    requires Inv(s, false) && Ends(s) && |s.data| == PIPESIZE && Broken(was, s, p) && 0 <= q < |s.proc|
    ensures Broken(was, Step(s, q), p)
  {
    hide Inv, Ends, SharedStep;
    NoReaders(s, q);
    InvAt(s, q, false);
    NothingMoves(s, q);
    if q != p {
      hide Step;
      OthersStay(s, q, p);
    } else {
      EndsAt(s, p);
      if Shared(s.proc[p].point) {
        SharedMoves(s, p);
      }
    }
  }

  lemma {:induction false} BrokenStays(was: State, s: State, e: Event, p: int)
    requires Inv(s, false) && Ends(s) && |s.data| == PIPESIZE && Broken(was, s, p)
    ensures Broken(was, Apply(s, e), p)
  {
    hide Inv, Ends, Step;
    if e.Run? && 0 <= e.p < |s.proc| {
      BrokenRun(was, s, e.p, p);
    }
  }

  lemma {:induction false} BrokenAfter(was: State, s: State, more: seq<Event>, p: int)
    requires Inv(s, false) && Ends(s) && |s.data| == PIPESIZE && Broken(was, s, p)
    ensures Broken(was, After(s, more), p) && Inv(After(s, more), false) && Ends(After(s, more))
    decreases |more|
  {
    hide Inv, Apply, Broken, Ends;
    if more != [] {
      BrokenAfter(was, s, more[..|more| - 1], p);
      BrokenStays(was, After(s, more[..|more| - 1]), more[|more| - 1], p);
      EndsKeeps(After(s, more[..|more| - 1]), more[|more| - 1]);
    }
  }

  /** Over every run: a writer that tests the ring when it is full and the read end is closed fails; so does its every
      later write of at least a byte. */
  lemma {:induction false} WriterFails(n: nat, data: seq<int>, run: seq<Event>, more: seq<Event>, p: int)
    requires |data| == PIPESIZE && 0 <= p < n
    requires var s := After(NewPipe(n, data), run);
      && s.proc[p].call.Writing? && s.proc[p].point.Test? && s.nwrite == (s.nread + PIPESIZE) % WRAP && !s.readOpen
    ensures var s := After(NewPipe(n, data), run);
      && Apply(s, Run(p)) == s.(proc := s.proc[p := s.proc[p].(point := Done, failed := true)])
      && var t := After(s, more);
      && (InWrite(t.proc[p]) && t.proc[p].point.Done? ==> t.proc[p].failed || t.proc[p].n == 0)
      && t.stored == s.stored && t.taken == s.taken
  {
    hide Inv, After, Ends;
    PipeEndsOk(n, data, run);
    var s := After(NewPipe(n, data), run);
    InvAt(s, p, false);
    EndsAt(s, p);
    BrokenAfter(s, s, more, p);
  }

  /** Over every run: a write returns with all its bytes stored, or fails, killed or without readers. A read returns
      with the bytes it asked for, or leaves an empty pipe behind; it comes away with none only if it asked for none or
      the write end is closed, and fails only if killed. */
  lemma {:induction false} HowCallsEnd(n: nat, data: seq<int>, run: seq<Event>, p: int)
    requires |data| == PIPESIZE && 0 <= p < n
    ensures var s := After(NewPipe(n, data), run); var me := s.proc[p];
      && (InWrite(me) && me.point.Done? ==>
            if me.failed then me.i < me.n && (me.killed || !s.readOpen) else me.i == me.n)
      && (InRead(me) && me.point.Done? ==>
            && |me.buf| <= me.n && (me.failed ==> me.buf == [] && me.killed)
            && (!me.failed ==> |me.buf| == me.n || s.nread == s.nwrite)
            && (!me.failed && me.buf == [] ==> me.n == 0 || !s.writeOpen))
  {
    hide Inv, After, Ends;
    PipeEndsOk(n, data, run);
    EndsAt(After(NewPipe(n, data), run), p);
    InvAt(After(NewPipe(n, data), run), p, false);
  }

  /** kill makes a sleeping process runnable; when it gets the lock, and finds the pipe as bad as before, it fails. */
  lemma {:induction false} KilledSleeperFails(s: State, p: int)
    requires |s.data| == PIPESIZE && 0 <= p < |s.proc| && s.proc[p].point.Asleep? && s.lock == -1 && s.tableLock == -1
    requires match s.proc[p].call
      case Reading => s.nread == s.nwrite && s.writeOpen
      case Writing => s.nwrite == (s.nread + PIPESIZE) % WRAP
      case Closing(_) => false
    ensures After(s, [Kill(p)]).proc[p] == s.proc[p].(killed := true, point := Awake)
    ensures After(s, [Kill(p), Run(p), Run(p)]).proc[p] == s.proc[p].(killed := true, point := Done, failed := true)
  {
    hide After;
    var s1 := Apply(s, Kill(p));
    var s2 := Apply(s1, Run(p));
    FirstRun(s, Kill(p));
    AfterMore(s, [Kill(p)], Run(p));
    AfterMore(s, [Kill(p), Run(p)], Run(p));
    assert [Kill(p)] + [Run(p)] == [Kill(p), Run(p)] && [Kill(p), Run(p)] + [Run(p)] == [Kill(p), Run(p), Run(p)];
    assert s2.proc[p] == s.proc[p].(killed := true, point := Test) && s2.lock == p;
  }

  /** Past the test of killed, and bound to sleep. */
  predicate Sleepy(at: Point) {
    at.Wake? || GoingToSleep(at)
  }

  /** A process that is killed between that test and sleep sleeps all the same. */
  lemma {:induction false} KilledTooLateSleeps(s: State, p: int)
    requires |s.data| == PIPESIZE && 0 <= p < |s.proc| && s.proc[p].point.SleepLock? && s.tableLock == -1
    ensures After(s, [Kill(p), Run(p), Run(p), Run(p)]).proc[p] == s.proc[p].(killed := true, point := Asleep)
  {
    hide After;
    var k, e := Kill(p), Run(p);
    FirstRun(s, k);
    AfterMore(s, [k], e);
    AfterMore(s, [k, e], e);
    AfterMore(s, [k, e, e], e);
    assert [k] + [e] == [k, e] && [k, e] + [e] == [k, e, e] && [k, e, e] + [e] == [k, e, e, e];
    var s1 := Apply(s, k);
    assert s1.proc[p] == s.proc[p].(killed := true);
    var s2 := Apply(s1, e);
    assert s2.proc[p] == s.proc[p].(killed := true, point := Unlock);
    var s3 := Apply(s2, e);
    assert s3.proc[p] == s.proc[p].(killed := true, point := Sleep);
  }

  /** The kill came when p was past the test, and not yet asleep. */
  ghost predicate KilledTooLate(s: State, run: seq<Event>, p: int)
    requires |s.data| == PIPESIZE && 0 <= p < |s.proc|
  {
    exists k {:trigger run[k]} :: 0 <= k < |run| && run[k] == Kill(p) &&
      var at := After(s, run[..k]).proc[p].point; at.Wake? || at.SleepLock?
  }

  lemma {:induction false} KilledStep(s: State, e: Event, p: int)
    requires Inv(s, false) && |s.data| == PIPESIZE && 0 <= p < |s.proc|
    requires Apply(s, e).proc[p].killed && Sleepy(Apply(s, e).proc[p].point)
    ensures
      || (s.proc[p].killed && Sleepy(s.proc[p].point))
      || (e == Kill(p) && (s.proc[p].point.Wake? || s.proc[p].point.SleepLock?))
  {
    hide Inv, SharedStep, Step;
    InvAt(s, p, false);
    if e.Run? && 0 <= e.p < |s.proc| {
      if e.p != p {
        OthersStay(s, e.p, p);
      } else if Shared(s.proc[p].point) {
        StepShared(s, p);
        SharedMoves(s, p);
      } else {
        KilledOwnStep(s, p);
      }
    }
  }

  lemma {:induction false} KilledOwnStep(s: State, p: int)
    requires |s.data| == PIPESIZE && 0 <= p < |s.proc| && !Shared(s.proc[p].point)
    requires Step(s, p).proc[p].killed && Sleepy(Step(s, p).proc[p].point)
    ensures s.proc[p].killed && Sleepy(s.proc[p].point)
  {
    hide WakeAll;
    WakesOnly(s, true);
  }

  /** Over every run: a killed process sleeps, or is about to, only if it was killed in that gap. */
  lemma {:induction false} KilledSleepsOnlyIfTooLate(n: nat, data: seq<int>, run: seq<Event>, p: int)
    requires |data| == PIPESIZE && 0 <= p < n
    requires var me := After(NewPipe(n, data), run).proc[p]; me.killed && Sleepy(me.point)
    ensures KilledTooLate(NewPipe(n, data), run, p)
    decreases |run|
  {
    hide Inv, Ends, Apply, Sleepy;
    var s := NewPipe(n, data);
    if run == [] {
      NobodySleeps(n, data, p);
    } else {
      var m := |run| - 1;
      PipeEndsOk(n, data, run[..m]);
      KilledStep(After(s, run[..m]), run[m], p);
      if run[m] == Kill(p) && (After(s, run[..m]).proc[p].point.Wake? || After(s, run[..m]).proc[p].point.SleepLock?) {
        assert KilledTooLate(s, run, p);
      } else {
        KilledSleepsOnlyIfTooLate(n, data, run[..m], p);
        KilledBefore(s, run, p);
      }
    }
  }

  lemma {:induction false} NobodySleeps(n: nat, data: seq<int>, p: int)
    requires |data| == PIPESIZE && 0 <= p < n
    ensures !Sleepy(NewPipe(n, data).proc[p].point)
  {
  }

  lemma {:induction false} KilledBefore(s: State, run: seq<Event>, p: int)
    requires |s.data| == PIPESIZE && 0 <= p < |s.proc| && run != [] && KilledTooLate(s, run[..|run| - 1], p)
    ensures KilledTooLate(s, run, p)
  {
    var m := |run| - 1;
    var k :| 0 <= k < m && run[..m][k] == Kill(p) &&
      var at := After(s, run[..m][..k]).proc[p].point; at.Wake? || at.SleepLock?;
    assert run[..m][..k] == run[..k] && run[k] == Kill(p);
  }

  // ----- what a call was given -----

  /** p is in a call throughout the run. */
  ghost predicate Busy(s: State, run: seq<Event>, p: int)
    requires |s.data| == PIPESIZE && 0 <= p < |s.proc|
  {
    forall k {:trigger run[..k]} :: 0 <= k <= |run| ==> !After(s, run[..k]).proc[p].point.Idle?
  }

  /** The bytes that p put into the pipe. */
  ghost function PutBy(s: State, run: seq<Event>, p: int): seq<int>
    requires |s.data| == PIPESIZE
    decreases |run|
  {
    if run == [] then []
    else
      var m := |run| - 1;
      var was, now := After(s, run[..m]).stored, After(s, run).stored;
      PutBy(s, run[..m], p) + if run[m] == Run(p) && |was| <= |now| then now[|was|..] else []
  }

  /** A step of one process can only wake another. */
  lemma {:induction false} OthersStay(s: State, q: int, p: int)
    requires |s.data| == PIPESIZE && 0 <= q < |s.proc| && 0 <= p < |s.proc| && p != q
    ensures var me, me' := s.proc[p], Step(s, q).proc[p];
      me' == me || (me.point.Asleep? && me' == me.(point := Awake))
  {
    hide SharedStep;
    if Shared(s.proc[q].point) {
      SharedMoves(s, q);
    }
  }

  /** A step of a call keeps what the call was given; a writer's step puts its next byte into the pipe, or none. */
  lemma {:induction false} CallKeeps(s: State, e: Event, p: int)
    requires |s.data| == PIPESIZE && 0 <= p < |s.proc| && !s.proc[p].point.Idle? && !Apply(s, e).proc[p].point.Idle?
    ensures var me, me' := s.proc[p], Apply(s, e).proc[p];
      && me'.call == me.call && me'.n == me.n
      && (me.call.Writing? ==>
            && me'.buf == me.buf
            && if e == Run(p) && me.point.Body? && 0 <= me.i < |me.buf| then
                 me'.i == me.i + 1 && Apply(s, e).stored == s.stored + [me.buf[me.i]]
               else me'.i == me.i && (e == Run(p) ==> Apply(s, e).stored == s.stored))
  {
    hide SharedStep, Step;
    match e
    case Run(q) =>
      if 0 <= q < |s.proc| && q != p {
        OthersStay(s, q, p);
      } else if q == p {
        OwnCallKeeps(s, p);
      }
    case _ =>
  }

  lemma {:induction false} WriterKeeps(s: State, p: int)
    requires |s.data| == PIPESIZE && 0 <= p < |s.proc| && s.proc[p].call.Writing?
    ensures var me, s' := s.proc[p], WriteStep(s, p); var me' := s'.proc[p];
      && me'.call == me.call && me'.n == me.n && me'.buf == me.buf
      && if me.point.Body? && 0 <= me.i < |me.buf| then
           me'.i == me.i + 1 && s'.stored == s.stored + [me.buf[me.i]]
         else me'.i == me.i && s'.stored == s.stored
  {
    hide WakeAll;
    match s.proc[p].point
    case Loop =>
    case Test =>
    case Wake =>
      WakesOnly(s, true);
    case Body =>
    case _ =>
  }

  lemma {:induction false} WakesOnly(s: State, readers: bool)
    ensures WakeAll(s, readers) == s.(proc := WakeAll(s, readers).proc)
  {
  }

  lemma {:induction false} OwnCallKeeps(s: State, p: int)
    requires |s.data| == PIPESIZE && 0 <= p < |s.proc|
    ensures var me, s' := s.proc[p], Step(s, p); var me' := s'.proc[p];
      && me'.call == me.call && me'.n == me.n
      && (me.call.Writing? ==>
            && me'.buf == me.buf
            && if me.point.Body? && 0 <= me.i < |me.buf| then
                 me'.i == me.i + 1 && s'.stored == s.stored + [me.buf[me.i]]
               else me'.i == me.i && s'.stored == s.stored)
  {
    hide SharedStep, WriteStep;
    if Shared(s.proc[p].point) {
      SharedMoves(s, p);
    } else if s.proc[p].call.Writing? {
      WriterKeeps(s, p);
    }
  }

  lemma {:induction false} BusyBefore(s: State, run: seq<Event>, p: int)
    requires |s.data| == PIPESIZE && 0 <= p < |s.proc| && run != [] && Busy(s, run, p)
    ensures Busy(s, run[..|run| - 1], p)
    ensures !After(s, run[..|run| - 1]).proc[p].point.Idle? && !After(s, run).proc[p].point.Idle?
  {
    var m := |run| - 1;
    assert run[..m] == run[..m] && run[..|run|] == run;
    forall k {:trigger run[..m][..k]} | 0 <= k <= m ensures !After(s, run[..m][..k]).proc[p].point.Idle? {
      assert run[..m][..k] == run[..k];
    }
  }

  lemma {:induction false} PutsNext(s: State, run: seq<Event>, p: int, bytes: seq<int>)
    requires |s.data| == PIPESIZE && 0 <= p < |s.proc| && Busy(s, run, p)
    requires s.proc[p].call.Writing? && s.proc[p].i == 0 && s.proc[p].buf == bytes
    ensures var me := After(s, run).proc[p];
      && me.call.Writing? && me.buf == bytes && me.n == s.proc[p].n && 0 <= me.i <= |bytes|
      && PutBy(s, run, p) == bytes[..me.i]
    decreases |run|
  {
    hide Apply, Busy;
    if run != [] {
      var m := |run| - 1;
      BusyBefore(s, run, p);
      PutsNext(s, run[..m], p, bytes);
      CallKeeps(After(s, run[..m]), run[m], p);
    }
  }

  /** Over every run: pipewrite puts into the pipe the bytes it was given, in order, the first i of them so far; if it
      returns without failing, all of them. */
  lemma {:induction false} WritePutsItsBytes(n: nat, data: seq<int>, run: seq<Event>, p: int, bytes: seq<int>,
                                             more: seq<Event>)
    requires |data| == PIPESIZE && 0 <= p < n
    requires var s := After(NewPipe(n, data), run); IdleAt(s, p) && s.writeCloser == -1 && !s.proc[p].killed
    requires Busy(After(NewPipe(n, data), run + [StartWrite(p, bytes)]), more, p)
    ensures var s := After(NewPipe(n, data), run + [StartWrite(p, bytes)]);
      var me := After(s, more).proc[p];
      && me.call.Writing? && 0 <= me.i <= |bytes| && PutBy(s, more, p) == bytes[..me.i]
      && (me.point.Done? && !me.failed ==> PutBy(s, more, p) == bytes)
  {
    var e := StartWrite(p, bytes);
    var s := After(NewPipe(n, data), run + [e]);
    AfterMore(NewPipe(n, data), run, e);
    PutsNext(s, more, p, bytes);
    PipeEndsOk(n, data, run + [e] + more);
    AfterAfter(NewPipe(n, data), run + [e], more);
    EndsAt(After(s, more), p);
  }

  lemma {:induction false} SameCall(s: State, run: seq<Event>, p: int)
    requires |s.data| == PIPESIZE && 0 <= p < |s.proc| && Busy(s, run, p)
    ensures After(s, run).proc[p].call == s.proc[p].call && After(s, run).proc[p].n == s.proc[p].n
    decreases |run|
  {
    hide Apply, Busy;
    if run != [] {
      BusyBefore(s, run, p);
      SameCall(s, run[..|run| - 1], p);
      CallKeeps(After(s, run[..|run| - 1]), run[|run| - 1], p);
    }
  }

  /** Over every run: piperead gets at most the bytes it asked for, and gets none, if it asked for some and does not
      fail, only from a pipe whose write end is closed. */
  lemma {:induction false} ReadGetsWhatItAsked(n: nat, data: seq<int>, run: seq<Event>, p: int, wanted: nat,
                                               more: seq<Event>)
    requires |data| == PIPESIZE && 0 <= p < n
    requires var s := After(NewPipe(n, data), run); IdleAt(s, p) && s.readCloser == -1 && !s.proc[p].killed
    requires Busy(After(NewPipe(n, data), run + [StartRead(p, wanted)]), more, p)
    ensures var t := After(After(NewPipe(n, data), run + [StartRead(p, wanted)]), more);
      var me := t.proc[p];
      && me.call.Reading? && |me.buf| <= wanted
      && (me.point.Done? && !me.failed && me.buf == [] ==> wanted == 0 || !t.writeOpen)
  {
    var e := StartRead(p, wanted);
    var s := After(NewPipe(n, data), run + [e]);
    AfterMore(NewPipe(n, data), run, e);
    SameCall(s, more, p);
    PipeEndsOk(n, data, run + [e] + more);
    AfterAfter(NewPipe(n, data), run + [e], more);
    EndsAt(After(s, more), p);
  }

  lemma {:induction false} AfterAfter(s: State, run: seq<Event>, more: seq<Event>)
    requires |s.data| == PIPESIZE
    ensures After(After(s, run), more) == After(s, run + more)
    decreases |more|
  {
    hide Apply;
    if more == [] {
      assert run + more == run;
    } else {
      var m := |more| - 1;
      assert (run + more)[..|run| + m] == run + more[..m];
      AfterAfter(s, run, more[..m]);
    }
  }

  // ----- when the pipe is freed -----

  /** Nobody but p is in a call, and nobody can begin one. */
  ghost predicate Deserted(s: State, p: int) {
    && !s.readOpen && !s.writeOpen && s.readCloser != -1 && s.writeCloser != -1
    && forall q {:trigger s.proc[q]} :: 0 <= q < |s.proc| && q != p ==> s.proc[q].point.Idle?
  }

  /** The process that is about to release the lock with both ends closed is alone. */
  lemma {:induction false} LastOut(s: State, p: int)
    requires Inv(s, false) && Ends(s) && 0 <= p < |s.proc| && s.proc[p].call.Closing? && s.proc[p].point.Done?
    requires !s.readOpen && !s.writeOpen
    ensures Deserted(s, p)
  {
    hide Inv, Ends;
    NoReaders(s, p);
    NoWriters(s, p);
    InvAt(s, p, false);
    forall q {:trigger s.proc[q]} | 0 <= q < |s.proc| && q != p ensures s.proc[q].point.Idle? {
      NoReaders(s, q);
      NoWriters(s, q);
      InvAt(s, q, false);
      EndsAt(s, q);
      if s.proc[q].call.Closing? {
        EndsAtCloser(s, q);
      }
    }
  }

  lemma {:induction false} EndsAtCloser(s: State, q: int)
    requires Ends(s) && 0 <= q < |s.proc| && s.proc[q].call.Closing? && !Open(s, s.proc[q].call.writable)
    ensures !Pending(s.proc[q], s.proc[q].call.writable)
  {
    assert ProcEnds(s, q) && EndOk(s, s.proc[q].call.writable);
  }

  lemma {:induction false} DesertedStays(s: State, e: Event, p: int)
    requires Deserted(s, p) && |s.data| == PIPESIZE && 0 <= p < |s.proc|
    requires s.proc[p].point.Done? || s.proc[p].point.Idle?
    ensures Deserted(Apply(s, e), p)
    ensures Apply(s, e).proc[p].point.Done? || Apply(s, e).proc[p].point.Idle?
    ensures s.proc[p].point.Idle? ==> Apply(s, e).proc[p].point.Idle?
  {
  }

  lemma {:induction false} DesertedAfter(s: State, more: seq<Event>, p: int)
    requires Deserted(s, p) && |s.data| == PIPESIZE && 0 <= p < |s.proc|
    requires s.proc[p].point.Done? || s.proc[p].point.Idle?
    ensures Deserted(After(s, more), p) && (After(s, more).proc[p].point.Done? || After(s, more).proc[p].point.Idle?)
    decreases |more|
  {
    hide Apply, Deserted;
    if more != [] {
      DesertedAfter(s, more[..|more| - 1], p);
      DesertedStays(After(s, more[..|more| - 1]), more[|more| - 1], p);
    }
  }

  /** Over every run: pipeclose frees the pipe when it finds both ends closed, and then nobody else is in a call on it,
      nor ever will be; so nobody frees it again. */
  lemma {:induction false} FreedUnused(n: nat, data: seq<int>, run: seq<Event>, more: seq<Event>, p: int, q: int)
    requires |data| == PIPESIZE && 0 <= p < n && 0 <= q < n && q != p
    requires var s := After(NewPipe(n, data), run);
      s.proc[p].call.Closing? && s.proc[p].point.Done? && !s.readOpen && !s.writeOpen
    ensures After(After(NewPipe(n, data), run), more).proc[q].point.Idle?
  {
    hide Inv, After, Ends, Apply;
    PipeEndsOk(n, data, run);
    var s := After(NewPipe(n, data), run);
    LastOut(s, p);
    DesertedAfter(s, more, p);
  }

  /** A pipeclose that frees the pipe. */
  ghost predicate Frees(s: State, p: int) {
    0 <= p < |s.proc| && s.proc[p].call.Closing? && s.proc[p].point.Done? && !s.readOpen && !s.writeOpen
  }

  ghost predicate WasFreed(s: State, run: seq<Event>)
    requires |s.data| == PIPESIZE
  {
    exists k, p {:trigger Frees(After(s, run[..k]), p)} :: 0 <= k <= |run| && Frees(After(s, run[..k]), p)
  }

  /** p has closed the last end and will free the pipe. */
  ghost predicate WillFree(s: State, p: int) {
    0 <= p < |s.proc| && s.proc[p].call.Closing? && s.proc[p].point.Last?
  }

  lemma {:induction false} FreedStays(s: State, run: seq<Event>)
    requires |s.data| == PIPESIZE && run != [] && WasFreed(s, run[..|run| - 1])
    ensures WasFreed(s, run)
  {
    var m := |run| - 1;
    var k, p :| 0 <= k <= m && Frees(After(s, run[..m][..k]), p);
    assert run[..m][..k] == run[..k];
  }

  lemma {:induction false} FreedNow(s: State, run: seq<Event>, p: int)
    requires |s.data| == PIPESIZE && Frees(After(s, run), p)
    ensures WasFreed(s, run)
  {
    assert run[..|run|] == run;
  }

  lemma {:induction false} SecondCloses(s: State, e: Event)
    requires |s.data| == PIPESIZE && (s.readOpen || s.writeOpen)
    requires var t := Apply(s, e); !t.readOpen && !t.writeOpen
    ensures WillFree(Apply(s, e), e.p)
  {
  }

  lemma {:induction false} LastIsLast(s: State, e: Event, p: int)
    requires |s.data| == PIPESIZE && WillFree(s, p) && !s.readOpen && !s.writeOpen
    ensures WillFree(Apply(s, e), p) || Frees(Apply(s, e), p)
  {
    hide SharedStep, Step;
    StaysClosed(s, e, true);
    StaysClosed(s, e, false);
    if e.Run? && 0 <= e.p < |s.proc| {
      if e.p != p {
        OthersStay(s, e.p, p);
      } else {
        StepShared(s, p);
        SharedMoves(s, p);
      }
    }
  }

  lemma {:induction false} FreedOrWillBe(s: State, run: seq<Event>)
    requires |s.data| == PIPESIZE && s.readOpen
    ensures var t := After(s, run);
      !t.readOpen && !t.writeOpen ==> WasFreed(s, run) || exists p :: WillFree(t, p)
    decreases |run|
  {
    hide Apply, WillFree, Frees, WasFreed;
    if run != [] {
      var m := |run| - 1;
      var t, t' := After(s, run[..m]), After(s, run);
      FreedOrWillBe(s, run[..m]);
      if !t'.readOpen && !t'.writeOpen {
        if t.readOpen || t.writeOpen {
          SecondCloses(t, run[m]);
        } else if WasFreed(s, run[..m]) {
          FreedStays(s, run);
        } else {
          var p :| WillFree(t, p);
          LastIsLast(t, run[m], p);
          if Frees(t', p) {
            FreedNow(s, run, p);
          }
        }
      }
    }
  }

  /** Over every run: when both ends are closed and the lock is free, the pipe has been freed. */
  lemma {:induction false} FreedAtLast(n: nat, data: seq<int>, run: seq<Event>)
    requires |data| == PIPESIZE
    requires var s := After(NewPipe(n, data), run); !s.readOpen && !s.writeOpen && s.lock == -1
    ensures WasFreed(NewPipe(n, data), run)
  {
    hide Inv, After, Ends, WasFreed;
    PipeEndsOk(n, data, run);
    var s := After(NewPipe(n, data), run);
    FreedOrWillBe(NewPipe(n, data), run);
    if p :| WillFree(s, p) {
      InvAt(s, p, false);
      assert false;
    }
  }
}
