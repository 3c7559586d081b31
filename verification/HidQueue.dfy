/** The input-report queue of the HID library: a reading thread that fills a list, callers that
    empty it, a mutex and a condition variable between them. */
module HidQueue {
  import opened Words

  type Report = seq<Byte>

  // ----- The list ---------------------------------------------------------------

  /** The list is longer than the callback lets it stay. */
  predicate TooMany(queue: seq<Report>)
  {
    |queue| > 32
  }

  class HidDevice {
    var inputReports: seq<Report>

    /** Take the first report off the list and copy what fits. */
    method ReturnData(data: array<Byte>, length: nat) returns (len: nat)
      requires inputReports != [] && length <= data.Length
      modifies this, data
      ensures inputReports == old(inputReports)[1..]
      ensures len == if length < |old(inputReports)[0]| then length else |old(inputReports)[0]|
      ensures data[..] == old(inputReports)[0][..len] + old(data[..])[len..]
    {
      var rpt := inputReports[0];
      len := if length < |rpt| then length else |rpt|;
      forall i | 0 <= i < len {
        data[i] := rpt[i];
      }
      inputReports := inputReports[1..];
    }

    /** What the callback does with a completed transfer while it holds the mutex. `signal`
        says that it signals the condition. */
    method Attach(rpt: Report) returns (signal: bool)
      modifies this
      ensures signal <==> old(inputReports) == []
      ensures inputReports == if TooMany(old(inputReports) + [rpt]) then (old(inputReports) + [rpt])[1..]
                              else old(inputReports) + [rpt]
    {
      if inputReports == [] {
        inputReports := [rpt];
        signal := true;
      } else {
        var cur, numQueued := 0, 0;
        while cur + 1 < |inputReports|
          invariant 0 <= numQueued == cur < |inputReports|
        {
          cur := cur + 1;
          numQueued := numQueued + 1;
        }
        inputReports := inputReports + [rpt];
        if numQueued > 30 {
          var nothing := new Byte[0];
          var len := ReturnData(nothing, 0);
        }
        signal := false;
      }
    }
  }

  // ----- The threads --------------------------------------------------------------

  datatype Mode = Blocking | Timed | Polling

  datatype Result = Bytes(report: Report) | Zero | Fail

  /** Where a caller of the read function is. */
  datatype ReaderPc =
    | Idle
    | WantsLock(mode: Mode)
    | Entered(mode: Mode)
    | Testing(mode: Mode)
    | Sleeping(mode: Mode)
    | Woken(mode: Mode, expired: bool)
    | Back(mode: Mode, expired: bool)
    | Leaving(mode: Mode, result: Result)

  /** Where the reading thread is. */
  datatype ProducerPc =
    | Listening
    | Got(report: Report)
    | Attaching(report: Report)
    | Signalling
    | Dropping
    | Releasing
    | Resubmitting
    | Broadcasting
    | LastRelease
    | Ended

  datatype Holder = Producer | Reader(i: nat)

  /** How a report left the list: to a caller, as too many from a list of some length, or
      when the device was closed. */
  datatype Removal =
    | Delivered(report: Report, to: nat)
    | Dropped(report: Report, length: nat)
    | Discarded(report: Report)

  /** What a call of the read function has returned, and to whom. */
  datatype Return = Return(to: nat, result: Result)

  /** `left`: the event loop has been left. `failed`: it was left on an error, with no
      shutdown. `arrived` and `removed` record the reports attached and taken off, `returned`
      the calls that have come back. */
  datatype State = State(queue: seq<Report>, holder: Option<Holder>, shutdown: bool, left: bool, failed: bool,
                         producer: ProducerPc, readers: seq<ReaderPc>,
                         arrived: seq<Report>, removed: seq<Removal>, returned: seq<Return>)

  datatype Step =
    | Arrive(report: Report)
    | Disconnect
    | LockForReport
    | Attach
    | Signal(woken: set<nat>)
    | DropOldest
    | Release
    | Resubmit(accepted: bool)
    | LeaveLoop(fatal: bool)
    | LockForBroadcast
    | Broadcast
    | End
    | Close
    | Discard
    | Call(i: nat, mode: Mode)
    | Go(i: nat)
    | Spurious(i: nat)
    | Expire(i: nat)

  function Init(n: nat): State
  {
    State([], None, false, false, false, Listening, seq(n, _ => Idle), [], [], [])
  }

  predicate ProducerInside(p: ProducerPc)
  {
    p.Attaching? || p.Signalling? || p.Dropping? || p.Releasing? || p.Broadcasting? || p.LastRelease?
  }

  predicate ReaderInside(r: ReaderPc)
  {
    r.Entered? || r.Testing? || r.Back? || r.Leaving?
  }

  function At(s: State, i: nat): ReaderPc
  {
    if i < |s.readers| then s.readers[i] else Idle
  }

  /** Callers in a set wake up. */
  function Wake(readers: seq<ReaderPc>, woken: set<nat>): (r: seq<ReaderPc>)
    ensures |r| == |readers|
    ensures forall i :: 0 <= i < |r| ==>
              r[i] == if i in woken && readers[i].Sleeping? then Woken(readers[i].mode, false) else readers[i]
  {
    seq(|readers|, i requires 0 <= i < |readers| =>
      if i in woken && readers[i].Sleeping? then Woken(readers[i].mode, false) else readers[i])
  }

  function WakeAll(readers: seq<ReaderPc>): (r: seq<ReaderPc>)
    ensures |r| == |readers|
    ensures forall i :: 0 <= i < |r| ==>
            r[i] == if readers[i].Sleeping? then Woken(readers[i].mode, false) else readers[i]
  {
    seq(|readers|, i requires 0 <= i < |readers| =>
      if readers[i].Sleeping? then Woken(readers[i].mode, false) else readers[i])
  }

  /** A signal wakes at least one of the sleepers, if there are any. */
  predicate MayWake(readers: seq<ReaderPc>, woken: set<nat>)
  {
    (exists i :: 0 <= i < |readers| && readers[i].Sleeping?) ==>
      exists i :: 0 <= i < |readers| && readers[i].Sleeping? && i in woken
  }

  /** One step of the reading thread; a step that is not enabled changes nothing. */
  function Produce(s: State, step: Step): State
  {
    match step
    case Arrive(report) =>
      if s.producer.Listening? then s.(producer := Got(report)) else s
    case Disconnect =>
      if s.producer.Listening? then s.(shutdown := true) else s
    case LockForReport =>
      if s.producer.Got? && s.holder.None?
      then s.(producer := Attaching(s.producer.report), holder := Some(Producer)) else s
    case Attach =>
      if !s.producer.Attaching? then s
      else
        var r := s.producer.report;
        if s.queue == [] then s.(queue := [r], arrived := s.arrived + [r], producer := Signalling)
        else s.(queue := s.queue + [r], arrived := s.arrived + [r],
                producer := if TooMany(s.queue + [r]) then Dropping else Releasing)
    case Signal(woken) =>
      if s.producer.Signalling? && MayWake(s.readers, woken)
      then s.(readers := Wake(s.readers, woken), producer := Releasing) else s
    case DropOldest =>
      if s.producer.Dropping? && s.queue != []
      then s.(queue := s.queue[1..], removed := s.removed + [Dropped(s.queue[0], |s.queue|)],
              producer := Releasing) else s
    case Release =>
      if s.producer.Releasing? then s.(producer := Resubmitting, holder := None) else s
    case Resubmit(accepted) =>
      if s.producer.Resubmitting? then s.(producer := Listening, shutdown := s.shutdown || !accepted) else s
    case LeaveLoop(fatal) =>
      if s.producer.Listening? && !s.left && (s.shutdown || fatal) then s.(left := true, failed := !s.shutdown) else s
    case LockForBroadcast =>
      if s.producer.Listening? && s.left && s.holder.None?
      then s.(producer := Broadcasting, holder := Some(Producer)) else s
    case Broadcast =>
      if s.producer.Broadcasting? then s.(readers := WakeAll(s.readers), producer := LastRelease) else s
    case End =>
      if s.producer.LastRelease? then s.(producer := Ended, holder := None) else s
    case Close => s.(shutdown := true)
    case Discard =>
      if s.producer.Ended? && s.shutdown && s.holder.None? && s.queue != []
      then s.(queue := s.queue[1..], removed := s.removed + [Discarded(s.queue[0])]) else s
    case _ => s
  }

  function Move(s: State, i: nat, pc: ReaderPc): State
    requires i < |s.readers|
  {
    s.(readers := s.readers[i := pc])
  }

  /** Where a caller goes next, and whether it takes the first report on the way. */
  datatype Turn = Turn(pc: ReaderPc, takes: bool)

  function Takes(mode: Mode, queue: seq<Report>): Turn
    requires queue != []
  {
    Turn(Leaving(mode, Bytes(queue[0])), true)
  }

  function NextTurn(pc: ReaderPc, queue: seq<Report>, shutdown: bool, free: bool): (turn: Turn)
    ensures turn.takes ==> queue != []
  {
    match pc
    case WantsLock(mode) => Turn(if free then Entered(mode) else pc, false)
    case Entered(mode) =>
      if queue != [] then Takes(mode, queue)
      else if shutdown then Turn(Leaving(mode, Fail), false)
      else if mode.Polling? then Turn(Leaving(mode, Zero), false)
      else Turn(Testing(mode), false)
    case Testing(mode) =>
      if queue == [] && !shutdown then Turn(Sleeping(mode), false)
      else if mode.Blocking? && queue != [] then Takes(mode, queue)
      else Turn(Leaving(mode, Fail), false)
    case Woken(mode, expired) => Turn(if free then Back(mode, expired) else pc, false)
    case Back(mode, expired) =>
      if mode.Timed? && expired then Turn(Leaving(mode, Zero), false)
      else if mode.Timed? && queue != [] then Takes(mode, queue)
      else Turn(Testing(mode), false)
    case Leaving(mode, result) => Turn(Idle, false)
    case _ => Turn(pc, false)
  }

  /** Caller `i` runs to its next stop; it takes the mutex when it goes inside and gives it
      back when it comes out. */
  function Advance(s: State, i: nat): State
    requires i < |s.readers|
  {
    var was := s.readers[i];
    var turn := NextTurn(was, s.queue, s.shutdown, s.holder.None?);
    s.(readers := s.readers[i := turn.pc],
       holder := if ReaderInside(was) == ReaderInside(turn.pc) then s.holder
                 else if ReaderInside(was) then None else Some(Reader(i)),
       queue := if turn.takes then s.queue[1..] else s.queue,
       removed := if turn.takes then s.removed + [Delivered(s.queue[0], i)] else s.removed,
       returned := if was.Leaving? then s.returned + [Return(i, was.result)] else s.returned)
  }

  function Do(s: State, step: Step): State
  {
    match step
    case Call(i, mode) => if i < |s.readers| && s.readers[i].Idle? then Move(s, i, WantsLock(mode)) else s
    case Go(i) => if i < |s.readers| then Advance(s, i) else s
    case Spurious(i) =>
      if i < |s.readers| && s.readers[i].Sleeping? then Move(s, i, Woken(s.readers[i].mode, false)) else s
    case Expire(i) =>
      if i < |s.readers| && s.readers[i].Sleeping? && s.readers[i].mode.Timed?
      then Move(s, i, Woken(s.readers[i].mode, true)) else s
    case _ => Produce(s, step)
  }

  /** A run: any interleaving. */
  function Play(s: State, steps: seq<Step>): State
    decreases |steps|
  {
    if steps == [] then s else Do(Play(s, steps[..|steps| - 1]), steps[|steps| - 1])
  }

  /** The steps of the reading thread inside the mutex do to the list what the callback does. */
  lemma AttachIsSteps(s: State)
    requires s.producer.Attaching?
    ensures var q := s.queue + [s.producer.report];
            Do(Do(s, Attach), DropOldest).queue == if TooMany(q) then q[1..] else q
    ensures Do(s, Attach).producer.Signalling? <==> s.queue == []
  {
    assert s.queue == [] ==> s.queue + [s.producer.report] == [s.producer.report];
  }

  // ----- What every run keeps -------------------------------------------------------

  /** Only the holder of the mutex is inside. */
  ghost predicate Exclusive(s: State)
  {
    && (ProducerInside(s.producer) <==> s.holder == Some(Producer))
    && (forall i: nat :: i < |s.readers| ==> (ReaderInside(s.readers[i]) <==> s.holder == Some(Reader(i))))
    && (s.holder.Some? && s.holder.value.Reader? ==> s.holder.value.i < |s.readers|)
  }

  function Reports(removed: seq<Removal>): (r: seq<Report>)
    ensures |r| == |removed|
  {
    seq(|removed|, i requires 0 <= i < |removed| => removed[i].report)
  }

  /** First in, first out, and nothing is lost or made up. */
  ghost predicate InOrder(s: State)
  {
    s.arrived == Reports(s.removed) + s.queue
  }

  /** The list is bounded, and only a list of 33 is cut. */
  ghost predicate Bounded(s: State)
  {
    && |s.queue| <= (if s.producer.Dropping? then 33 else 32)
    && (s.producer.Dropping? ==> |s.queue| == 33)
    && (s.producer.Signalling? ==> s.queue != [])
    && forall i :: 0 <= i < |s.removed| && s.removed[i].Dropped? ==> s.removed[i].length == 33
  }

  predicate MayWait(r: ReaderPc)
  {
    r.Testing? || r.Sleeping? || r.Woken? || r.Back?
  }

  /** The reports that calls of caller `i` have returned. */
  function Returned(returned: seq<Return>, i: nat): seq<Report>
  {
    if returned == [] then []
    else
      var n := |returned| - 1;
      var before := Returned(returned[..n], i);
      if returned[n].to == i && returned[n].result.Bytes? then before + [returned[n].result.report] else before
  }

  /** The report that a caller is on its way out with. */
  function Carried(pc: ReaderPc): seq<Report>
  {
    if pc.Leaving? && pc.result.Bytes? then [pc.result.report] else []
  }

  /** The reports that left the list for caller `i`. */
  function DeliveredTo(removed: seq<Removal>, i: nat): seq<Report>
  {
    if removed == [] then []
    else
      var n := |removed| - 1;
      var before := DeliveredTo(removed[..n], i);
      if removed[n].Delivered? && removed[n].to == i then before + [removed[n].report] else before
  }

  /** Every caller gets exactly the reports that left the list for it, in that order. */
  ghost predicate Honored(s: State)
  {
    && (forall i: nat :: i < |s.readers| ==>
          Returned(s.returned, i) + Carried(s.readers[i]) == DeliveredTo(s.removed, i))
    && (forall k :: 0 <= k < |s.removed| && s.removed[k].Delivered? ==> s.removed[k].to < |s.readers|)
  }

  /** A failing read has seen the shutdown and an empty list; only a timed read, or a polling
      one on an empty list, comes back with nothing. */
  ghost predicate FailsOnShutdown(s: State)
  {
    && (forall i: nat :: i < |s.readers| && s.readers[i].Leaving? && s.readers[i].result.Fail? ==>
          s.shutdown && s.queue == [])
    && (forall i: nat :: i < |s.readers| && s.readers[i].Leaving? && s.readers[i].result.Zero? ==>
          s.readers[i].mode.Timed? || (s.readers[i].mode.Polling? && s.queue == []))
    && (forall i: nat :: i < |s.readers| && s.readers[i].Testing? && s.readers[i].mode.Timed? ==> s.queue == [])
    && (forall i: nat :: i < |s.readers| && MayWait(s.readers[i]) ==> !s.readers[i].mode.Polling?)
  }

  /** After the final broadcast nobody sleeps, unless the thread ended on an error. */
  ghost predicate NoneLeftBehind(s: State)
  {
    && (s.left && !s.failed ==> s.shutdown)
    && (s.producer.Broadcasting? || s.producer.LastRelease? || s.producer.Ended? ==> s.left)
    && ((s.producer.LastRelease? || s.producer.Ended?) && !s.failed ==>
          forall i: nat :: i < |s.readers| ==> !s.readers[i].Sleeping?)
  }

  /** A single caller asleep beside a report has a signal coming. */
  ghost predicate SignalComing(s: State)
  {
    |s.readers| == 1 && s.readers[0].Sleeping? && s.queue != [] ==> s.producer.Signalling?
  }

  ghost predicate Inv(s: State)
  {
    && Exclusive(s) && InOrder(s) && Honored(s) && Bounded(s) && FailsOnShutdown(s) && NoneLeftBehind(s)
    && SignalComing(s)
  }

  lemma InitInv(n: nat)
    ensures Inv(Init(n))
  {
  }

  lemma ReportsMore(removed: seq<Removal>, r: Removal, rest: seq<Report>)
    ensures Reports(removed + [r]) + rest == Reports(removed) + ([r.report] + rest)
  {
    assert Reports(removed + [r]) == Reports(removed) + [r.report];
  }

  lemma ProduceExclusive(s: State, step: Step)
    requires Exclusive(s)
    ensures Exclusive(Produce(s, step))
  {
  }

  lemma ProduceInOrder(s: State, step: Step)
    requires InOrder(s)
    ensures InOrder(Produce(s, step))
  {
    hide Reports;
    if s.queue != [] {
      ReportsMore(s.removed, Dropped(s.queue[0], |s.queue|), s.queue[1..]);
      ReportsMore(s.removed, Discarded(s.queue[0]), s.queue[1..]);
      assert s.queue == [s.queue[0]] + s.queue[1..];
    }
  }

  lemma DeliveredMore(removed: seq<Removal>, r: Removal, i: nat)
    ensures DeliveredTo(removed + [r], i)
         == if r.Delivered? && r.to == i then DeliveredTo(removed, i) + [r.report] else DeliveredTo(removed, i)
  {
    assert (removed + [r])[..|removed|] == removed;
  }

  lemma ReturnedMore(returned: seq<Return>, r: Return, i: nat)
    ensures Returned(returned + [r], i)
         == if r.to == i && r.result.Bytes? then Returned(returned, i) + [r.result.report] else Returned(returned, i)
  {
    assert (returned + [r])[..|returned|] == returned;
  }

  /** The reading thread wakes callers, but no caller's report changes. */
  lemma ProduceHonored(s: State, step: Step)
    requires Honored(s)
    ensures Honored(Produce(s, step))
  {
    hide Produce, Returned, DeliveredTo;
    var t := Produce(s, step);
    ProduceGivesNone(s, step);
    forall i: nat | i < |t.readers|
      ensures Returned(t.returned, i) + Carried(t.readers[i]) == DeliveredTo(t.removed, i)
    {
      if t.removed != s.removed {
        DeliveredMore(s.removed, t.removed[|s.removed|], i);
      }
    }
  }

  lemma ProduceGivesNone(s: State, step: Step)
    ensures var t := Produce(s, step);
            && |t.readers| == |s.readers| && t.returned == s.returned
            && (forall i: nat :: i < |t.readers| ==> Carried(t.readers[i]) == Carried(s.readers[i]))
            && (t.removed == s.removed ||
                (|t.removed| == |s.removed| + 1 && !t.removed[|s.removed|].Delivered? &&
                 t.removed == s.removed + [t.removed[|s.removed|]]))
  {
  }

  lemma ProduceBounded(s: State, step: Step)
    requires Bounded(s)
    ensures Bounded(Produce(s, step))
  {
  }

  lemma ProduceFails(s: State, step: Step)
    requires Exclusive(s) && FailsOnShutdown(s)
    ensures FailsOnShutdown(Produce(s, step))
  {
  }

  lemma ProduceLeaves(s: State, step: Step)
    requires NoneLeftBehind(s)
    ensures NoneLeftBehind(Produce(s, step))
  {
  }

  lemma ProduceWakes(s: State, step: Step)
    requires Exclusive(s) && SignalComing(s)
    ensures SignalComing(Produce(s, step))
  {
  }

  /** Where a caller can have come from. */
  predicate Follows(queue: seq<Report>, shutdown: bool, was: ReaderPc, turn: Turn)
  {
    match turn.pc
    case Leaving(mode, Fail) =>
      !turn.takes &&
      if was.Entered? then was == Entered(mode) && shutdown && queue == []
      else was == Testing(mode) && (shutdown || queue != []) && !(mode.Blocking? && queue != [])
    case Leaving(mode, Zero) =>
      !turn.takes &&
      if was.Entered? then was == Entered(mode) && mode.Polling? && queue == []
      else was == Back(mode, true) && mode.Timed?
    case Leaving(mode, Bytes(report)) =>
      turn.takes && ReaderInside(was) && !was.Leaving? && queue != [] && report == queue[0]
    case Idle => !turn.takes && (was.Idle? || was.Leaving?)
    case Testing(mode) =>
      !turn.takes &&
      if was.Entered? then was == Entered(mode) && queue == [] && !mode.Polling?
      else was.Back? && was.mode == mode && (mode.Timed? ==> queue == [])
    case Sleeping(mode) => !turn.takes && (was == turn.pc || (was == Testing(mode) && queue == [] && !shutdown))
    case Woken(_, _) => was == turn.pc
    case Back(mode, expired) => was == Woken(mode, expired)
    case _ => true
  }

  lemma TurnFollows(pc: ReaderPc, queue: seq<Report>, shutdown: bool, free: bool)
    ensures var turn := NextTurn(pc, queue, shutdown, free);
            && Follows(queue, shutdown, pc, turn)
            && (!ReaderInside(pc) && ReaderInside(turn.pc) ==> free)
            && (turn.takes ==> turn.pc.Leaving? && turn.pc.result.Bytes?)
            && (pc.Leaving? ==> turn.pc.Idle?)
  {
  }

  lemma AdvanceExclusive(s: State, i: nat)
    requires Exclusive(s) && i < |s.readers|
    ensures Exclusive(Advance(s, i))
  {
    TurnFollows(s.readers[i], s.queue, s.shutdown, s.holder.None?);
    hide NextTurn;
  }

  lemma AdvanceLeaves(s: State, i: nat)
    requires NoneLeftBehind(s) && i < |s.readers|
    ensures NoneLeftBehind(Advance(s, i))
  {
    TurnFollows(s.readers[i], s.queue, s.shutdown, s.holder.None?);
    hide NextTurn;
  }

  lemma AdvanceInOrder(s: State, i: nat)
    requires Exclusive(s) && InOrder(s) && Bounded(s) && i < |s.readers|
    ensures InOrder(Advance(s, i)) && Bounded(Advance(s, i))
  {
    TurnFollows(s.readers[i], s.queue, s.shutdown, s.holder.None?);
    hide Reports, NextTurn;
    if s.queue != [] {
      ReportsMore(s.removed, Delivered(s.queue[0], i), s.queue[1..]);
      assert s.queue == [s.queue[0]] + s.queue[1..];
    }
  }

  lemma AdvanceHonored(s: State, i: nat)
    requires Honored(s) && i < |s.readers|
    ensures Honored(Advance(s, i))
  {
    TurnFollows(s.readers[i], s.queue, s.shutdown, s.holder.None?);
    hide NextTurn;
    var t := Advance(s, i);
    forall j: nat | j < |t.readers|
      ensures Returned(t.returned, j) + Carried(t.readers[j]) == DeliveredTo(t.removed, j)
    {
      assert Returned(s.returned, j) + Carried(s.readers[j]) == DeliveredTo(s.removed, j);
      if s.queue != [] {
        DeliveredMore(s.removed, Delivered(s.queue[0], i), j);
      }
      if s.readers[i].Leaving? {
        ReturnedMore(s.returned, Return(i, s.readers[i].result), j);
      }
      hide DeliveredTo, Returned;
    }
  }

  lemma AdvanceFails(s: State, i: nat)
    requires Exclusive(s) && FailsOnShutdown(s) && i < |s.readers|
    ensures FailsOnShutdown(Advance(s, i))
  {
    TurnFollows(s.readers[i], s.queue, s.shutdown, s.holder.None?);
    hide NextTurn;
  }

  lemma AdvanceWakes(s: State, i: nat)
    requires Exclusive(s) && SignalComing(s) && i < |s.readers|
    ensures SignalComing(Advance(s, i))
  {
    TurnFollows(s.readers[i], s.queue, s.shutdown, s.holder.None?);
    hide NextTurn;
  }

  lemma ProduceKeeps(s: State, step: Step)
    requires Inv(s)
    ensures Inv(Produce(s, step))
  {
    hide Produce, Exclusive, InOrder, Honored, Bounded, FailsOnShutdown, NoneLeftBehind, SignalComing;
    ProduceHonored(s, step);
    ProduceExclusive(s, step);
    ProduceInOrder(s, step);
    ProduceBounded(s, step);
    ProduceFails(s, step);
    ProduceLeaves(s, step);
    ProduceWakes(s, step);
  }

  lemma AdvanceKeeps(s: State, i: nat)
    requires Inv(s) && i < |s.readers|
    ensures Inv(Advance(s, i))
  {
    hide Advance, Exclusive, InOrder, Honored, Bounded, FailsOnShutdown, NoneLeftBehind, SignalComing;
    AdvanceHonored(s, i);
    AdvanceExclusive(s, i);
    AdvanceLeaves(s, i);
    AdvanceFails(s, i);
    AdvanceInOrder(s, i);
    AdvanceWakes(s, i);
  }

  /** A caller outside the mutex stays outside. */
  lemma OutsideKeeps(s: State, i: nat, pc: ReaderPc)
    requires Inv(s) && i < |s.readers| && !ReaderInside(s.readers[i]) && !ReaderInside(pc)
    requires !pc.Sleeping? && (pc.Woken? ==> s.readers[i] == Sleeping(pc.mode))
    ensures Inv(Move(s, i, pc))
  {
    hide Reports;
  }

  lemma DoKeeps(s: State, step: Step)
    requires Inv(s)
    ensures Inv(Do(s, step))
  {
    hide Inv, Advance, Produce;
    match step
    case Call(i, mode) =>
      if i < |s.readers| && s.readers[i].Idle? {
        OutsideKeeps(s, i, WantsLock(mode));
      }
    case Go(i) =>
      if i < |s.readers| {
        AdvanceKeeps(s, i);
      }
    case Spurious(i) =>
      if i < |s.readers| && s.readers[i].Sleeping? {
        OutsideKeeps(s, i, Woken(s.readers[i].mode, false));
      }
    case Expire(i) =>
      if i < |s.readers| && s.readers[i].Sleeping? {
        OutsideKeeps(s, i, Woken(s.readers[i].mode, true));
      }
    case _ => ProduceKeeps(s, step);
  }

  /** Every interleaving of any number of callers. */
  lemma {:induction false} EveryRun(n: nat, steps: seq<Step>)
    ensures var s := Play(Init(n), steps);
            Inv(s) && |s.readers| == n
    decreases |steps|
  {
    hide Inv, Do;
    if steps == [] {
      InitInv(n);
    } else {
      var s := Play(Init(n), steps[..|steps| - 1]);
      EveryRun(n, steps[..|steps| - 1]);
      DoKeeps(s, steps[|steps| - 1]);
      SameReaders(s, steps[|steps| - 1]);
    }
  }

  /** The removals that are neither cuts of a full list nor part of closing the device. */
  function Kept(removed: seq<Removal>): seq<Report>
  {
    if removed == [] then []
    else
      var n := |removed| - 1;
      Kept(removed[..n]) + if removed[n].Delivered? then [removed[n].report] else []
  }

  lemma {:induction false} AllToOne(removed: seq<Removal>)
    requires forall k :: 0 <= k < |removed| && removed[k].Delivered? ==> removed[k].to == 0
    ensures DeliveredTo(removed, 0) == Kept(removed)
    decreases |removed|
  {
    if removed != [] {
      AllToOne(removed[..|removed| - 1]);
    }
  }

  /** A single caller gets the reports in the order of their arrival, all but those that were
      dropped or discarded or are still in the list. */
  lemma OneCaller(steps: seq<Step>)
    ensures var s := Play(Init(1), steps);
            && |s.readers| == 1
            && Returned(s.returned, 0) + Carried(s.readers[0]) == Kept(s.removed)
            && s.arrived == Reports(s.removed) + s.queue
  {
    hide Play, Do, Init;
    EveryRun(1, steps);
    AllToOne(Play(Init(1), steps).removed);
  }

  lemma SameReaders(s: State, step: Step)
    ensures |Do(s, step).readers| == |s.readers|
  {
    hide Advance, Produce;
    SameProduced(s, step);
    if step.Go? && step.i < |s.readers| {
      SameAdvanced(s, step.i);
    }
  }

  lemma SameProduced(s: State, step: Step)
    ensures |Produce(s, step).readers| == |s.readers|
  {
  }

  lemma SameAdvanced(s: State, i: nat)
    requires i < |s.readers|
    ensures |Advance(s, i).readers| == |s.readers|
  {
  }

  // ----- What not every run keeps ---------------------------------------------------

  lemma {:induction false} PlayConcat(s: State, a: seq<Step>, b: seq<Step>)
    ensures Play(s, a + b) == Play(Play(s, a), b)
    decreases |b|
  {
    hide Do;
    if b == [] {
      assert a + b == a;
    } else {
      assert (a + b)[..|a + b| - 1] == a + b[..|b| - 1];
      PlayConcat(s, a, b[..|b| - 1]);
    }
  }

  lemma PlayOne(s: State, step: Step)
    ensures Play(s, [step]) == Do(s, step)
  {
    assert [step][..0] == [];
    assert Play(s, []) == s;
  }

  lemma PlayFour(s: State, a: Step, b: Step, c: Step, d: Step)
    ensures Play(s, [a, b, c, d]) == Do(Do(Do(Do(s, a), b), c), d)
  {
    hide Do;
    PlayOne(s, a);
    PlayConcat(s, [a], [b]);
    PlayOne(Do(s, a), b);
    PlayConcat(s, [a] + [b], [c]);
    PlayOne(Do(Do(s, a), b), c);
    PlayConcat(s, [a] + [b] + [c], [d]);
    PlayOne(Do(Do(Do(s, a), b), c), d);
    assert [a] + [b] + [c] + [d] == [a, b, c, d];
  }

  /** What an undisturbed call comes to: the first report if there is one, even after a
      shutdown; failure after a shutdown; nothing if it only polls; and otherwise sleep. */
  lemma CallAlone(s: State, i: nat, mode: Mode)
    requires i < |s.readers| && s.readers[i].Idle? && s.holder.None?
    ensures var t := Play(s, [Call(i, mode), Go(i), Go(i), Go(i)]);
            if s.queue != [] then
              t == s.(queue := s.queue[1..], removed := s.removed + [Delivered(s.queue[0], i)],
                      returned := s.returned + [Return(i, Bytes(s.queue[0]))])
            else if s.shutdown then t == s.(returned := s.returned + [Return(i, Fail)])
            else if mode.Polling? then t == s.(returned := s.returned + [Return(i, Zero)])
            else t == Move(s, i, Sleeping(mode))
  {
    hide Do, Play;
    PlayFour(s, Call(i, mode), Go(i), Go(i), Go(i));
    Enters(s, i, mode);
    var s2 := Move(s, i, Entered(mode)).(holder := Some(Reader(i)));
    EnteredGoes(s2, i, mode);
    assert Move(s2, i, Idle).readers == s.readers;
    assert Move(s2, i, Sleeping(mode)).readers == Move(s, i, Sleeping(mode)).readers;
  }

  lemma Enters(s: State, i: nat, mode: Mode)
    requires i < |s.readers| && s.readers[i].Idle? && s.holder.None?
    ensures Do(Do(s, Call(i, mode)), Go(i)) == Move(s, i, Entered(mode)).(holder := Some(Reader(i)))
  {
    hide Produce;
    assert Do(s, Call(i, mode)) == Move(s, i, WantsLock(mode));
  }

  lemma EnteredGoes(s: State, i: nat, mode: Mode)
    requires i < |s.readers| && s.readers[i] == Entered(mode) && s.holder == Some(Reader(i))
    ensures var t, gone := Do(Do(s, Go(i)), Go(i)), Move(s, i, Idle).(holder := None);
            if s.queue != [] then
              t == gone.(queue := s.queue[1..], removed := s.removed + [Delivered(s.queue[0], i)],
                         returned := s.returned + [Return(i, Bytes(s.queue[0]))])
            else if s.shutdown then t == gone.(returned := s.returned + [Return(i, Fail)])
            else if mode.Polling? then t == gone.(returned := s.returned + [Return(i, Zero)])
            else t == Move(s, i, Sleeping(mode)).(holder := None)
  {
    hide Produce;
    var s1 := Do(s, Go(i));
    if s.queue != [] {
      assert s1 == Move(s, i, Leaving(mode, Bytes(s.queue[0]))).(
                     queue := s.queue[1..], removed := s.removed + [Delivered(s.queue[0], i)]);
    } else if s.shutdown {
      assert s1 == Move(s, i, Leaving(mode, Fail));
    } else if mode.Polling? {
      assert s1 == Move(s, i, Leaving(mode, Zero));
    } else {
      assert s1 == Move(s, i, Testing(mode));
    }
  }

  /** A timed call whose time is up comes back with nothing, even if there is a report by then. */
  lemma TimesOut(s: State, i: nat)
    requires i < |s.readers| && s.readers[i] == Sleeping(Timed) && s.holder.None?
    ensures Play(s, [Expire(i), Go(i), Go(i), Go(i)])
         == Move(s, i, Idle).(returned := s.returned + [Return(i, Zero)])
  {
    hide Do, Play;
    PlayFour(s, Expire(i), Go(i), Go(i), Go(i));
    Expires(s, i);
    var s2 := Move(s, i, Back(Timed, true)).(holder := Some(Reader(i)));
    ExpiredGoes(s2, i);
    assert Move(s2, i, Idle).readers == Move(s, i, Idle).readers;
  }

  lemma Expires(s: State, i: nat)
    requires i < |s.readers| && s.readers[i] == Sleeping(Timed) && s.holder.None?
    ensures Do(Do(s, Expire(i)), Go(i)) == Move(s, i, Back(Timed, true)).(holder := Some(Reader(i)))
  {
    hide Produce;
    assert Do(s, Expire(i)) == Move(s, i, Woken(Timed, true));
  }

  lemma ExpiredGoes(s: State, i: nat)
    requires i < |s.readers| && s.readers[i] == Back(Timed, true)
    ensures Do(Do(s, Go(i)), Go(i)) == Move(s, i, Idle).(holder := None, returned := s.returned + [Return(i, Zero)])
  {
    hide Produce;
    assert Do(s, Go(i)) == Move(s, i, Leaving(Timed, Zero));
  }

  /** The reading thread leaves the callback. */
  lemma Settles(s: State)
    requires s.producer.Releasing?
    ensures Play(s, [Release] + [Resubmit(true)]) == s.(producer := Listening, holder := None)
  {
    PlayConcat(s, [Release], [Resubmit(true)]);
    PlayOne(s, Release);
    PlayOne(Do(s, Release), Resubmit(true));
  }

  /** A report arrives at an empty list and wakes caller `i`. */
  lemma FirstArrives(s: State, r: Report, i: nat)
    requires i < |s.readers| && s.readers[i] == Sleeping(Blocking)
    requires s.producer.Listening? && s.holder.None? && s.queue == [] && !s.shutdown
    ensures Play(s, [Arrive(r), LockForReport, Attach, Signal({i})] + ([Release] + [Resubmit(true)]))
         == Move(s, i, Woken(Blocking, false)).(queue := [r], arrived := s.arrived + [r])
  {
    PlayConcat(s, [Arrive(r), LockForReport, Attach, Signal({i})], [Release] + [Resubmit(true)]);
    PlayFour(s, Arrive(r), LockForReport, Attach, Signal({i}));
    var s3 := s.(queue := [r], arrived := s.arrived + [r], producer := Signalling, holder := Some(Producer));
    AttachesFirst(s, r);
    assert Wake(s.readers, {i}) == s.readers[i := Woken(Blocking, false)];
    assert s.readers[i].Sleeping? && i in {i};
    assert Do(s3, Signal({i})) == Move(s3, i, Woken(Blocking, false)).(producer := Releasing);
    hide Do, Play;
    Settles(Do(s3, Signal({i})));
  }

  lemma AttachesFirst(s: State, r: Report)
    requires s.producer.Listening? && s.holder.None? && s.queue == []
    ensures Do(Do(Do(s, Arrive(r)), LockForReport), Attach)
         == s.(queue := [r], arrived := s.arrived + [r], producer := Signalling, holder := Some(Producer))
  {
  }

  /** Another report arrives: the list is not empty, so nobody is woken. */
  lemma SecondArrives(s: State, r: Report)
    requires s.producer.Listening? && s.holder.None? && |s.queue| == 1 && !s.shutdown
    ensures Play(s, [Arrive(r)] + [LockForReport] + [Attach] + ([Release] + [Resubmit(true)]))
         == s.(queue := s.queue + [r], arrived := s.arrived + [r])
  {
    hide Play;
    var s1 := s.(producer := Got(r));
    PlayOne(s, Arrive(r));
    var s2 := s.(producer := Attaching(r), holder := Some(Producer));
    PlayConcat(s, [Arrive(r)], [LockForReport]);
    PlayOne(s1, LockForReport);
    var s3 := s2.(queue := s.queue + [r], arrived := s.arrived + [r], producer := Releasing);
    PlayConcat(s, [Arrive(r)] + [LockForReport], [Attach]);
    PlayOne(s2, Attach);
    assert Do(s2, Attach) == s3;
    PlayConcat(s, [Arrive(r)] + [LockForReport] + [Attach], [Release] + [Resubmit(true)]);
    Settles(s3);
  }

  /** A woken caller takes the first report and goes. */
  lemma TakesAndGoes(s: State, i: nat)
    requires i < |s.readers| && s.readers[i] == Woken(Blocking, false) && s.holder.None? && s.queue != []
    ensures Play(s, [Go(i), Go(i), Go(i), Go(i)])
         == Move(s, i, Idle).(queue := s.queue[1..], removed := s.removed + [Delivered(s.queue[0], i)],
                              returned := s.returned + [Return(i, Bytes(s.queue[0]))])
  {
    hide Produce, Play;
    PlayFour(s, Go(i), Go(i), Go(i), Go(i));
    var s1 := Do(s, Go(i));
    assert s1 == Move(s, i, Back(Blocking, false)).(holder := Some(Reader(i)));
    var s2 := Do(s1, Go(i));
    assert s2 == Move(s, i, Testing(Blocking)).(holder := Some(Reader(i)));
    TestsAndGoes(s2, i);
    assert Move(s2, i, Idle).readers == Move(s, i, Idle).readers;
  }

  lemma TestsAndGoes(s: State, i: nat)
    requires i < |s.readers| && s.readers[i] == Testing(Blocking) && s.queue != []
    ensures Do(Do(s, Go(i)), Go(i))
         == Move(s, i, Idle).(holder := None, queue := s.queue[1..], removed := s.removed + [Delivered(s.queue[0], i)],
                              returned := s.returned + [Return(i, Bytes(s.queue[0]))])
  {
    hide Produce;
    var s3 := Do(s, Go(i));
    assert s3 == Move(s, i, Leaving(Blocking, Bytes(s.queue[0]))).(
                   queue := s.queue[1..], removed := s.removed + [Delivered(s.queue[0], i)]);
  }

  /** A caller sleeps beside a report, and nobody is there to wake it: no signal is coming,
      and every other caller is out. */
  ghost predicate Stuck(s: State)
  {
    && s.queue != [] && s.producer.Listening? && s.holder.None?
    && exists i: nat :: i < |s.readers| && s.readers[i].Sleeping? && OthersOut(s, i)
  }

  ghost predicate OthersOut(s: State, i: nat)
  {
    forall j: nat :: j < |s.readers| && j != i ==> s.readers[j].Idle?
  }

  lemma TwoGetStuck(n: nat) returns (steps: seq<Step>)
    requires n >= 2
    ensures Stuck(Play(Init(n), steps))
  {
    hide Do, Play;
    var s0 := Init(n);
    var a := [Call(0, Blocking), Go(0), Go(0), Go(0)];
    PlayNothing(s0);
    CallAlone(s0, 0, Blocking);
    var s1 := Move(s0, 0, Sleeping(Blocking));
    var b := [Call(1, Blocking), Go(1), Go(1), Go(1)];
    CallAlone(s1, 1, Blocking);
    var s2 := Move(s1, 1, Sleeping(Blocking));
    PlayConcat(s0, a, b);
    var c := [Arrive([1]), LockForReport, Attach, Signal({0})] + ([Release] + [Resubmit(true)]);
    FirstArrives(s2, [1], 0);
    var s3 := Move(s2, 0, Woken(Blocking, false)).(queue := [[1]], arrived := s2.arrived + [[1]]);
    PlayConcat(s0, a + b, c);
    var d := [Arrive([2])] + [LockForReport] + [Attach] + ([Release] + [Resubmit(true)]);
    SecondArrives(s3, [2]);
    var s4 := s3.(queue := s3.queue + [[2]], arrived := s3.arrived + [[2]]);
    PlayConcat(s0, a + b + c, d);
    var e := [Go(0), Go(0), Go(0), Go(0)];
    TakesAndGoes(s4, 0);
    PlayConcat(s0, a + b + c + d, e);
    steps := a + b + c + d + e;
    var s5 := Move(s4, 0, Idle).(queue := s4.queue[1..], removed := s4.removed + [Delivered(s4.queue[0], 0)],
                                 returned := s4.returned + [Return(0, Bytes(s4.queue[0]))]);
    assert Play(s0, steps) == s5;
    assert s5.readers[1].Sleeping? && OthersOut(s5, 1);
  }

  lemma PlayNothing(s: State)
    ensures Play(s, []) == s
  {
  }

  /** A wakeup can be lost exactly when there is more than one caller. */
  lemma LosesWakeupsIff(n: nat)
    ensures (exists steps :: Stuck(Play(Init(n), steps))) <==> n >= 2
  {
    if n >= 2 {
      var steps := TwoGetStuck(n);
    } else {
      forall steps
        ensures !Stuck(Play(Init(n), steps))
      {
        EveryRun(n, steps);
      }
    }
  }

  /** A caller is asleep and the reading thread, which alone signals, has ended. */
  ghost predicate LeftBehind(s: State, i: nat)
  {
    i < |s.readers| && s.readers[i].Sleeping? && s.producer.Ended?
  }

  /** Steps that caller `i` has before it sleeps on an empty list, or takes a report. */
  function Distance(pc: ReaderPc): nat
  {
    match pc
    case Sleeping(_) => 0
    case Testing(_) => 1
    case Entered(mode) => if mode.Polling? then 6 else 2
    case WantsLock(mode) => if mode.Polling? then 7 else 3
    case Idle => 4
    case Leaving(_, _) => 5
    case Back(_, _) => 6
    case Woken(_, _) => 7
  }

  /** After the end, with no shutdown, and nobody else in the way. */
  ghost predicate Alone(s: State, i: nat)
  {
    && Inv(s) && i < |s.readers| && s.producer.Ended? && !s.shutdown
    && (s.holder.None? || s.holder == Some(Reader(i)))
  }

  function NextStep(s: State, i: nat): Step
  {
    if At(s, i).Idle? then Call(i, Blocking) else Go(i)
  }

  /** Another step of caller `i`, which empties the list on its way to sleep. */
  lemma Approaches(s: State, i: nat)
    requires Alone(s, i) && !s.readers[i].Sleeping?
    ensures var t := Do(s, NextStep(s, i));
            && Alone(t, i)
            && (|t.queue| < |s.queue| || (t.queue == s.queue && Distance(t.readers[i]) < Distance(s.readers[i])))
  {
    hide Produce;
    DoKeeps(s, NextStep(s, i));
    hide InOrder, Honored, Bounded, NoneLeftBehind, SignalComing;
  }

  lemma {:induction false} GetsToSleep(s: State, i: nat) returns (steps: seq<Step>)
    requires Alone(s, i)
    ensures LeftBehind(Play(s, steps), i)
    decreases |s.queue|, Distance(At(s, i))
  {
    hide Do, Inv;
    PlayNothing(s);
    if s.readers[i].Sleeping? {
      steps := [];
    } else {
      var first := NextStep(s, i);
      Approaches(s, i);
      var rest := GetsToSleep(Do(s, first), i);
      PlayOne(s, first);
      PlayConcat(s, [first], rest);
      steps := [first] + rest;
    }
  }

  /** Steps that a caller inside the mutex has before it is out. */
  function ToTheDoor(pc: ReaderPc): nat
  {
    match pc
    case Entered(_) => 3
    case Back(_, _) => 3
    case Testing(_) => 2
    case Leaving(_, _) => 1
    case _ => 0
  }

  lemma MovesOut(s: State, j: nat)
    requires Inv(s) && s.producer.Ended? && !s.shutdown && s.holder == Some(Reader(j))
    ensures j < |s.readers|
    ensures var t := Do(s, Go(j));
            && Inv(t) && t.producer.Ended? && !t.shutdown && |t.readers| == |s.readers|
            && (t.holder.None? || (t.holder == Some(Reader(j)) && ToTheDoor(At(t, j)) < ToTheDoor(At(s, j))))
  {
    DoKeeps(s, Go(j));
    hide InOrder, Honored, Bounded, NoneLeftBehind, SignalComing, FailsOnShutdown;
  }

  /** Whoever has the mutex gives it back. */
  lemma {:induction false} MutexFreed(s: State) returns (steps: seq<Step>)
    requires Inv(s) && s.producer.Ended? && !s.shutdown
    ensures var t := Play(s, steps);
            Inv(t) && t.producer.Ended? && !t.shutdown && t.holder.None? && |t.readers| == |s.readers|
    decreases if s.holder.Some? && s.holder.value.Reader? then 1 + ToTheDoor(At(s, s.holder.value.i)) else 0
  {
    PlayNothing(s);
    EndedHolder(s);
    hide Do, Inv, Play;
    if s.holder.None? {
      steps := [];
    } else {
      var j := s.holder.value.i;
      MovesOut(s, j);
      var rest := MutexFreed(Do(s, Go(j)));
      PlayOne(s, Go(j));
      PlayConcat(s, [Go(j)], rest);
      steps := [Go(j)] + rest;
    }
  }

  lemma EndedHolder(s: State)
    requires Inv(s) && s.producer.Ended?
    ensures s.holder.Some? ==> s.holder.value.Reader?
  {
  }

  /** After the end and a shutdown nobody falls asleep any more. */
  lemma {:induction false} StaysAwake(s: State, steps: seq<Step>, i: nat)
    requires s.producer.Ended? && s.shutdown && i < |s.readers| && !s.readers[i].Sleeping?
    ensures var t := Play(s, steps);
            t.producer.Ended? && t.shutdown && |t.readers| == |s.readers| && !t.readers[i].Sleeping?
    decreases |steps|
  {
    hide Do;
    if steps != [] {
      StaysAwake(s, steps[..|steps| - 1], i);
      StaysAwakeStep(Play(s, steps[..|steps| - 1]), steps[|steps| - 1], i);
    }
  }

  lemma StaysAwakeStep(s: State, step: Step, i: nat)
    requires s.producer.Ended? && s.shutdown && i < |s.readers| && !s.readers[i].Sleeping?
    ensures var t := Do(s, step);
            t.producer.Ended? && t.shutdown && |t.readers| == |s.readers| && !t.readers[i].Sleeping?
  {
    if step.Go? && step.i < |s.readers| {
      TurnFollows(s.readers[step.i], s.queue, s.shutdown, s.holder.None?);
      hide NextTurn;
    }
  }

  /** For every run that has ended the reading thread, by whatever steps and with whatever
      callers: a caller can come to be left behind if and only if it is asleep already or
      there has been no shutdown. Either means that the thread ended on an error of the event
      loop, and then there is no cure but a shutdown before the caller sleeps. */
  lemma LeftBehindIff(n: nat, before: seq<Step>, i: nat)
    requires i < n && Play(Init(n), before).producer.Ended?
    ensures var s := Play(Init(n), before);
            && |s.readers| == n
            && ((exists after :: LeftBehind(Play(s, after), i)) <==> s.readers[i].Sleeping? || !s.shutdown)
            && (s.readers[i].Sleeping? || !s.shutdown ==> s.failed)
  {
    hide Do;
    EveryRun(n, before);
    var s := Play(Init(n), before);
    PlayNothing(s);
    hide Play;
    if s.readers[i].Sleeping? {
      assert LeftBehind(Play(s, []), i);
    } else if !s.shutdown {
      var out := MutexFreed(s);
      var sleep := GetsToSleep(Play(s, out), i);
      PlayConcat(s, out, sleep);
      assert LeftBehind(Play(s, out + sleep), i);
    } else {
      forall after
        ensures !LeftBehind(Play(s, after), i)
      {
        StaysAwake(s, after, i);
      }
    }
  }

  /** Such a run exists: an error at the very start. */
  lemma FailureLeavesBehind(n: nat) returns (steps: seq<Step>)
    requires n >= 1
    ensures LeftBehind(Play(Init(n), steps), 0) && !Play(Init(n), steps).shutdown
  {
    hide Play;
    var s0 := Init(n);
    var a := [LeaveLoop(true), LockForBroadcast, Broadcast, End];
    PlayFour(s0, LeaveLoop(true), LockForBroadcast, Broadcast, End);
    var s1 := s0.(left := true, failed := true, producer := Ended);
    assert WakeAll(s0.readers) == s0.readers;
    assert Play(s0, a) == s1;
    var b := [Call(0, Blocking), Go(0), Go(0), Go(0)];
    CallAlone(s1, 0, Blocking);
    PlayConcat(s0, a, b);
    steps := a + b;
  }
}
