/**
  wait_until() as one operation among others: pybricks/iodevices/pb_type_uart_device.c on top of
  pybricks/tools/pb_type_async.c.

  The device refuses a wait while its recorded pattern length is not zero, and only the return map
  of a wait sets it back. A wait shares its awaitable with read(), which stops what was there before.
 */
module UartWaits {
  import opened Common
  import opened Async
  import Protocol = AsyncProtocol
  import Uart

  /** The resource that holds the awaitable of read() and wait_until(). */
  const READ: nat := 0

  /** Waits are tokens: those accepted, and those whose return map has run. */
  datatype Device = Device(sys: Protocol.System, waitLen: nat, accepted: set<nat>, completed: set<nat>)

  /** A call of wait_until(), or anything else: read(), other resources, iterations and closes. */
  datatype Event = WaitUntil(pattern: seq<byte>, poll: IterOnce) | Other(e: Protocol.Event)

  function WaitConfig(poll: IterOnce): Config {
    Config(0, Some(poll), false, Some(_ => PyNone), 0)
  }

  predicate Accepts(d: Device, pattern: seq<byte>) {
    Uart.WaitAnswer(d.waitLen, pattern, 0).Ok?
  }

  function Accepted(pattern: seq<byte>, poll: IterOnce): Protocol.Event {
    Protocol.Start(Protocol.InSlot(READ, true), WaitConfig(poll))
  }

  /** The operation that this event brings to its normal end. */
  function Finished(s: Protocol.System, e: Protocol.Event): Option<nat> {
    if e.Iterate? && e.token < |s.issued| && s.issued[e.token] < |s.heap| == |s.armedBy| then
      var h := s.issued[e.token];
      if s.heap[h].parent.Object? && Next(s.heap[h]).1.Stopped? then s.armedBy[h] else None
    else None
  }

  function Exec(d: Device, e: Event): Device {
    match e
    case WaitUntil(pattern, poll) =>
      if Accepts(d, pattern)
      then Device(Protocol.Exec(d.sys, Accepted(pattern, poll)), |pattern|, d.accepted + {|d.sys.issued|}, d.completed)
      else d
    case Other(e) =>
      var finished := Finished(d.sys, e);
      var next := d.(sys := Protocol.Exec(d.sys, e));
      if finished.Some? && finished.value in d.accepted
      then next.(waitLen := 0, completed := d.completed + {finished.value})
      else next
  }

  function Run(resources: nat, es: seq<Event>): Device {
    if es == [] then Device(Protocol.Initial(resources), 0, {}, {})
    else Exec(Run(resources, es[..|es| - 1]), es[|es| - 1])
  }

  // ---------- The steps are those of the awaitable runtime ----------

  /** The step of the runtime in a step of the device, if any. */
  function Steps(d: Device, e: Event): seq<Protocol.Event> {
    match e
    case Other(e) => [e]
    case WaitUntil(pattern, poll) => if Accepts(d, pattern) then [Accepted(pattern, poll)] else []
  }

  function Trace(resources: nat, es: seq<Event>): seq<Protocol.Event> {
    if es == [] then []
    else Trace(resources, es[..|es| - 1]) + Steps(Run(resources, es[..|es| - 1]), es[|es| - 1])
  }

  lemma StepsFollow(resources: nat, trace: seq<Protocol.Event>, d: Device, e: Event)
    requires d.sys == Protocol.Run(resources, trace)
    ensures Exec(d, e).sys == Protocol.Run(resources, trace + Steps(d, e))
  {
    if Steps(d, e) == [] {
      assert trace + [] == trace;
    } else {
      Protocol.RunExtends(resources, trace, Steps(d, e)[0]);
    }
  }

  lemma {:induction false} RunsFollowProtocol(resources: nat, es: seq<Event>)
    ensures Run(resources, es).sys == Protocol.Run(resources, Trace(resources, es))
  {
    if es != [] {
      var before := es[..|es| - 1];
      RunsFollowProtocol(resources, before);
      StepsFollow(resources, Trace(resources, before), Run(resources, before), es[|es| - 1]);
    }
  }

  // ---------- When a wait is accepted ----------

  /** The operation of this token can never call its protothread again. */
  ghost predicate Dead(s: Protocol.System, t: nat) {
    && t < |s.issued| && s.issued[t] < |s.heap| == |s.armedBy|
    && !(s.heap[s.issued[t]].parent.Object? && s.armedBy[s.issued[t]] == Some(t))
  }

  lemma ArmKeepsDead(s: Protocol.System, candidate: Option<nat>, c: Config, t: nat)
    requires Protocol.Shaped(s) && Dead(s, t)
    ensures Dead(Protocol.Arm(s, candidate, c).0, t)
  {
  }

  lemma StepKeepsDead(s: Protocol.System, e: Protocol.Event, t: nat)
    requires Protocol.Shaped(s) && Protocol.Owned(s) && Dead(s, t)
    ensures Dead(Protocol.Exec(s, e), t)
  {
    if e.Start? {
      var prepared := Protocol.Prepared(s, e.place);
      assert Protocol.Shaped(prepared) && Dead(prepared, t);
      ArmKeepsDead(prepared, Protocol.Candidate(s, e.place), e.config, t);
    }
  }

  ghost predicate Consistent(d: Device) {
    && Protocol.Shaped(d.sys) && Protocol.Owned(d.sys)
    && (forall t | t in d.accepted :: t < |d.sys.issued|)
    && (forall t | t in d.completed :: t in d.accepted && Dead(d.sys, t))
    && (d.waitLen == 0 <==> d.accepted == d.completed)
    && (forall t, u | t in d.accepted && u in d.accepted && t !in d.completed && u !in d.completed :: t == u)
  }

  lemma FinishedIsDead(s: Protocol.System, e: Protocol.Event)
    requires Protocol.Shaped(s) && Finished(s, e).Some?
    ensures !Dead(s, Finished(s, e).value) && Dead(Protocol.Exec(s, e), Finished(s, e).value)
  {
  }

  lemma WaitKeepsConsistent(d: Device, pattern: seq<byte>, poll: IterOnce)
    requires Consistent(d)
    ensures Consistent(Exec(d, WaitUntil(pattern, poll)))
  {
    if Accepts(d, pattern) {
      var start := Accepted(pattern, poll);
      Protocol.StepKeepsShape(d.sys, start);
      forall t | t in d.completed ensures Dead(Protocol.Exec(d.sys, start), t) {
        StepKeepsDead(d.sys, start, t);
      }
      assert |d.sys.issued| !in d.completed;
    }
  }

  lemma OtherKeepsConsistent(d: Device, e: Protocol.Event)
    requires Consistent(d)
    ensures Consistent(Exec(d, Other(e)))
  {
    Protocol.StepKeepsShape(d.sys, e);
    forall t | t in d.completed ensures Dead(Protocol.Exec(d.sys, e), t) {
      StepKeepsDead(d.sys, e, t);
    }
    var finished := Finished(d.sys, e);
    if finished.Some? && finished.value in d.accepted {
      FinishedIsDead(d.sys, e);
      assert d.accepted == d.completed + {finished.value};
    }
  }

  lemma {:induction false} RunsStayConsistent(resources: nat, es: seq<Event>)
    ensures Consistent(Run(resources, es))
  {
    if es == [] {
      Protocol.RunsKeepShape(resources, []);
    } else {
      var before := es[..|es| - 1];
      RunsStayConsistent(resources, before);
      match es[|es| - 1]
      case WaitUntil(pattern, poll) => WaitKeepsConsistent(Run(resources, before), pattern, poll);
      case Other(e) => OtherKeepsConsistent(Run(resources, before), e);
    }
  }

  /**
    In every run, wait_until() is accepted exactly if the pattern is not empty and the return map of
    every wait accepted before has run.
   */
  lemma AcceptedIffAllCompleted(resources: nat, es: seq<Event>, pattern: seq<byte>)
    ensures var d := Run(resources, es);
            Accepts(d, pattern) <==> pattern != [] && forall t | t in d.accepted :: t in d.completed
  {
    RunsStayConsistent(resources, es);
    var d := Run(resources, es);
    assert (forall t | t in d.accepted :: t in d.completed) ==> d.accepted == d.completed;
  }

  // ---------- Lost waits ----------

  /** A wait that was accepted, has not completed, and never can. */
  ghost predicate Lost(d: Device, t: nat) {
    t in d.accepted && t !in d.completed && Dead(d.sys, t)
  }

  lemma {:induction false} LostForEver(resources: nat, es: seq<Event>, more: seq<Event>, t: nat)
    requires Lost(Run(resources, es), t)
    ensures Lost(Run(resources, es + more), t)
  {
    if more == [] {
      assert es + more == es;
    } else {
      var before, last := more[..|more| - 1], more[|more| - 1];
      LostForEver(resources, es, before, t);
      StepKeepsLost(resources, es + before, last, t);
      RunAppends(resources, es, more);
    }
  }

  lemma RunAppends(resources: nat, es: seq<Event>, more: seq<Event>)
    requires more != []
    ensures Run(resources, es + more) == Exec(Run(resources, es + more[..|more| - 1]), more[|more| - 1])
  {
    AppendedLast(es, more);
  }

  lemma AppendedLast(es: seq<Event>, more: seq<Event>)
    requires more != []
    ensures var all := es + more;
            all != [] && all[..|all| - 1] == es + more[..|more| - 1] && all[|all| - 1] == more[|more| - 1]
  {
  }

  lemma StepKeepsLost(resources: nat, es: seq<Event>, e: Event, t: nat)
    requires Lost(Run(resources, es), t)
    ensures Lost(Exec(Run(resources, es), e), t)
  {
    var d := Run(resources, es);
    RunsStayConsistent(resources, es);
    match e
    case WaitUntil(pattern, poll) => StepKeepsDead(d.sys, Accepted(pattern, poll), t);
    case Other(e) =>
      StepKeepsDead(d.sys, e, t);
      if Finished(d.sys, e).Some? {
        FinishedIsDead(d.sys, e);
      }
  }

  /** Once a wait is lost, the device refuses every later wait, whatever happens. */
  lemma LostWaitRefusesForEver(resources: nat, es: seq<Event>, more: seq<Event>, t: nat, pattern: seq<byte>)
    requires Lost(Run(resources, es), t)
    ensures !Accepts(Run(resources, es + more), pattern)
  {
    LostForEver(resources, es, more, t);
    AcceptedIffAllCompleted(resources, es + more, pattern);
  }

  /** As the source does, everything that uses the awaitable of read() stops what was there before. */
  ghost predicate ReadsStopPrevious(es: seq<Event>) {
    es != [] ==>
      var last := es[|es| - 1];
      && ReadsStopPrevious(es[..|es| - 1])
      && (last.Other? && last.e.Start? && last.e.place.InSlot? && last.e.place.slot == READ ==> last.e.place.stopPrev)
  }

  lemma {:induction false} TraceStopsPrevious(resources: nat, es: seq<Event>)
    requires ReadsStopPrevious(es)
    ensures Protocol.AlwaysStopsPrevious(Trace(resources, es), READ)
  {
    if es != [] {
      TraceStopsPrevious(resources, es[..|es| - 1]);
    }
  }

  lemma {:induction false} WaitsAreAttached(resources: nat, es: seq<Event>)
    requires READ < resources
    ensures var d := Run(resources, es);
            |d.sys.slots| == |d.sys.attached| == resources
    ensures var d := Run(resources, es);
            forall t | t in d.accepted :: t < |d.sys.issued| && d.sys.issued[t] in d.sys.attached[READ]
  {
    if es != [] {
      var before := es[..|es| - 1];
      WaitsAreAttached(resources, before);
      RunsStayConsistent(resources, before);
      StepKeepsAttached(Run(resources, before), es[|es| - 1]);
    }
  }

  lemma StepKeepsAttached(d: Device, e: Event)
    requires Consistent(d) && READ < |d.sys.slots| == |d.sys.attached|
    requires forall t | t in d.accepted :: d.sys.issued[t] in d.sys.attached[READ]
    ensures var d' := Exec(d, e);
            && |d'.sys.slots| == |d'.sys.attached| == |d.sys.slots|
            && forall t | t in d'.accepted :: t < |d'.sys.issued| && d'.sys.issued[t] in d'.sys.attached[READ]
  {
    match e
    case WaitUntil(pattern, poll) => AttachedGrows(d.sys, Accepted(pattern, poll));
    case Other(e) => AttachedGrows(d.sys, e);
  }

  lemma AttachedGrows(s: Protocol.System, e: Protocol.Event)
    requires READ < |s.slots| == |s.attached|
    ensures var s' := Protocol.Exec(s, e);
            && |s'.slots| == |s'.attached| == |s.slots| && s.issued <= s'.issued
            && s.attached[READ] <= s'.attached[READ]
            && (e.Start? && e.place.InSlot? && e.place.slot == READ ==>
                  |s'.issued| == |s.issued| + 1 && s'.issued[|s.issued|] in s'.attached[READ])
  {
  }

  lemma LiveWaitIsInSlot(resources: nat, es: seq<Event>, t: nat)
    requires READ < resources && ReadsStopPrevious(es) && t in Run(resources, es).accepted
    ensures var s := Run(resources, es).sys;
            && READ < |s.slots| && t < |s.issued| && s.issued[t] < |s.heap|
            && (s.heap[s.issued[t]].parent.Object? ==> s.slots[READ] == Some(s.issued[t]))
  {
    WaitsAreAttached(resources, es);
    TraceStopsPrevious(resources, es);
    RunsFollowProtocol(resources, es);
    Protocol.NewOperationWins(resources, Trace(resources, es), READ);
  }

  /** A read() stops the wait that is under way, and its end is never reported to the device. */
  lemma ReadLosesWait(resources: nat, es: seq<Event>, t: nat, c: Config)
    requires READ < resources && ReadsStopPrevious(es)
    requires t in Run(resources, es).accepted && t !in Run(resources, es).completed
    ensures Lost(Run(resources, es + [Other(Protocol.Start(Protocol.InSlot(READ, true), c))]), t)
  {
    var read := Other(Protocol.Start(Protocol.InSlot(READ, true), c));
    assert (es + [read])[..|es|] == es;
    RunsStayConsistent(resources, es);
    LiveWaitIsInSlot(resources, es, t);
    StoppedIsDead(Run(resources, es).sys, t, c);
    assert Finished(Run(resources, es).sys, read.e).None?;
  }

  lemma StoppedIsDead(s: Protocol.System, t: nat, c: Config)
    requires Protocol.Shaped(s) && Protocol.Owned(s) && READ < |s.slots| && t < |s.issued|
    requires s.heap[s.issued[t]].parent.Object? ==> s.slots[READ] == Some(s.issued[t])
    ensures Dead(Protocol.Exec(s, Protocol.Start(Protocol.InSlot(READ, true), c)), t)
  {
    var place := Protocol.InSlot(READ, true);
    if Dead(s, t) {
      StepKeepsDead(s, Protocol.Start(place, c), t);
    } else {
      var prepared := Protocol.Prepared(s, place);
      assert prepared.heap[s.issued[t]].parent == Sentinel;
      ArmKeepsDead(prepared, s.slots[READ], c, t);
    }
  }

  /** So does closing it. */
  lemma CloseLosesWait(resources: nat, es: seq<Event>, t: nat)
    requires t in Run(resources, es).accepted && t !in Run(resources, es).completed
    ensures Lost(Run(resources, es + [Other(Protocol.Close(t))]), t)
  {
    assert (es + [Other(Protocol.Close(t))])[..|es|] == es;
    RunsStayConsistent(resources, es);
  }
}
