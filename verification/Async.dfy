/**
  Awaitable handles: pybricks/tools/pb_type_async.c.

  A handle is a recycled object. Its parent pointer tells its life cycle: an object while the
  operation is live, a sentinel once it is scheduled to stop, null when it may be used again.
  The protothread behind a handle is a driver we cannot see. It is an arbitrary function of the
  number of the call, the protothread state and the parent, so a proof covers every sequence of
  answers that the outside world may produce.
 */
module Async {
  import opened Common

  datatype Parent = Null | Sentinel | Object(id: int)

  datatype Answer = Again | Success | Failure(code: int)

  type IterOnce = (nat, int, int) -> (Answer, int)

  /** One call of a protothread: what it was given and what it answered. */
  datatype Call = Call(state: int, parent: int, answer: Answer)

  datatype Config = Config(parent: int, iterOnce: Option<IterOnce>, hasClose: bool,
                           returnMap: Option<int -> Value>, state: int)

  /** The contents of a handle, with the calls and close hooks made since it was armed. */
  datatype View = View(parent: Parent, iterOnce: Option<IterOnce>, hasClose: bool,
                       returnMap: Option<int -> Value>, state: int,
                       calls: seq<Call>, closes: nat)

  /** What one iteration reports; `arg` is the argument of StopIteration, if it has one. */
  datatype Outcome = Yielded | Stopped(arg: Option<Value>) | Raised(code: int)

  // ---------- Specification of the operations on one handle ----------

  function Armed(c: Config): View {
    View(Object(c.parent), c.iterOnce, c.hasClose, c.returnMap, c.state, [], 0)
  }

  const ZEROED: View := View(Null, None, false, None, 0, [], 0)

  function Scheduled(v: View): View {
    if v.parent.Null? then v else v.(parent := Sentinel)
  }

  function Closed(v: View): View {
    v.(parent := Null, closes := if v.hasClose && !v.parent.Null? then v.closes + 1 else v.closes)
  }

  function Mapped(mapping: Option<int -> Value>, parent: int): Option<Value> {
    if mapping.Some? then Some(mapping.value(parent)) else None
  }

  function Next(v: View): (View, Outcome) {
    if !v.parent.Object? then
      (v.(parent := Null), Stopped(None))
    else if v.iterOnce.None? then
      (v.(parent := Sentinel), Yielded)
    else
      var (answer, state) := v.iterOnce.value(|v.calls|, v.state, v.parent.id);
      var w := v.(state := state, calls := v.calls + [Call(v.state, v.parent.id, answer)]);
      match answer
      case Again => (w, Yielded)
      case Failure(code) => (w, Raised(code))
      case Success => (w.(parent := Null), Stopped(Mapped(v.returnMap, v.parent.id)))
  }

  // ---------- The handle object ----------

  class Handle {
    var parent: Parent
    var iterOnce: Option<IterOnce>
    var hasClose: bool
    var returnMap: Option<int -> Value>
    var state: int
    // History, for the proofs only; it never influences what the handle does except through the
    // call number that is passed to the driver.
    var calls: seq<Call>
    var closes: nat

    ghost function Contents(): View
      reads this
    {
      View(parent, iterOnce, hasClose, returnMap, state, calls, closes)
    }

    /** Static memory before first use. */
    constructor Zeroed()
      ensures Contents() == ZEROED
    {
      parent, iterOnce, hasClose, returnMap, state, calls, closes := Null, None, false, None, 0, [], 0;
    }

    constructor (c: Config)
      ensures Contents() == Armed(c)
    {
      parent, iterOnce, hasClose := Object(c.parent), c.iterOnce, c.hasClose;
      returnMap, state, calls, closes := c.returnMap, c.state, [], 0;
    }

    method Assign(c: Config)
      modifies this
      ensures Contents() == Armed(c)
    {
      parent, iterOnce, hasClose := Object(c.parent), c.iterOnce, c.hasClose;
      returnMap, state, calls, closes := c.returnMap, c.state, [], 0;
    }

    method ScheduleStopIteration()
      modifies this
      ensures Contents() == Scheduled(old(Contents()))
    {
      if parent.Null? {
        return;
      }
      parent := Sentinel;
    }

    method Close()
      modifies this
      ensures Contents() == Closed(old(Contents()))
    {
      if hasClose && !parent.Null? {
        closes := closes + 1;
      }
      parent := Null;
    }

    method Iternext() returns (r: Outcome)
      modifies this
      ensures (Contents(), r) == Next(old(Contents()))
    {
      if parent.Sentinel? || parent.Null? {
        parent := Null;
        return Stopped(None);
      }
      if iterOnce.None? {
        ScheduleStopIteration();
        return Yielded;
      }
      var (answer, newState) := iterOnce.value(|calls|, state, parent.id);
      calls := calls + [Call(state, parent.id, answer)];
      state := newState;
      match answer {
        case Again => return Yielded;
        case Failure(code) => return Raised(code);
        case Success =>
      }
      r := Stopped(if returnMap.Some? then Some(returnMap.value(parent.id)) else None);
      parent := Null;
    }
  }

  /** A resource's pointer to the awaitable it used last. */
  class Slot {
    var iter: Handle?

    constructor ()
      ensures iter == null
    {
      iter := null;
    }
  }

  // ---------- Blocking runs, and runs of the event loop ----------

  /** The protothread state at its k-th call, when every earlier call answered Again. */
  function StateAt(c: Config, k: nat): int
    requires c.iterOnce.Some?
  {
    if k == 0 then c.state else c.iterOnce.value(k - 1, StateAt(c, k - 1), c.parent).1
  }

  function AnswerAt(c: Config, k: nat): Answer
    requires c.iterOnce.Some?
  {
    c.iterOnce.value(k, StateAt(c, k), c.parent).0
  }

  function CallsUpTo(c: Config, k: nat): seq<Call>
    requires c.iterOnce.Some?
  {
    if k == 0 then [] else CallsUpTo(c, k - 1) + [Call(StateAt(c, k - 1), c.parent, AnswerAt(c, k - 1))]
  }

  /** The first call that does not answer Again is call number n. */
  ghost predicate FinishesAt(c: Config, n: nat) {
    && c.iterOnce.Some?
    && (forall k | 0 <= k < n :: AnswerAt(c, k) == Again)
    && AnswerAt(c, n) != Again
  }

  /** The awaited form: the outcome of the i-th iteration of a handle and what it leaves. */
  function Iterated(v: View, i: nat): View {
    if i == 0 then v else Next(Iterated(v, i - 1)).0
  }

  lemma {:induction false} WhileAgain(c: Config, n: nat, i: nat)
    requires FinishesAt(c, n) && i <= n
    ensures Iterated(Armed(c), i) == Armed(c).(state := StateAt(c, i), calls := CallsUpTo(c, i))
    ensures |CallsUpTo(c, i)| == i
  {
    if i > 0 {
      WhileAgain(c, n, i - 1);
      assert AnswerAt(c, i - 1) == Again;
    }
  }

  /** A handle that is iterated i times and closed is free, and its hook has fired if there is one. */
  lemma ClosedAlive(c: Config, n: nat, i: nat)
    requires FinishesAt(c, n) && i <= n
    ensures var v := Closed(Iterated(Armed(c), i));
            && v.parent == Null && v.closes == (if c.hasClose then 1 else 0) && v.calls == CallsUpTo(c, i)
            && Closed(v) == v && Next(v) == (v, Stopped(None))
    ensures Closed(Scheduled(Iterated(Armed(c), i))) == Closed(Iterated(Armed(c), i))
  {
    WhileAgain(c, n, i);
  }

  /** A handle that is free or scheduled to stop ends at its next iteration, without a call or a value. */
  lemma EndsWithoutCall(v: View)
    requires !v.parent.Object?
    ensures Next(v).1 == Stopped(None) && Next(v).0 == v.(parent := Null)
  {
  }

  /**
    Awaiting refines blocking. Iterating a handle yields exactly while the blocking loop would
    have gone on waiting, ends with the same value or error, and by then has made the same calls on
    the same states in the same order. After a normal end the handle is free.
   */
  lemma {:induction false} AwaitingRefinesBlocking(c: Config, n: nat)
    requires FinishesAt(c, n)
    ensures forall i | 0 <= i < n :: Next(Iterated(Armed(c), i)).1 == Yielded
    ensures AnswerAt(c, n).Failure? ==> Next(Iterated(Armed(c), n)).1 == Raised(AnswerAt(c, n).code)
    ensures AnswerAt(c, n).Success? && c.returnMap.None? ==> Next(Iterated(Armed(c), n)).1 == Stopped(None)
    ensures AnswerAt(c, n).Success? && c.returnMap.Some? ==>
              Next(Iterated(Armed(c), n)).1 == Stopped(Some(c.returnMap.value(c.parent)))
    ensures Iterated(Armed(c), n + 1) ==
            Armed(c).(parent := if AnswerAt(c, n).Success? then Null else Object(c.parent),
                      state := StateAt(c, n + 1), calls := CallsUpTo(c, n + 1))
  {
    forall i | 0 <= i <= n
      ensures i < n ==> Next(Iterated(Armed(c), i)).1 == Yielded
    {
      WhileAgain(c, n, i);
      if i < n { assert AnswerAt(c, i) == Again; }
    }
    WhileAgain(c, n, n);
  }

  /** What a caller gets; `Waiting` stands for a call that has not returned when we stop looking. */
  datatype Awaited = Awaitable(handle: Handle) | Completed(value: Value) | Failed(error: Error) | Waiting

  /** The first so many calls all answer Again. */
  ghost predicate StillAgain(c: Config, polls: nat)
    requires c.iterOnce.Some?
  {
    forall k | 0 <= k < polls :: AnswerAt(c, k) == Again
  }

  lemma FinishesOnce(c: Config, k: nat)
    requires FinishesAt(c, k)
    ensures forall n: nat | FinishesAt(c, n) :: n == k
  {
  }

  // ---------- The run loop ----------

  /** What iteration i of a handle reports. */
  function OutcomeAt(v: View, i: nat): Outcome {
    Next(Iterated(v, i)).1
  }

  /**
    The run loop over a handle goes on after iteration i. An exception may be pending after each
    iteration.
   */
  predicate GoesOn(v: View, pending: nat -> Option<Error>, i: nat) {
    OutcomeAt(v, i).Yielded? && pending(i).None?
  }

  /** It ends with iteration n. */
  ghost predicate LoopEndsAt(v: View, pending: nat -> Option<Error>, n: nat) {
    !GoesOn(v, pending, n) && forall i | 0 <= i < n :: GoesOn(v, pending, i)
  }

  /** It ends exactly where an iteration does not yield, or an exception is pending after it. */
  lemma LoopEndsExactly(v: View, pending: nat -> Option<Error>, n: nat)
    ensures LoopEndsAt(v, pending, n) <==>
            && (OutcomeAt(v, n).Yielded? ==> pending(n).Some?)
            && forall i | 0 <= i < n :: OutcomeAt(v, i).Yielded? && pending(i).None?
  {
    if forall i | 0 <= i < n :: OutcomeAt(v, i).Yielded? && pending(i).None? {
      forall i | 0 <= i < n ensures GoesOn(v, pending, i) {
        assert OutcomeAt(v, i).Yielded?;
      }
    }
    if LoopEndsAt(v, pending, n) {
      forall i | 0 <= i < n ensures OutcomeAt(v, i).Yielded? && pending(i).None? {
        assert GoesOn(v, pending, i);
      }
    }
  }

  lemma LoopEndsOnce(v: View, pending: nat -> Option<Error>, i: nat)
    requires LoopEndsAt(v, pending, i)
    ensures forall n: nat | LoopEndsAt(v, pending, n) :: n == i
  {
  }

  /** Without exceptions the loop over an awaitable makes the calls that blocking would make, and ends when it would. */
  lemma LoopOverAwaitable(c: Config, n: nat, pending: nat -> Option<Error>)
    requires FinishesAt(c, n) && forall i | 0 <= i < n :: pending(i).None?
    ensures LoopEndsAt(Armed(c), pending, n) && Iterated(Armed(c), n + 1).calls == CallsUpTo(c, n + 1)
    ensures OutcomeAt(Armed(c), n).Raised? <==> AnswerAt(c, n).Failure?
  {
    AwaitingRefinesBlocking(c, n);
  }

  class Runtime {
    var runLoopActive: bool

    constructor ()
      ensures !runLoopActive
    {
      runLoopActive := false;
    }

    /**
      The blocking branch, looked at for so many polls, with the calls it makes. It returns the mapped
      value or raises the error with which awaiting the operation ends.
     */
    method WaitForCompletion(c: Config, polls: nat) returns (r: Awaited, calls: seq<Call>)
      requires c.iterOnce.Some?
      ensures StillAgain(c, polls) ==> r == Waiting && calls == CallsUpTo(c, polls)
      ensures forall n | 0 <= n < polls && FinishesAt(c, n) ::
                && calls == CallsUpTo(c, n + 1)
                && (AnswerAt(c, n).Failure? ==> r == Failed(Pbio(AnswerAt(c, n).code)))
                && (AnswerAt(c, n).Success? && c.returnMap.Some? ==> r == Completed(c.returnMap.value(c.parent)))
                && (AnswerAt(c, n).Success? && c.returnMap.None? ==> r == Completed(PyNone))
      ensures forall n | 0 <= n < polls && FinishesAt(c, n) ::
                var awaited := Next(Iterated(Armed(c), n)).1;
                && (awaited.Raised? ==> r == Failed(Pbio(awaited.code)))
                && (awaited.Stopped? && awaited.arg.Some? ==> r == Completed(awaited.arg.value))
                && (awaited.Stopped? && awaited.arg.None? ==> r == Completed(PyNone))
      ensures r.Waiting? ==> StillAgain(c, polls)
    {
      var state := c.state;
      calls := [];
      for k := 0 to polls
        invariant state == StateAt(c, k) && calls == CallsUpTo(c, k) && |calls| == k
        invariant StillAgain(c, k)
      {
        var (answer, next) := c.iterOnce.value(|calls|, state, c.parent);
        assert answer == AnswerAt(c, k);
        calls := calls + [Call(state, c.parent, answer)];
        state := next;
        if answer != Again {
          FinishesOnce(c, k);
          AwaitingRefinesBlocking(c, k);
        }
        match answer {
          case Again =>
          case Failure(code) => return Failed(Pbio(code)), calls;
          case Success => return if c.returnMap.Some? then Completed(c.returnMap.value(c.parent)) else Completed(PyNone), calls;
        }
      }
      r := Waiting;
    }

    /**
      Either hands out an awaitable or waits here and now. With the run loop active, the handle in
      the slot is used again exactly if it was free, and otherwise a new one takes its place. Waiting
      is looked at for so many polls.
     */
    method WaitOrAwait(c: Config, prev: Slot?, stopPrev: bool, polls: nat) returns (r: Awaited)
      requires !runLoopActive ==> c.iterOnce.Some?
      modifies prev, if prev != null then {prev.iter} else {}
      ensures runLoopActive ==>
                && r.Awaitable?
                && r.handle.Contents() == Armed(c)
                && (prev != null ==> prev.iter == r.handle)
                && (if prev != null && old(prev.iter) != null && old(prev.iter.parent).Null?
                    then r.handle == old(prev.iter)
                    else fresh(r.handle))
      ensures runLoopActive && prev != null && old(prev.iter) != null && !old(prev.iter.parent).Null? ==>
                old(prev.iter).Contents() ==
                if stopPrev then Scheduled(old(prev.iter.Contents())) else old(prev.iter.Contents())
      ensures !runLoopActive ==> r.Waiting? == StillAgain(c, polls)
      ensures !runLoopActive ==>
                forall n | 0 <= n < polls && FinishesAt(c, n) ::
                  && (AnswerAt(c, n).Failure? ==> r == Failed(Pbio(AnswerAt(c, n).code)))
                  && (AnswerAt(c, n).Success? && c.returnMap.Some? ==> r == Completed(c.returnMap.value(c.parent)))
                  && (AnswerAt(c, n).Success? && c.returnMap.None? ==> r == Completed(PyNone))
      ensures !runLoopActive && prev != null ==> unchanged(prev) && (prev.iter != null ==> unchanged(prev.iter))
    {
      if runLoopActive {
        if prev != null && stopPrev && prev.iter != null {
          prev.iter.ScheduleStopIteration();
        }
        var iter: Handle;
        if prev != null && prev.iter != null && prev.iter.parent.Null? {
          iter := prev.iter;
          iter.Assign(c);
        } else {
          iter := new Handle(c);
        }
        if prev != null {
          prev.iter := iter;
        }
        return Awaitable(iter);
      }
      var calls;
      r, calls := WaitForCompletion(c, polls);
    }

    /**
      The run loop over one awaitable, as pb_module_tools_run_task drives it, looked at for so many
      iterations. On every way out the loop is no longer active.
     */
    method RunTask(h: Handle, pending: nat -> Option<Error>, rounds: nat) returns (r: Awaited)
      modifies this, h
      ensures old(runLoopActive) ==> r == Failed(RuntimeError) && runLoopActive && unchanged(h)
      ensures !old(runLoopActive) ==> (runLoopActive <==> r.Waiting?)
      ensures !old(runLoopActive) ==>
                (r.Waiting? <==> forall i | 0 <= i < rounds :: GoesOn(old(h.Contents()), pending, i))
      ensures !old(runLoopActive) && r.Waiting? ==> h.Contents() == Iterated(old(h.Contents()), rounds)
      ensures !old(runLoopActive) ==>
                forall n | 0 <= n < rounds && LoopEndsAt(old(h.Contents()), pending, n) ::
                  && h.Contents() == Iterated(old(h.Contents()), n + 1)
                  && var last := OutcomeAt(old(h.Contents()), n);
                     && (last.Yielded? && pending(n).Some? ==> r == Failed(pending(n).value))
                     && (last.Raised? ==> r == Failed(Pbio(last.code)))
                     && (last.Stopped? ==> r == Completed(PyNone))
    {
      if runLoopActive {
        return Failed(RuntimeError);
      }
      runLoopActive := true;
      r := Drive(h, pending, rounds);
      if !r.Waiting? {
        runLoopActive := false;
      }
    }

    /** The loop itself, up to the first iteration that does not yield or leaves an exception pending. */
    method Drive(h: Handle, pending: nat -> Option<Error>, rounds: nat) returns (r: Awaited)
      modifies h
      ensures r.Waiting? <==> forall i | 0 <= i < rounds :: GoesOn(old(h.Contents()), pending, i)
      ensures r.Waiting? ==> h.Contents() == Iterated(old(h.Contents()), rounds)
      ensures forall n | 0 <= n < rounds && LoopEndsAt(old(h.Contents()), pending, n) ::
                && h.Contents() == Iterated(old(h.Contents()), n + 1)
                && var last := OutcomeAt(old(h.Contents()), n);
                   && (last.Yielded? && pending(n).Some? ==> r == Failed(pending(n).value))
                   && (last.Raised? ==> r == Failed(Pbio(last.code)))
                   && (last.Stopped? ==> r == Completed(PyNone))
    {
      ghost var v := h.Contents();
      for i := 0 to rounds
        invariant h.Contents() == Iterated(v, i)
        invariant forall j | 0 <= j < i :: GoesOn(v, pending, j)
      {
        var next := h.Iternext();
        assert next == OutcomeAt(v, i);
        assert GoesOn(v, pending, i) <==> next.Yielded? && pending(i).None?;
        if !GoesOn(v, pending, i) {
          LoopEndsOnce(v, pending, i);
        }
        if !next.Yielded? {
          return if next.Raised? then Failed(Pbio(next.code)) else Completed(PyNone);
        }
        if pending(i).Some? {
          return Failed(pending(i).value);
        }
      }
      r := Waiting;
    }
  }
}
