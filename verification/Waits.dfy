/**
  wait(): pybricks/tools/pb_module_tools.c.

  Deadlines are kept in the wrapping 32-bit millisecond clock. The proofs compare them with real
  time, an unbounded count of milliseconds that the code never sees.
 */
module Waits {
  import opened Common
  import opened Async
  import Protocol = AsyncProtocol

  const U32: nat := 0x1_0000_0000

  /** UINT32_MAX / 2, which is one less than 2^31. */
  const HALF: nat := 0x7FFF_FFFF

  /** pbio_util_time_has_passed on two readings of the wrapping clock. */
  predicate HasPassed(sample: int, base: int) {
    (sample - base) % U32 < HALF
  }

  /** The protothread of a wait; `clock(k)` is the real time of its k-th poll. */
  function WaitIterOnce(clock: nat -> nat): IterOnce {
    (k: nat, state: int, parent: int) => (if HasPassed(clock(k) % U32, state) then Success else Again, state)
  }

  /** mp_const_none, the parent of every wait. */
  const NO_PARENT: int := -1

  function WaitConfig(time: int, now: nat, clock: nat -> nat): Config {
    Config(NO_PARENT, if time == 0 then None else Some(WaitIterOnce(clock)), false, None,
           (now % U32 + time % U32) % U32)
  }

  // ---------- The pool ----------

  class Tools {
    const runtime: Runtime
    const waits: array<Handle>

    ghost predicate Valid()
      reads this, waits
    {
      && waits.Length == Protocol.POOL
      && (forall i, j | 0 <= i < j < waits.Length :: waits[i] != waits[j])
    }

    constructor ()
      ensures Valid() && fresh(runtime) && fresh(waits) && !runtime.runLoopActive && waits.Length == 6
      ensures forall i | 0 <= i < waits.Length :: fresh(waits[i]) && waits[i].Contents() == ZEROED
    {
      runtime := new Runtime();
      var first := new Handle.Zeroed();
      waits := new Handle[Protocol.POOL](_ => first);
      new;
      for n := 1 to waits.Length
        invariant forall i | 0 <= i < waits.Length :: fresh(waits[i]) && waits[i].Contents() == ZEROED
        invariant forall i, j | 0 <= i < j < n :: waits[i] != waits[j]
        invariant !runtime.runLoopActive
      {
        waits[n] := new Handle.Zeroed();
      }
    }

    /** The contents of the pool handles, in order. */
    ghost function Heap(): (h: seq<View>)
      requires Valid()
      reads this, waits, waits[..]
      ensures |h| == Protocol.POOL
    {
      seq(waits.Length, i requires 0 <= i < waits.Length reads this, waits, waits[..] => waits[i].Contents())
    }

    /** The first free handle of the pool; empty if all are taken. */
    ghost function Reusable(): (r: set<Handle>)
      reads this, waits, waits[..]
    {
      set i | 0 <= i < waits.Length && waits[i].parent.Null? && (forall j | 0 <= j < i :: !waits[j].parent.Null?) :: waits[i]
    }

    /** The search for a static handle that can be used again, agreeing with the search of the whole-run machine. */
    method FindFree() returns (reuse: Handle?)
      requires Valid()
      ensures Reusable() == if reuse == null then {} else {reuse}
      ensures reuse != null ==> reuse in waits[..] && reuse.parent.Null?
      ensures match Protocol.FirstFree(Heap(), 0) case None => reuse == null case Some(i) => reuse == waits[i]
    {
      reuse := null;
      var i := 0;
      while i < waits.Length
        invariant i <= waits.Length && reuse == null
        invariant forall j | 0 <= j < i :: !waits[j].parent.Null?
      {
        if waits[i].parent.Null? {
          reuse := waits[i];
          break;
        }
        i := i + 1;
      }
      assert forall j | 0 <= j < waits.Length :: Heap()[j].parent == waits[j].parent;
    }

    /**
      Starts a wait. It lands in the first free handle of the pool, and in new memory when there is
      none; nothing else changes.
     */
    method Wait(time: int, now: nat, clock: nat -> nat) returns (r: Awaited)
      requires Valid()
      modifies if runtime.runLoopActive then Reusable() else {}
      ensures !runtime.runLoopActive ==> r == Completed(PyNone)
      ensures runtime.runLoopActive ==>
                && r.Awaitable? && r.handle.Contents() == Armed(WaitConfig(time, now, clock))
                && (if old(Reusable()) == {} then fresh(r.handle) else r.handle in old(Reusable()))
    {
      if !runtime.runLoopActive {
        return Completed(PyNone);
      }
      var reuse := new Slot();
      reuse.iter := FindFree();
      r := runtime.WaitOrAwait(WaitConfig(time, now, clock), reuse, false, 0);
    }
  }

  // ---------- Real time ----------

  lemma {:induction false} ModShift(a: int, k: int)
    ensures (a + k * U32) % U32 == a % U32
  {
    var q, r := a / U32, a % U32;
    assert a + k * U32 == (q + k) * U32 + r;
  }

  lemma WrappedDifference(a: int, b: int)
    ensures (a % U32 - b % U32) % U32 == (a - b) % U32
  {
    ModShift(a % U32 - b % U32, a / U32 - b / U32);
  }

  /** The deadline in the clock is the wrapped sum, also for negative times. */
  lemma DeadlineWraps(time: int, now: nat, clock: nat -> nat)
    ensures WaitConfig(time, now, clock).state == (now + time) % U32
  {
    ModShift(now % U32 + time % U32, now / U32 + time / U32);
  }

  /** The poll at real time t finds the wait over, said in real time. */
  lemma PassedInRealTime(t: nat, deadline: int)
    ensures HasPassed(t % U32, deadline % U32) <==> (t - deadline) % U32 < HALF
  {
    WrappedDifference(t, deadline);
  }

  /**
    The longest safe wait. No poll between start and deadline finds the wait over if and only if
    the duration is at most 2^31 + 1 milliseconds, wherever the clock wraps meanwhile.
   */
  lemma NeverEarlyIffShort(start: nat, time: nat)
    ensures (forall t: nat | start <= t < start + time :: !HasPassed(t % U32, (start + time) % U32))
            <==> time <= HALF + 2
  {
    if time <= HALF + 2 {
      forall t: nat | start <= t < start + time
        ensures !HasPassed(t % U32, (start + time) % U32)
      {
        PassedInRealTime(t, start + time);
        ModShift(t - (start + time), 1);
      }
    } else {
      var early := start + (if time < U32 then 0 else time % U32);
      PassedInRealTime(early, start + time);
      ModShift(early - (start + time), if time < U32 then 1 else time / U32);
      assert HasPassed(early % U32, (start + time) % U32);
    }
  }

  /** Polls that are not too late find it over: a wait is not missed by up to 2^31 - 2 milliseconds. */
  lemma PassedAfterDeadline(t: nat, deadline: nat)
    requires deadline <= t < deadline + HALF
    ensures HasPassed(t % U32, deadline % U32)
  {
    PassedInRealTime(t, deadline);
  }

  lemma {:induction false} WaitKeepsDeadline(time: int, now: nat, clock: nat -> nat, k: nat)
    requires time != 0
    ensures StateAt(WaitConfig(time, now, clock), k) == (now + time) % U32
    ensures AnswerAt(WaitConfig(time, now, clock), k) ==
            if HasPassed(clock(k) % U32, (now + time) % U32) then Success else Again
  {
    DeadlineWraps(time, now, clock);
    if k > 0 {
      WaitKeepsDeadline(time, now, clock, k - 1);
    }
  }

  /**
    A wait from start to finish, driven by any polls at or after its start. It yields at polls
    0 to n - 1 and stops at poll n, without a value, exactly when n is the first poll that finds the
    deadline passed. That poll is never early, and the deadline it carries never changed.
   */
  lemma WaitFromStartToFinish(time: nat, start: nat, clock: nat -> nat, n: nat)
    requires 0 < time <= HALF + 2
    requires forall k :: start <= clock(k)
    requires HasPassed(clock(n) % U32, (start + time) % U32)
    requires forall k | 0 <= k < n :: !HasPassed(clock(k) % U32, (start + time) % U32)
    ensures var v := Armed(WaitConfig(time, start, clock));
            && (forall k | 0 <= k < n :: Next(Iterated(v, k)).1 == Yielded)
            && Next(Iterated(v, n)).1 == Stopped(None)
            && Iterated(v, n + 1).parent == Null
            && (forall k | 0 <= k <= n :: Iterated(v, k).state == (start + time) % U32)
    ensures start + time <= clock(n)
    ensures forall k | 0 <= k < n :: !(start + time <= clock(k) < start + time + HALF)
  {
    var c := WaitConfig(time, start, clock);
    forall k | 0 <= k <= n
      ensures AnswerAt(c, k) == if k < n then Again else Success
      ensures StateAt(c, k) == (start + time) % U32
    {
      WaitKeepsDeadline(time, start, clock, k);
    }
    AwaitingRefinesBlocking(c, n);
    forall k | 0 <= k <= n
      ensures Iterated(Armed(c), k).state == (start + time) % U32
    {
      WhileAgain(c, n, k);
    }
    NeverEarlyIffShort(start, time);
    forall k | 0 <= k < n
      ensures !(start + time <= clock(k) < start + time + HALF)
    {
      if start + time <= clock(k) < start + time + HALF {
        PassedAfterDeadline(clock(k), start + time);
      }
    }
  }

  /** wait(0) yields exactly once and never looks at the clock. */
  lemma ZeroWaitYieldsOnce(now: nat, clock: nat -> nat)
    ensures var v := Armed(WaitConfig(0, now, clock));
            && Next(v).1 == Yielded
            && Next(Iterated(v, 1)).1 == Stopped(None)
            && Iterated(v, 2).parent == Null && Iterated(v, 2).calls == []
  {
    var v := Armed(WaitConfig(0, now, clock));
    assert Iterated(v, 0) == v;
    assert Iterated(v, 1) == Next(v).0;
    assert Iterated(v, 2) == Next(Iterated(v, 1)).0;
  }

  /**
    Overlapping waits, over every run of the whole runtime. A wait that is live keeps the deadline
    that it was started with, though pool handles are used again all the time.
   */
  lemma LiveWaitsKeepDeadlines(resources: nat, es: seq<Protocol.Event>, s: Protocol.System, h: nat,
                               time: int, now: nat, clock: nat -> nat)
    requires s == Protocol.Run(resources, es)
    requires h < |s.heap| == |s.armedBy| && s.heap[h].parent.Object?
    requires s.armedBy[h].Some? && s.armedBy[h].value < |s.started|
    requires s.started[s.armedBy[h].value] == WaitConfig(time, now, clock)
    ensures s.heap[h].state == (now + time) % U32
  {
    Protocol.LiveOperationsAreIsolated(resources, es);
    DeadlineWraps(time, now, clock);
    WaitStateFixed(WaitConfig(time, now, clock), clock, Protocol.Steps(s.log, s.armedBy[h].value));
  }

  lemma {:induction false} WaitStateFixed(c: Config, clock: nat -> nat, k: nat)
    requires c.iterOnce == None || c.iterOnce == Some(WaitIterOnce(clock))
    ensures Iterated(Armed(c), k).state == c.state
    ensures Iterated(Armed(c), k).iterOnce == c.iterOnce
  {
    if k > 0 {
      WaitStateFixed(c, clock, k - 1);
    }
  }
}
