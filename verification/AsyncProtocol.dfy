/**
  Whole runs of the awaitable runtime: many handles, many resources, many holders.

  Every operation started gets a token, which stands for the reference its starter was handed. A
  holder that keeps its reference forever keeps using the token forever, so runs in which a program
  misuses old references are runs of this machine too. Each step applies the very functions that
  the handle object of module Async is proved to compute.
 */
module AsyncProtocol {
  import opened Common
  import opened Async

  /** The number of statically allocated wait handles. */
  const POOL: nat := 6

  datatype Place = InSlot(slot: nat, stopPrev: bool) | InPool | Unattached

  datatype Event =
    | Start(place: Place, config: Config)
    | Cancel(slot: nat)
    | Iterate(token: nat)
    | Close(token: nat)

  /** `op` is the arming of the handle at the time, the operation that is really affected. */
  datatype Entry =
    | ArmedAs(handle: nat, token: nat)
    | Stepped(handle: nat, token: nat, op: Option<nat>)
    | Over(handle: nat, token: nat, op: Option<nat>)

  datatype System = System(heap: seq<View>, armedBy: seq<Option<nat>>,
                           issued: seq<nat>, started: seq<Config>, held: set<nat>,
                           slots: seq<Option<nat>>, attached: seq<set<nat>>, log: seq<Entry>)

  // ---------- Steps ----------

  function Initial(resources: nat): System {
    System(seq(POOL, _ => ZEROED), seq(POOL, _ => None), [], [], {},
           seq(resources, _ => None), seq(resources, _ => {}), [])
  }

  /** The first wait handle of the pool that is free. */
  function FirstFree(heap: seq<View>, from: nat): (r: Option<nat>)
    requires from <= POOL <= |heap|
    ensures r.Some? ==> from <= r.value < POOL && heap[r.value].parent.Null?
    ensures r.Some? ==> forall i | from <= i < r.value :: !heap[i].parent.Null?
    ensures r.None? ==> forall i | from <= i < POOL :: !heap[i].parent.Null?
    decreases POOL - from
  {
    if from == POOL then None
    else if heap[from].parent.Null? then Some(from)
    else FirstFree(heap, from + 1)
  }

  /** The handle offered for reuse. */
  function Candidate(s: System, place: Place): Option<nat> {
    match place
    case InSlot(i, _) => if i < |s.slots| then s.slots[i] else None
    case InPool => if POOL <= |s.heap| then FirstFree(s.heap, 0) else None
    case Unattached => None
  }

  function ScheduleIn(s: System, candidate: Option<nat>): System {
    if candidate.Some? && candidate.value < |s.heap|
    then s.(heap := s.heap[candidate.value := Scheduled(s.heap[candidate.value])])
    else s
  }

  function Arm(s: System, candidate: Option<nat>, c: Config): (System, nat) {
    var token := |s.issued|;
    var reuse := candidate.Some? && candidate.value < |s.heap| == |s.armedBy| && s.heap[candidate.value].parent.Null?;
    var h := if reuse then candidate.value else |s.heap|;
    (s.(heap := if reuse then s.heap[h := Armed(c)] else s.heap + [Armed(c)],
        armedBy := if reuse then s.armedBy[h := Some(token)] else s.armedBy + [Some(token)],
        issued := s.issued + [h],
        started := s.started + [c],
        held := s.held + {token},
        log := s.log + [ArmedAs(h, token)]), h)
  }

  function Attach(s: System, place: Place, h: nat): System {
    if place.InSlot? && place.slot < |s.slots| == |s.attached|
    then s.(slots := s.slots[place.slot := Some(h)],
            attached := s.attached[place.slot := s.attached[place.slot] + {h}])
    else s
  }

  /** The previous operation is stopped first, if that is asked for. */
  function Prepared(s: System, place: Place): System {
    if place.InSlot? && place.stopPrev then ScheduleIn(s, Candidate(s, place)) else s
  }

  function DoStart(s: System, place: Place, c: Config): System {
    var (armed, h) := Arm(Prepared(s, place), Candidate(s, place), c);
    Attach(armed, place, h)
  }

  function DoIterate(s: System, t: nat): System
    requires t < |s.issued| && s.issued[t] < |s.heap| == |s.armedBy|
  {
    var h := s.issued[t];
    var (v, outcome) := Next(s.heap[h]);
    var stepped, over := Stepped(h, t, s.armedBy[h]), Over(h, t, s.armedBy[h]);
    s.(heap := s.heap[h := v], held := if outcome.Stopped? then s.held - {t} else s.held,
       log := if !s.heap[h].parent.Object? then s.log + [over]
              else if outcome.Stopped? then s.log + [stepped] + [over]
              else s.log + [stepped])
  }

  function DoClose(s: System, t: nat): System
    requires t < |s.issued| && s.issued[t] < |s.heap| == |s.armedBy|
  {
    var h := s.issued[t];
    s.(heap := s.heap[h := Closed(s.heap[h])], held := s.held - {t}, log := s.log + [Over(h, t, s.armedBy[h])])
  }

  function Exec(s: System, e: Event): System {
    match e
    case Start(place, c) => DoStart(s, place, c)
    case Cancel(i) => ScheduleIn(s, if i < |s.slots| then s.slots[i] else None)
    case Iterate(t) => if t < |s.issued| && s.issued[t] < |s.heap| == |s.armedBy| then DoIterate(s, t) else s
    case Close(t) => if t < |s.issued| && s.issued[t] < |s.heap| == |s.armedBy| then DoClose(s, t) else s
  }

  function Run(resources: nat, es: seq<Event>): System {
    if es == [] then Initial(resources) else Exec(Run(resources, es[..|es| - 1]), es[|es| - 1])
  }

  // ---------- What every run keeps ----------

  ghost predicate Shaped(s: System) {
    && POOL <= |s.heap| == |s.armedBy|
    && (forall t | 0 <= t < |s.issued| :: s.issued[t] < |s.heap|)
    && (forall t | t in s.held :: t < |s.issued|)
    && (forall h | 0 <= h < |s.armedBy| && s.armedBy[h].Some? ::
          s.armedBy[h].value < |s.issued| && s.issued[s.armedBy[h].value] == h)
  }

  /** Slots own their handles: no handle was ever attached to two slots, and none is from the pool. */
  ghost predicate Owned(s: System) {
    && |s.slots| == |s.attached|
    && (forall i, h | 0 <= i < |s.attached| && h in s.attached[i] :: POOL <= h < |s.heap|)
    && (forall i | 0 <= i < |s.slots| && s.slots[i].Some? :: s.slots[i].value in s.attached[i])
    && (forall i, j, h | 0 <= i < j < |s.attached| && h in s.attached[i] :: h !in s.attached[j])
  }

  lemma {:induction false} RunsKeepShape(resources: nat, es: seq<Event>)
    ensures Shaped(Run(resources, es)) && Owned(Run(resources, es))
    ensures |Run(resources, es).slots| == resources
  {
    if es != [] {
      RunsKeepShape(resources, es[..|es| - 1]);
      StepKeepsShape(Run(resources, es[..|es| - 1]), es[|es| - 1]);
    }
  }

  lemma ArmKeepsShape(s: System, candidate: Option<nat>, c: Config)
    requires Shaped(s) && Owned(s)
    ensures Shaped(Arm(s, candidate, c).0) && Owned(Arm(s, candidate, c).0)
    ensures var (s', h) := Arm(s, candidate, c);
            h < |s'.heap| && (h == |s.heap| || candidate == Some(h)) && s'.attached == s.attached && s'.slots == s.slots
  {
  }

  lemma AttachKeepsShape(s: System, place: Place, h: nat)
    requires Shaped(s) && Owned(s) && h < |s.heap|
    requires place.InSlot? && place.slot < |s.slots| ==>
               POOL <= h && forall i | 0 <= i < |s.attached| && i != place.slot :: h !in s.attached[i]
    ensures Shaped(Attach(s, place, h)) && Owned(Attach(s, place, h)) && |Attach(s, place, h).slots| == |s.slots|
  {
  }

  lemma StartKeepsShape(s: System, place: Place, c: Config)
    requires Shaped(s) && Owned(s)
    ensures Shaped(DoStart(s, place, c)) && Owned(DoStart(s, place, c)) && |DoStart(s, place, c).slots| == |s.slots|
  {
    var candidate := Candidate(s, place);
    var (armed, h) := Arm(Prepared(s, place), candidate, c);
    ArmKeepsShape(Prepared(s, place), candidate, c);
    if place.InSlot? && place.slot < |s.slots| && candidate == Some(h) {
      assert h in s.attached[place.slot];
    }
    AttachKeepsShape(armed, place, h);
  }

  lemma StepKeepsShape(s: System, e: Event)
    requires Shaped(s) && Owned(s)
    ensures Shaped(Exec(s, e)) && Owned(Exec(s, e)) && |Exec(s, e).slots| == |s.slots|
  {
    if e.Start? {
      StartKeepsShape(s, e.place, e.config);
    }
  }

  // ---------- A handle is armed again only after its last operation was reported over ----------

  ghost predicate OverBetween(log: seq<Entry>, h: nat, i: int, j: int) {
    exists k :: i < k < j && 0 <= k < |log| && log[k].Over? && log[k].handle == h
  }

  ghost predicate Reported(log: seq<Entry>, h: nat) {
    forall i | 0 <= i < |log| && log[i].ArmedAs? && log[i].handle == h :: OverBetween(log, h, i, |log|)
  }

  ghost predicate Clean(log: seq<Entry>) {
    forall i, j | 0 <= i < j < |log| && log[i].ArmedAs? && log[j].ArmedAs? && log[i].handle == log[j].handle ::
      OverBetween(log, log[i].handle, i, j)
  }

  lemma LogGrows(log: seq<Entry>, e: Entry)
    requires Clean(log)
    requires e.ArmedAs? ==> Reported(log, e.handle)
    ensures Clean(log + [e])
    ensures forall h: nat | Reported(log, h) && !(e.ArmedAs? && e.handle == h) :: Reported(log + [e], h)
    ensures e.Over? ==> Reported(log + [e], e.handle)
  {
    var more := log + [e];
    forall i, j, h | 0 <= i < j <= |log| && OverBetween(log, h, i, j)
      ensures OverBetween(more, h, i, j) && OverBetween(more, h, i, |more|)
    {
      var k :| i < k < j && 0 <= k < |log| && log[k].Over? && log[k].handle == h;
      assert more[k] == log[k];
    }
    if e.Over? {
      assert more[|log|] == e;
    }
  }

  /** A free handle had its last operation reported over, whoever was told. */
  ghost predicate FreeIsReported(s: System) {
    && Clean(s.log)
    && (forall h | 0 <= h < |s.heap| && s.heap[h].parent.Null? :: Reported(s.log, h))
    && (forall i | 0 <= i < |s.log| :: s.log[i].handle < |s.heap|)
  }

  lemma ArmKeepsReports(s: System, candidate: Option<nat>, c: Config)
    requires Shaped(s) && FreeIsReported(s)
    ensures FreeIsReported(Arm(s, candidate, c).0)
  {
    var h := Arm(s, candidate, c).1;
    assert Reported(s.log, h);
    LogGrows(s.log, ArmedAs(h, |s.issued|));
  }

  lemma IterateKeepsReports(s: System, t: nat)
    requires Shaped(s) && FreeIsReported(s) && t < |s.issued|
    ensures FreeIsReported(DoIterate(s, t))
  {
    var h := s.issued[t];
    var stepped, over := Stepped(h, t, s.armedBy[h]), Over(h, t, s.armedBy[h]);
    if s.heap[h].parent.Object? {
      LogGrows(s.log, stepped);
      LogGrows(s.log + [stepped], over);
    } else {
      LogGrows(s.log, over);
    }
  }

  lemma StartKeepsReports(s: System, place: Place, c: Config)
    requires Shaped(s) && FreeIsReported(s)
    ensures FreeIsReported(DoStart(s, place, c))
  {
    assert Shaped(Prepared(s, place)) && FreeIsReported(Prepared(s, place));
    ArmKeepsReports(Prepared(s, place), Candidate(s, place), c);
  }

  lemma StepKeepsReports(s: System, e: Event)
    requires Shaped(s) && FreeIsReported(s)
    ensures FreeIsReported(Exec(s, e))
  {
    match e
    case Start(place, c) =>
      StartKeepsReports(s, place, c);
    case Cancel(i) =>
    case Iterate(t) =>
      if t < |s.issued| {
        IterateKeepsReports(s, t);
      }
    case Close(t) =>
      if t < |s.issued| {
        LogGrows(s.log, Over(s.issued[t], t, s.armedBy[s.issued[t]]));
      }
  }

  /**
    Reuse safety, over every run and every use of references: between two armings of one handle,
    an iteration or a close has reported the earlier one over.
   */
  lemma {:induction false} RearmedOnlyAfterOver(resources: nat, es: seq<Event>)
    ensures Clean(Run(resources, es).log)
    ensures FreeIsReported(Run(resources, es))
  {
    if es != [] {
      var before := es[..|es| - 1];
      RearmedOnlyAfterOver(resources, before);
      RunsKeepShape(resources, before);
      StepKeepsReports(Run(resources, before), es[|es| - 1]);
    }
  }

  // ---------- Exactly when nobody affects an operation of somebody else ----------

  /** All that was stepped or reported over was the operation of the reference used. */
  ghost predicate OwnOnly(log: seq<Entry>) {
    forall i | 0 <= i < |log| && !log[i].ArmedAs? :: log[i].op == Some(log[i].token)
  }

  /** No later start has handed the handle of this reference out again. */
  ghost predicate Newest(s: System, t: nat) {
    t < |s.issued| ==> forall u | t < u < |s.issued| :: s.issued[u] != s.issued[t]
  }

  ghost predicate UsesNewest(s: System, e: Event) {
    e.Iterate? || e.Close? ==> Newest(s, e.token)
  }

  ghost predicate AlwaysUsesNewest(resources: nat, es: seq<Event>) {
    forall k | 0 <= k < |es| :: UsesNewest(Run(resources, es[..k]), es[k])
  }

  /** A handle is in the hands of the newest reference to it. */
  ghost predicate ArmedByNewest(s: System) {
    && Shaped(s)
    && forall t | 0 <= t < |s.issued| :: s.armedBy[s.issued[t]] == Some(t) <==> Newest(s, t)
  }

  lemma ArmKeepsNewest(s: System, candidate: Option<nat>, c: Config)
    requires ArmedByNewest(s) && Owned(s)
    ensures ArmedByNewest(Arm(s, candidate, c).0)
  {
    var (s2, h) := Arm(s, candidate, c);
    ArmKeepsShape(s, candidate, c);
    forall t | 0 <= t < |s2.issued|
      ensures s2.armedBy[s2.issued[t]] == Some(t) <==> Newest(s2, t)
    {
      if t < |s.issued| && s.issued[t] == h {
        assert s2.issued[|s.issued|] == h;
      } else if t < |s.issued| {
        assert Newest(s2, t) <==> Newest(s, t) by {
          assert forall u | t < u < |s.issued| :: s2.issued[u] == s.issued[u];
        }
      }
    }
  }

  lemma SameReferences(s: System, s2: System)
    requires ArmedByNewest(s) && Shaped(s2) && s2.issued == s.issued && s2.armedBy == s.armedBy
    ensures ArmedByNewest(s2)
  {
    forall t | 0 <= t < |s.issued| ensures Newest(s2, t) <==> Newest(s, t) {}
  }

  lemma StartKeepsNewest(s: System, place: Place, c: Config)
    requires ArmedByNewest(s) && Owned(s)
    ensures ArmedByNewest(DoStart(s, place, c))
  {
    var prepared := Prepared(s, place);
    SameReferences(s, prepared);
    ArmKeepsNewest(prepared, Candidate(s, place), c);
    StartKeepsShape(s, place, c);
    SameReferences(Arm(prepared, Candidate(s, place), c).0, DoStart(s, place, c));
  }

  lemma StepKeepsNewest(s: System, e: Event)
    requires ArmedByNewest(s) && Owned(s)
    ensures ArmedByNewest(Exec(s, e))
  {
    if e.Start? {
      StartKeepsNewest(s, e.place, e.config);
    } else {
      StepKeepsShape(s, e);
      SameReferences(s, Exec(s, e));
    }
  }

  lemma {:induction false} RunsKeepNewest(resources: nat, es: seq<Event>)
    ensures ArmedByNewest(Run(resources, es))
  {
    RunsKeepShape(resources, es);
    if es != [] {
      RunsKeepShape(resources, es[..|es| - 1]);
      RunsKeepNewest(resources, es[..|es| - 1]);
      StepKeepsNewest(Run(resources, es[..|es| - 1]), es[|es| - 1]);
    }
  }

  lemma OwnOnlyExtends(log: seq<Entry>, e: Entry)
    ensures OwnOnly(log + [e]) <==> OwnOnly(log) && (e.ArmedAs? || e.op == Some(e.token))
  {
    var more := log + [e];
    assert more[|log|] == e;
    assert forall i | 0 <= i < |log| :: more[i] == log[i];
  }

  lemma StepIsOwnIff(s: System, e: Event)
    requires ArmedByNewest(s)
    ensures OwnOnly(Exec(s, e).log) <==> OwnOnly(s.log) && UsesNewest(s, e)
  {
    match e
    case Start(place, c) =>
      OwnOnlyExtends(s.log, ArmedAs(Arm(Prepared(s, place), Candidate(s, place), c).1, |s.issued|));
    case Cancel(i) =>
    case Iterate(t) =>
      if t < |s.issued| {
        var op := s.armedBy[s.issued[t]];
        var stepped, over := Stepped(s.issued[t], t, op), Over(s.issued[t], t, op);
        OwnOnlyExtends(s.log, stepped);
        OwnOnlyExtends(s.log, over);
        OwnOnlyExtends(s.log + [stepped], over);
      }
    case Close(t) =>
      if t < |s.issued| {
        OwnOnlyExtends(s.log, Over(s.issued[t], t, s.armedBy[s.issued[t]]));
      }
  }

  lemma UsesNewestSplits(resources: nat, es: seq<Event>)
    requires es != []
    ensures var n := |es| - 1;
            AlwaysUsesNewest(resources, es) <==>
              AlwaysUsesNewest(resources, es[..n]) && UsesNewest(Run(resources, es[..n]), es[n])
  {
    forall k | 0 <= k < |es| - 1
      ensures es[..|es| - 1][..k] == es[..k] && es[..|es| - 1][k] == es[k]
    {
    }
  }

  /**
    For every run: nobody ever steps or ends an operation of somebody else, exactly if each reference
    that is used is the newest one to its handle when it is used.
   */
  lemma {:induction false} OwnOnlyIffNewestUsed(resources: nat, es: seq<Event>)
    ensures OwnOnly(Run(resources, es).log) <==> AlwaysUsesNewest(resources, es)
  {
    if es != [] {
      var before := es[..|es| - 1];
      OwnOnlyIffNewestUsed(resources, before);
      RunsKeepNewest(resources, before);
      StepIsOwnIff(Run(resources, before), es[|es| - 1]);
      UsesNewestSplits(resources, es);
    }
  }

  // ---------- Holders that drop a reference when told that it is over ----------

  ghost predicate Disciplined(resources: nat, es: seq<Event>) {
    forall i | 0 <= i < |es| && (es[i].Iterate? || es[i].Close?) :: es[i].token in Run(resources, es[..i]).held
  }

  ghost predicate HeldIsCurrent(s: System) {
    forall t | t in s.held ::
          && t < |s.issued| && s.issued[t] < |s.heap| == |s.armedBy|
          && !s.heap[s.issued[t]].parent.Null?
          && s.armedBy[s.issued[t]] == Some(t)
  }

  lemma ArmKeepsHeldCurrent(s: System, candidate: Option<nat>, c: Config)
    requires Shaped(s) && HeldIsCurrent(s)
    ensures HeldIsCurrent(Arm(s, candidate, c).0)
  {
    var (s2, h) := Arm(s, candidate, c);
    forall t | t in s2.held
      ensures t < |s2.issued| && s2.issued[t] < |s2.heap| && !s2.heap[s2.issued[t]].parent.Null?
      ensures s2.armedBy[s2.issued[t]] == Some(t)
    {
      if t in s.held {
        assert s.issued[t] != h;
      }
    }
  }

  lemma UseKeepsHeldCurrent(s: System, t: nat)
    requires Shaped(s) && HeldIsCurrent(s) && t in s.held
    ensures HeldIsCurrent(DoIterate(s, t)) && HeldIsCurrent(DoClose(s, t))
  {
    forall u | u in s.held && u != t
      ensures s.issued[u] != s.issued[t]
    {
      assert s.armedBy[s.issued[u]] == Some(u);
    }
  }

  lemma StartKeepsHeldCurrent(s: System, place: Place, c: Config)
    requires Shaped(s) && HeldIsCurrent(s)
    ensures HeldIsCurrent(DoStart(s, place, c))
  {
    assert Shaped(Prepared(s, place)) && HeldIsCurrent(Prepared(s, place));
    ArmKeepsHeldCurrent(Prepared(s, place), Candidate(s, place), c);
  }

  lemma StepKeepsHeldCurrent(s: System, e: Event)
    requires Shaped(s) && HeldIsCurrent(s)
    requires (e.Iterate? || e.Close?) ==> e.token in s.held
    ensures HeldIsCurrent(Exec(s, e))
  {
    match e
    case Start(place, c) =>
      StartKeepsHeldCurrent(s, place, c);
    case Cancel(i) =>
    case Iterate(t) => UseKeepsHeldCurrent(s, t);
    case Close(t) => UseKeepsHeldCurrent(s, t);
  }

  lemma {:induction false} DisciplineKeepsHeldCurrent(resources: nat, es: seq<Event>)
    requires Disciplined(resources, es)
    ensures HeldIsCurrent(Run(resources, es))
    ensures AlwaysUsesNewest(resources, es)
  {
    if es != [] {
      var before := es[..|es| - 1];
      forall i | 0 <= i < |before| && (before[i].Iterate? || before[i].Close?)
        ensures before[i].token in Run(resources, before[..i]).held
      {
        assert before[..i] == es[..i] && before[i] == es[i];
      }
      DisciplineKeepsHeldCurrent(resources, before);
      RunsKeepShape(resources, before);
      StepKeepsHeldCurrent(Run(resources, before), es[|es| - 1]);
      RunsKeepNewest(resources, before);
      UsesNewestSplits(resources, es);
    }
  }

  /**
    In a disciplined run nobody ever steps or ends an operation that somebody else started, though
    others may cancel the operation at any time and its handle may be used again afterwards. And two
    operations that are still held never share a handle.
   */
  lemma {:induction false} HoldersTouchOnlyTheirOwn(resources: nat, es: seq<Event>)
    requires Disciplined(resources, es)
    ensures OwnOnly(Run(resources, es).log)
    ensures forall t, u | t in Run(resources, es).held && u in Run(resources, es).held && t != u ::
              t < |Run(resources, es).issued| && u < |Run(resources, es).issued| &&
              Run(resources, es).issued[t] != Run(resources, es).issued[u]
  {
    DisciplineKeepsHeldCurrent(resources, es);
    OwnOnlyIffNewestUsed(resources, es);
  }

  lemma RunExtends(resources: nat, es: seq<Event>, e: Event)
    ensures Run(resources, es + [e]) == Exec(Run(resources, es), e)
  {
    assert (es + [e])[..|es|] == es;
  }

  const YIELD_ONCE: Config := Config(0, None, false, None, 0)

  const START_IN_SLOT: Event := Start(InSlot(0, true), YIELD_ONCE)

  lemma StartYieldStop()
    ensures Run(1, [START_IN_SLOT, Iterate(0), Iterate(0)]).issued == [POOL]
    ensures Run(1, [START_IN_SLOT, Iterate(0), Iterate(0)]).held == {}
    ensures Run(1, [START_IN_SLOT, Iterate(0), Iterate(0)]).slots == [Some(POOL)]
    ensures |Run(1, [START_IN_SLOT, Iterate(0), Iterate(0)]).heap| == POOL + 1
    ensures |Run(1, [START_IN_SLOT, Iterate(0), Iterate(0)]).armedBy| == POOL + 1
    ensures Run(1, [START_IN_SLOT, Iterate(0), Iterate(0)]).heap[POOL].parent == Null
  {
    RunExtends(1, [], START_IN_SLOT);
    RunExtends(1, [START_IN_SLOT], Iterate(0));
    RunExtends(1, [START_IN_SLOT, Iterate(0)], Iterate(0));
    assert [] + [START_IN_SLOT] == [START_IN_SLOT];
    assert [START_IN_SLOT, Iterate(0)] + [Iterate(0)] == [START_IN_SLOT, Iterate(0), Iterate(0)];
    var s1 := Run(1, [START_IN_SLOT]);
    assert s1.issued == [POOL] && s1.held == {0} && s1.heap[POOL] == Armed(YIELD_ONCE);
    var s2 := Run(1, [START_IN_SLOT, Iterate(0)]);
    assert s2 == DoIterate(s1, 0) && s2.heap[POOL].parent == Sentinel;
  }

  lemma RestartAndStaleIterate(s: System)
    requires s.issued == [POOL] && s.held == {} && s.slots == [Some(POOL)]
    requires |s.heap| == |s.armedBy| == POOL + 1 && s.heap[POOL].parent == Null
    ensures 0 !in Exec(s, START_IN_SLOT).held
    ensures var log := Exec(Exec(s, START_IN_SLOT), Iterate(0)).log;
            |log| > 0 && log[|log| - 1] == Stepped(POOL, 0, Some(1))
  {
    var s4 := Exec(s, START_IN_SLOT);
    assert s4.issued == [POOL, POOL] && s4.armedBy[POOL] == Some(1);
    assert s4.heap[POOL] == Armed(YIELD_ONCE);
  }

  lemma NotDisciplined(resources: nat, es: seq<Event>, e: Event)
    requires e.Iterate? && e.token !in Run(resources, es).held
    ensures !Disciplined(resources, es + [e])
  {
    var more := es + [e];
    assert more[..|es|] == es && more[|es|] == e;
  }

  /** An example of the other case: a reference kept after StopIteration steps a later operation. */
  lemma StaleHolderStepsForeignOperation() returns (es: seq<Event>)
    ensures !Disciplined(1, es)
    ensures Stepped(POOL, 0, Some(1)) in Run(1, es).log
  {
    StartYieldStop();
    var es3 := [START_IN_SLOT, Iterate(0), Iterate(0)];
    var es4 := es3 + [START_IN_SLOT];
    es := es4 + [Iterate(0)];
    RunExtends(1, es3, START_IN_SLOT);
    RunExtends(1, es4, Iterate(0));
    RestartAndStaleIterate(Run(1, es3));
    NotDisciplined(1, es4, Iterate(0));
  }

  // ---------- Stopping is always told ----------

  /**
    In every run, the reference to an operation that is no longer live ends at its next iteration:
    whoever iterates it is told so, no call is made, no value is returned, and the handle is free.
   */
  lemma StoppedIsTold(resources: nat, es: seq<Event>, t: nat)
    requires t < |Run(resources, es).issued|
    requires Run(resources, es).issued[t] < |Run(resources, es).heap|
    requires !Run(resources, es).heap[Run(resources, es).issued[t]].parent.Object?
    ensures var s, s', h := Run(resources, es), Run(resources, es + [Iterate(t)]), Run(resources, es).issued[t];
            && h < |s'.heap| && Next(s.heap[h]).1 == Stopped(None)
            && t !in s'.held && s'.heap[h].parent == Null
            && s'.heap[h].calls == s.heap[h].calls && s'.heap[h].closes == s.heap[h].closes
  {
    RunsKeepShape(resources, es);
    RunExtends(resources, es, Iterate(t));
    EndsWithoutCall(Run(resources, es).heap[Run(resources, es).issued[t]]);
  }

  /** In particular, when a resource starts a new operation, whoever awaits the previous one is told at once. */
  lemma ReplacedIsTold(resources: nat, es: seq<Event>, slot: nat, c: Config, t: nat)
    requires slot < resources && t < |Run(resources, es).issued|
    requires var s := Run(resources, es); slot < |s.slots| && s.slots[slot] == Some(s.issued[t])
    requires var s := Run(resources, es); s.issued[t] < |s.heap| && !s.heap[s.issued[t]].parent.Null?
    ensures var h := Run(resources, es).issued[t];
            var replaced := es + [Start(InSlot(slot, true), c)];
            var s, s' := Run(resources, replaced), Run(resources, replaced + [Iterate(t)]);
            && h < |s.heap| && h < |s'.heap|
            && s.slots[slot] != Some(h) && Next(s.heap[h]).1 == Stopped(None)
            && t !in s'.held && s'.heap[h].parent == Null
            && s'.heap[h].calls == Run(resources, es).heap[h].calls
  {
    var replaced := es + [Start(InSlot(slot, true), c)];
    RunsKeepShape(resources, es);
    RunExtends(resources, es, Start(InSlot(slot, true), c));
    StoppedIsTold(resources, replaced, t);
  }

  // ---------- Operations do not disturb each other ----------

  /** How often the operation that token t stands for was stepped, by anyone. */
  function Steps(log: seq<Entry>, t: nat): nat {
    if log == [] then 0
    else Steps(log[..|log| - 1], t) + (if log[|log| - 1].Stepped? && log[|log| - 1].op == Some(t) then 1 else 0)
  }

  lemma StepsExtend(log: seq<Entry>, e: Entry, t: nat)
    ensures Steps(log + [e], t) == Steps(log, t) + (if e.Stepped? && e.op == Some(t) then 1 else 0)
  {
    assert (log + [e])[..|log|] == log;
  }

  /** A live handle is exactly where the iterations of its own operation have brought it. */
  ghost predicate Isolated(s: System) {
    && |s.started| == |s.issued|
    && (forall t | |s.issued| <= t :: Steps(s.log, t) == 0)
    && (forall h | 0 <= h < |s.heap| == |s.armedBy| && s.heap[h].parent.Object? ::
          && s.armedBy[h].Some?
          && s.armedBy[h].value < |s.started|
          && s.heap[h] == Iterated(Armed(s.started[s.armedBy[h].value]), Steps(s.log, s.armedBy[h].value)))
  }

  lemma ArmKeepsIsolation(s: System, candidate: Option<nat>, c: Config)
    requires Shaped(s) && Isolated(s)
    ensures Isolated(Arm(s, candidate, c).0)
  {
    forall t: nat
      ensures Steps(Arm(s, candidate, c).0.log, t) == Steps(s.log, t)
    {
      StepsExtend(s.log, ArmedAs(Arm(s, candidate, c).1, |s.issued|), t);
    }
    assert Iterated(Armed(c), 0) == Armed(c);
  }

  lemma IterateCounts(s: System, t: nat, u: nat)
    requires Shaped(s) && t < |s.issued|
    ensures Steps(DoIterate(s, t).log, u) ==
            Steps(s.log, u) + if s.heap[s.issued[t]].parent.Object? && s.armedBy[s.issued[t]] == Some(u) then 1 else 0
  {
    var h := s.issued[t];
    var stepped, over := Stepped(h, t, s.armedBy[h]), Over(h, t, s.armedBy[h]);
    StepsExtend(s.log, stepped, u);
    StepsExtend(s.log, over, u);
    StepsExtend(s.log + [stepped], over, u);
  }

  lemma IterateKeepsIsolation(s: System, t: nat)
    requires Shaped(s) && Isolated(s) && t < |s.issued|
    ensures Isolated(DoIterate(s, t))
  {
    var h := s.issued[t];
    var s' := DoIterate(s, t);
    forall u | |s.issued| <= u ensures Steps(s'.log, u) == 0 {
      IterateCounts(s, t, u);
    }
    forall g | 0 <= g < |s'.heap| && s'.heap[g].parent.Object?
      ensures s'.armedBy[g].Some? && s'.armedBy[g].value < |s'.started|
      ensures s'.heap[g] == Iterated(Armed(s'.started[s'.armedBy[g].value]), Steps(s'.log, s'.armedBy[g].value))
    {
      assert s.heap[g].parent.Object?;
      IterateCounts(s, t, s.armedBy[g].value);
      assert s.issued[s.armedBy[g].value] == g;
    }
  }

  lemma CloseKeepsIsolation(s: System, t: nat)
    requires Shaped(s) && Isolated(s) && t < |s.issued|
    ensures Isolated(DoClose(s, t))
  {
    forall u: nat
      ensures Steps(DoClose(s, t).log, u) == Steps(s.log, u)
    {
      StepsExtend(s.log, Over(s.issued[t], t, s.armedBy[s.issued[t]]), u);
    }
  }

  lemma StartKeepsIsolation(s: System, place: Place, c: Config)
    requires Shaped(s) && Isolated(s)
    ensures Isolated(DoStart(s, place, c))
  {
    assert Shaped(Prepared(s, place)) && Isolated(Prepared(s, place));
    ArmKeepsIsolation(Prepared(s, place), Candidate(s, place), c);
  }

  lemma StepKeepsIsolation(s: System, e: Event)
    requires Shaped(s) && Isolated(s)
    ensures Isolated(Exec(s, e))
  {
    match e
    case Start(place, c) =>
      StartKeepsIsolation(s, place, c);
    case Cancel(i) =>
    case Iterate(t) => if t < |s.issued| { IterateKeepsIsolation(s, t); }
    case Close(t) => if t < |s.issued| { CloseKeepsIsolation(s, t); }
  }

  /**
    Isolation, over every run: whatever was started, cancelled, closed and used again around it, a
    live operation has been brought to its state by its own iterations, from its own configuration.
   */
  lemma {:induction false} LiveOperationsAreIsolated(resources: nat, es: seq<Event>)
    ensures Isolated(Run(resources, es))
  {
    if es != [] {
      var before := es[..|es| - 1];
      LiveOperationsAreIsolated(resources, before);
      RunsKeepShape(resources, before);
      StepKeepsIsolation(Run(resources, before), es[|es| - 1]);
    }
  }

  // ---------- The new operation always wins ----------

  ghost predicate AlwaysStopsPrevious(es: seq<Event>, slot: nat) {
    forall i | 0 <= i < |es| && es[i].Start? && es[i].place.InSlot? && es[i].place.slot == slot :: es[i].place.stopPrev
  }

  ghost predicate OnlySlotHandleLive(s: System, slot: nat) {
    slot < |s.slots| == |s.attached| ==>
      forall h | h in s.attached[slot] && h < |s.heap| && s.heap[h].parent.Object? :: s.slots[slot] == Some(h)
  }

  /** Starting in the slot itself stops or reuses its handle, and all others were dead before. */
  lemma StartHereKeepsOneLive(s: System, c: Config, slot: nat)
    requires Shaped(s) && Owned(s) && OnlySlotHandleLive(s, slot) && slot < |s.slots|
    ensures OnlySlotHandleLive(DoStart(s, InSlot(slot, true), c), slot)
  {
    var place := InSlot(slot, true);
    var prepared := Prepared(s, place);
    var (armed, h) := Arm(prepared, s.slots[slot], c);
    assert forall g | g in s.attached[slot] :: !prepared.heap[g].parent.Object?;
    assert forall g | g in s.attached[slot] && g != h :: !armed.heap[g].parent.Object?;
  }

  /** Starting elsewhere touches no handle of this slot. */
  lemma StartElsewhereKeepsOneLive(s: System, place: Place, c: Config, slot: nat)
    requires Shaped(s) && Owned(s) && OnlySlotHandleLive(s, slot) && slot < |s.slots|
    requires place.InSlot? ==> place.slot != slot
    ensures OnlySlotHandleLive(DoStart(s, place, c), slot)
  {
    var candidate := Candidate(s, place);
    assert candidate.Some? ==> candidate.value !in s.attached[slot];
    var (armed, h) := Arm(Prepared(s, place), candidate, c);
    assert h !in s.attached[slot];
    assert forall g | g in s.attached[slot] :: armed.heap[g] == s.heap[g];
  }

  lemma StepKeepsOneLive(s: System, e: Event, slot: nat)
    requires Shaped(s) && Owned(s) && OnlySlotHandleLive(s, slot) && slot < |s.slots|
    requires e.Start? && e.place.InSlot? && e.place.slot == slot ==> e.place.stopPrev
    ensures OnlySlotHandleLive(Exec(s, e), slot)
  {
    if e.Start? {
      if e.place.InSlot? && e.place.slot == slot {
        StartHereKeepsOneLive(s, e.config, slot);
      } else {
        StartElsewhereKeepsOneLive(s, e.place, e.config, slot);
      }
    }
  }

  /**
    For a resource that always stops the previous operation, at every point of every run the only
    handle that can still call its protothread, of all that were ever attached, is the last one.
   */
  lemma {:induction false} NewOperationWins(resources: nat, es: seq<Event>, slot: nat)
    requires slot < resources && AlwaysStopsPrevious(es, slot)
    ensures |Run(resources, es).slots| == |Run(resources, es).attached| == resources
    ensures forall h | h in Run(resources, es).attached[slot] ::
              h < |Run(resources, es).heap| &&
              (Run(resources, es).heap[h].parent.Object? ==> Run(resources, es).slots[slot] == Some(h))
  {
    NewOperationWinsInv(resources, es, slot);
    RunsKeepShape(resources, es);
  }

  lemma {:induction false} NewOperationWinsInv(resources: nat, es: seq<Event>, slot: nat)
    requires slot < resources && AlwaysStopsPrevious(es, slot)
    ensures OnlySlotHandleLive(Run(resources, es), slot)
  {
    if es != [] {
      var before := es[..|es| - 1];
      NewOperationWinsInv(resources, before, slot);
      RunsKeepShape(resources, before);
      StepKeepsOneLive(Run(resources, before), es[|es| - 1], slot);
    }
  }

  // ---------- No allocation while operations follow one another ----------

  /** Each operation on the resource starts after the one before it was reported over. */
  ghost predicate OneAtATime(resources: nat, es: seq<Event>, slot: nat) {
    forall i | 0 <= i < |es| && es[i].Start? && es[i].place.InSlot? && es[i].place.slot == slot ::
      SlotIsFree(Run(resources, es[..i]), slot)
  }

  predicate SlotIsFree(s: System, slot: nat) {
    slot < |s.slots| && s.slots[slot].Some? && s.slots[slot].value < |s.heap| ==> s.heap[s.slots[slot].value].parent.Null?
  }

  lemma StartInFreeSlot(s: System, e: Event, slot: nat)
    requires Shaped(s) && Owned(s) && slot < |s.slots|
    requires e.Start? && e.place.InSlot? && e.place.slot == slot ==> SlotIsFree(s, slot)
    requires s.attached[slot] == if s.slots[slot].Some? then {s.slots[slot].value} else {}
    ensures var t := Exec(s, e);
            slot < |t.slots| == |t.attached| && t.attached[slot] == if t.slots[slot].Some? then {t.slots[slot].value} else {}
  {
    StepKeepsShape(s, e);
    assert s.slots[slot].Some? ==> s.slots[slot].value in s.attached[slot];
  }

  /** A resource that is used one operation at a time keeps using one and the same handle. */
  lemma {:induction false} OneHandleForOneAtATime(resources: nat, es: seq<Event>, slot: nat)
    requires slot < resources && OneAtATime(resources, es, slot)
    ensures |Run(resources, es).slots| == |Run(resources, es).attached| == resources
    ensures var s := Run(resources, es);
            s.attached[slot] == if s.slots[slot].Some? then {s.slots[slot].value} else {}
  {
    RunsKeepShape(resources, es);
    if es != [] {
      var before := es[..|es| - 1];
      forall i | 0 <= i < |before| && before[i].Start? && before[i].place.InSlot? && before[i].place.slot == slot
        ensures SlotIsFree(Run(resources, before[..i]), slot)
      {
        assert before[..i] == es[..i] && before[i] == es[i];
      }
      OneHandleForOneAtATime(resources, before, slot);
      RunsKeepShape(resources, before);
      StartInFreeSlot(Run(resources, before), es[|es| - 1], slot);
    }
  }
}
