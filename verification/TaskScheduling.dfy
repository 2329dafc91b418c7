/**
  Which task wins a race, when a collection finishes, and what it returns.

  A task is any node: a handle or a collection. All that is asked of it is that it yields k times
  and then stops, which is what a leaf of finitely many AGAIN answers does and, by the results of
  this module, what collections of such tasks do again.
 */
module TaskScheduling {
  import opened Common
  import opened Async
  import opened Task

  function After(n: Node, j: nat): Node {
    if j == 0 then n else NextNode(After(n, j - 1)).0
  }

  /** The node yields k times and then stops with the given argument. */
  ghost predicate FinishesIn(n: Node, k: nat, arg: Option<Value>) {
    && (forall j | 0 <= j < k :: NextNode(After(n, j)).1 == Yielded)
    && NextNode(After(n, k)).1 == Stopped(arg)
  }

  datatype Plan = Plan(node: Node, delay: nat, arg: Option<Value>)

  /** Every task finishes as planned. */
  ghost predicate Planned(ps: seq<Plan>) {
    ps != [] ==> FinishesIn(ps[0].node, ps[0].delay, ps[0].arg) && Planned(ps[1..])
  }

  lemma {:induction false} PlannedAt(ps: seq<Plan>, i: nat)
    requires Planned(ps) && i < |ps|
    ensures FinishesIn(ps[i].node, ps[i].delay, ps[i].arg)
  {
    if i > 0 {
      PlannedAt(ps[1..], i - 1);
    }
  }

  function Nodes(ps: seq<Plan>): seq<Node> {
    seq(|ps|, i requires 0 <= i < |ps| => ps[i].node)
  }

  function ValueOf(arg: Option<Value>): Value {
    if arg.Some? then arg.value else PyNone
  }

  // ---------- The state after j full rounds ----------

  /** A task after j rounds: it was iterated until it stopped and never again. */
  function TaskAfter(p: Plan, j: nat): Progress {
    if j > p.delay then Progress(After(p.node, p.delay + 1), ValueOf(p.arg), true)
    else Progress(After(p.node, j), PyNone, false)
  }

  function TasksAfter(ps: seq<Plan>, j: nat): (ts: seq<Progress>)
    ensures |ts| == |ps|
    ensures forall i | 0 <= i < |ps| :: ts[i] == TaskAfter(ps[i], j)
  {
    if ps == [] then [] else [TaskAfter(ps[0], j)] + TasksAfter(ps[1..], j)
  }

  /** How many tasks are done after j rounds. */
  function DoneAfter(ps: seq<Plan>, j: nat): (d: nat)
    ensures d <= |ps|
  {
    if ps == [] then 0 else (if j > ps[0].delay then 1 else 0) + DoneAfter(ps[1..], j)
  }

  lemma {:induction false} NotAllDone(ps: seq<Plan>, i: nat, j: nat)
    requires i < |ps| && j <= ps[i].delay
    ensures DoneAfter(ps, j) < |ps|
  {
    if i > 0 {
      NotAllDone(ps[1..], i - 1, j);
    }
  }

  lemma StepOfPlan(p: Plan, j: nat)
    requires FinishesIn(p.node, p.delay, p.arg) && j <= p.delay
    ensures Step(TaskAfter(p, j)) == (TaskAfter(p, j + 1), if j == p.delay then Stopped(p.arg) else Yielded)
  {
    assert NextNode(After(p.node, j)).1 == if j == p.delay then Stopped(p.arg) else Yielded;
  }

  /** A round in which too few tasks finish takes all tasks one step further. */
  lemma {:induction false} FullRound(ps: seq<Plan>, j: nat, doneTotal: nat, required: nat)
    requires Planned(ps) && doneTotal + DoneAfter(ps, j + 1) < required
    ensures NextTasks(TasksAfter(ps, j), doneTotal, required) ==
            Round(TasksAfter(ps, j + 1), doneTotal + DoneAfter(ps, j + 1), EndOfRound)
  {
    if ps != [] {
      assert TasksAfter(ps, j)[1..] == TasksAfter(ps[1..], j);
      FullRound(ps[1..], j, if j + 1 > ps[0].delay then doneTotal + 1 else doneTotal, required);
      if j <= ps[0].delay {
        StepOfPlan(ps[0], j);
      }
    }
  }

  /** An iteration of a collection in which its round ends regularly with too few tasks done. */
  lemma YieldingRound(n: Node, j: nat, ts: seq<Progress>, next: seq<Progress>, done: nat, required: nat)
    requires After(n, j) == Collection(ts, required)
    requires NextTasks(ts, 0, required) == Round(next, done, EndOfRound) && done < required
    ensures After(n, j + 1) == Collection(next, required) && NextNode(After(n, j)).1 == Yielded
  {
  }

  lemma TasksAtStart(ps: seq<Plan>, race: bool)
    ensures New(Nodes(ps), race).tasks == TasksAfter(ps, 0)
  {
  }

  /** While too few tasks are done, a new collection yields and its tasks advance together. */
  lemma {:induction false} WhileTooFewDone(ps: seq<Plan>, race: bool, j: nat)
    requires Planned(ps)
    requires DoneAfter(ps, j) < (if race then 1 else |ps|)
    ensures After(New(Nodes(ps), race), j) == Collection(TasksAfter(ps, j), if race then 1 else |ps|)
    ensures j > 0 ==> NextNode(After(New(Nodes(ps), race), j - 1)).1 == Yielded
  {
    if j == 0 {
      TasksAtStart(ps, race);
    } else {
      var required := if race then 1 else |ps|;
      DoneGrows(ps, j - 1);
      WhileTooFewDone(ps, race, j - 1);
      FullRound(ps, j - 1, 0, required);
      YieldingRound(New(Nodes(ps), race), j - 1, TasksAfter(ps, j - 1), TasksAfter(ps, j), DoneAfter(ps, j), required);
    }
  }

  lemma {:induction false} DoneGrows(ps: seq<Plan>, j: nat)
    ensures DoneAfter(ps, j) <= DoneAfter(ps, j + 1)
  {
    if ps != [] {
      DoneGrows(ps[1..], j);
    }
  }

  // ---------- Race ----------

  /** Index w has the fewest yields, and it is the lowest such index. */
  ghost predicate Wins(ps: seq<Plan>, w: nat) {
    && w < |ps|
    && (forall i | 0 <= i < |ps| :: ps[w].delay <= ps[i].delay)
    && (forall i | 0 <= i < w :: ps[w].delay < ps[i].delay)
  }

  /** Every race of at least one task has a winner. */
  lemma {:induction false} WinnerExists(ps: seq<Plan>) returns (w: nat)
    requires ps != []
    ensures Wins(ps, w)
  {
    w := 0;
    if |ps| > 1 {
      var v := WinnerExists(ps[1..]);
      assert forall i | 1 <= i < |ps| :: ps[i] == ps[1..][i - 1];
      if ps[v + 1].delay < ps[0].delay {
        w := v + 1;
      }
    }
  }

  lemma {:induction false} NoneDone(ps: seq<Plan>, j: nat)
    requires forall i | 0 <= i < |ps| :: j <= ps[i].delay
    ensures DoneAfter(ps, j) == 0
  {
    if ps != [] {
      forall i | 0 <= i < |ps[1..]| ensures j <= ps[1..][i].delay { assert ps[1..][i] == ps[i + 1]; }
      NoneDone(ps[1..], j);
    }
  }

  /** The tasks when task w decides a race after m full rounds: those behind it were not reached. */
  function DecidedTasks(ps: seq<Plan>, w: nat, m: nat): seq<Progress>
    requires w < |ps|
  {
    TasksAfter(ps, m + 1)[..w + 1] + TasksAfter(ps, m)[w + 1..]
  }

  /** In these tasks w is the first that stops, and those up to it step to what is given. */
  ghost predicate FirstToStop(ts: seq<Progress>, next: seq<Progress>, w: nat) {
    && w < |ts| == |next|
    && (forall i | 0 <= i <= w :: !ts[i].done && Step(ts[i]).0 == next[i])
    && (forall i | 0 <= i < w :: Step(ts[i]).1.Yielded?)
    && Step(ts[w]).1.Stopped?
  }

  lemma FirstToStopInTail(ts: seq<Progress>, next: seq<Progress>, w: nat)
    requires FirstToStop(ts, next, w) && w > 0
    ensures FirstToStop(ts[1..], next[1..], w - 1)
  {
    forall i | 0 <= i < w ensures ts[1..][i] == ts[i + 1] && next[1..][i] == next[i + 1] {}
  }

  lemma FrontOf(x: Progress, next: seq<Progress>, ts: seq<Progress>, w: nat)
    requires 0 < w < |ts| == |next| && x == next[0]
    ensures [x] + (next[1..][..w] + ts[1..][w..]) == next[..w + 1] + ts[w + 1..]
  {
  }

  /** A race ends at the first task that stops; tasks behind it are not reached. */
  lemma {:induction false} RoundEndsAt(ts: seq<Progress>, next: seq<Progress>, w: nat)
    requires FirstToStop(ts, next, w)
    ensures NextTasks(ts, 0, 1) == Round(next[..w + 1] + ts[w + 1..], 1, Enough)
  {
    if w == 0 {
      assert [next[0]] + ts[1..] == next[..1] + ts[1..];
    } else {
      FirstToStopInTail(ts, next, w);
      RoundEndsAt(ts[1..], next[1..], w - 1);
      FrontOf(next[0], next, ts, w);
    }
  }

  lemma RacersStep(ps: seq<Plan>, w: nat, m: nat)
    requires Planned(ps) && Wins(ps, w) && m == ps[w].delay
    ensures FirstToStop(TasksAfter(ps, m), TasksAfter(ps, m + 1), w)
  {
    var ts, next := TasksAfter(ps, m), TasksAfter(ps, m + 1);
    forall i | 0 <= i <= w
      ensures !ts[i].done && Step(ts[i]).0 == next[i] && if i == w then Step(ts[i]).1.Stopped? else Step(ts[i]).1.Yielded?
    {
      RacerSteps(ps, w, m, i);
    }
  }

  /** The deciding round of a race: those before the winner take a step, those behind it do not. */
  lemma DecidingRound(ps: seq<Plan>, w: nat, m: nat)
    requires Planned(ps) && Wins(ps, w) && m == ps[w].delay
    ensures NextTasks(TasksAfter(ps, m), 0, 1) == Round(DecidedTasks(ps, w, m), 1, Enough)
  {
    RacersStep(ps, w, m);
    RoundEndsAt(TasksAfter(ps, m), TasksAfter(ps, m + 1), w);
  }

  lemma RacerSteps(ps: seq<Plan>, w: nat, m: nat, i: nat)
    requires Planned(ps) && Wins(ps, w) && m == ps[w].delay && i <= w
    ensures var t, step := TasksAfter(ps, m)[i], Step(TasksAfter(ps, m)[i]);
            && !t.done && step.0 == TasksAfter(ps, m + 1)[i]
            && if i == w then step.1.Stopped? else step.1.Yielded?
  {
    PlannedAt(ps, i);
    StepOfPlan(ps[i], m);
  }

  lemma RaceAfter(ps: seq<Plan>, w: nat, j: nat)
    requires Planned(ps) && Wins(ps, w) && j <= ps[w].delay
    ensures After(New(Nodes(ps), true), j) == Collection(TasksAfter(ps, j), 1)
  {
    NoneDone(ps, j);
    WhileTooFewDone(ps, true, j);
  }

  lemma RaceYieldsAt(ps: seq<Plan>, w: nat, j: nat)
    requires Planned(ps) && Wins(ps, w) && j < ps[w].delay
    ensures NextNode(After(New(Nodes(ps), true), j)).1 == Yielded
  {
    NoneDone(ps, j + 1);
    WhileTooFewDone(ps, true, j + 1);
  }

  lemma RaceYields(ps: seq<Plan>, w: nat, m: nat)
    requires Planned(ps) && Wins(ps, w) && m == ps[w].delay
    ensures forall j | 0 <= j < m :: NextNode(After(New(Nodes(ps), true), j)).1 == Yielded
  {
    forall j | 0 <= j < m ensures NextNode(After(New(Nodes(ps), true), j)).1 == Yielded {
      RaceYieldsAt(ps, w, j);
    }
  }

  /** The tasks of a race that w won after m yields. */
  function RaceTasks(ps: seq<Plan>, w: nat, m: nat): seq<Progress> {
    seq(|ps|, i requires 0 <= i < |ps| =>
      if i == w then TaskAfter(ps[w], m + 1)
      else Progress(CloseNode(After(ps[i].node, if i < w then m + 1 else m)), PyNone, false))
  }

  function RaceValues(ps: seq<Plan>, w: nat): seq<Value> {
    seq(|ps|, i requires 0 <= i < |ps| =>
      if i == w && ps[w].arg.Some? then ps[w].arg.value else PyNone)
  }

  lemma DecidedTask(ps: seq<Plan>, w: nat, m: nat, i: nat)
    requires w < |ps| && i < |ps|
    ensures DecidedTasks(ps, w, m)[i] == TaskAfter(ps[i], if i <= w then m + 1 else m)
  {
    PickUpTo(TasksAfter(ps, m + 1), TasksAfter(ps, m), w, i);
  }

  lemma LoserAfter(ps: seq<Plan>, w: nat, i: nat)
    requires Wins(ps, w) && i < |ps| && i != w
    ensures var j := if i < w then ps[w].delay + 1 else ps[w].delay;
            TaskAfter(ps[i], j) == Progress(After(ps[i].node, j), PyNone, false)
  {
  }

  lemma PickUpTo(a: seq<Progress>, b: seq<Progress>, w: nat, i: nat)
    requires |a| == |b| && w < |a| && i < |a|
    ensures (a[..w + 1] + b[w + 1..])[i] == if i <= w then a[i] else b[i]
  {
  }

  lemma DecidedSettles(ps: seq<Plan>, w: nat, m: nat)
    requires Wins(ps, w) && m == ps[w].delay
    ensures CloseTasks(DecidedTasks(ps, w, m)) == RaceTasks(ps, w, m)
    ensures ReturnValues(DecidedTasks(ps, w, m)) == RaceValues(ps, w)
  {
    var ts := DecidedTasks(ps, w, m);
    forall i | 0 <= i < |ps|
      ensures CloseTasks(ts)[i] == RaceTasks(ps, w, m)[i] && ReturnValues(ts)[i] == RaceValues(ps, w)[i]
    {
      DecidedTask(ps, w, m, i);
      ClosedAt(ts, i);
      if i != w {
        LoserAfter(ps, w, i);
      }
    }
  }

  /** The last iteration of a collection whose round ends early. */
  lemma DecidedCollection(n: Node, m: nat, ts: seq<Progress>, decided: seq<Progress>)
    requires After(n, m) == Collection(ts, 1) && NextTasks(ts, 0, 1) == Round(decided, 1, Enough)
    ensures After(n, m + 1) == Collection(CloseTasks(decided), 1)
    ensures NextNode(After(n, m)).1 == Stopped(Some(Tuple(ReturnValues(decided))))
  {
  }

  lemma RaceEnds(ps: seq<Plan>, w: nat, m: nat)
    requires Planned(ps) && Wins(ps, w) && m == ps[w].delay
    ensures NextNode(After(New(Nodes(ps), true), m)).1 == Stopped(Some(Tuple(RaceValues(ps, w))))
    ensures After(New(Nodes(ps), true), m + 1) == Collection(RaceTasks(ps, w, m), 1)
  {
    RaceAfter(ps, w, m);
    DecidingRound(ps, w, m);
    DecidedSettles(ps, w, m);
    DecidedCollection(New(Nodes(ps), true), m, TasksAfter(ps, m), DecidedTasks(ps, w, m));
  }

  /**
    The result of a race. It yields as often as its fastest task, then stops on the next iteration.
    The winner is the lowest index among the fastest. Only the winner has a value in the result and
    only the winner is done. Everything else was cancelled, the tasks before the winner one step
    further than those behind it.
   */
  lemma RaceResult(ps: seq<Plan>, w: nat, m: nat)
    requires Planned(ps) && Wins(ps, w) && m == ps[w].delay
    ensures FinishesIn(New(Nodes(ps), true), m, Some(Tuple(RaceValues(ps, w))))
    ensures After(New(Nodes(ps), true), m + 1) == Collection(RaceTasks(ps, w, m), 1)
  {
    RaceYields(ps, w, m);
    RaceEnds(ps, w, m);
  }

  // ---------- All ----------

  /** A round after which every task is done, entered while some task is not. */
  lemma {:induction false} LastRound(ps: seq<Plan>, j: nat, doneTotal: nat, required: nat)
    requires Planned(ps) && required == doneTotal + |ps|
    requires forall i | 0 <= i < |ps| :: ps[i].delay <= j
    ensures var r := NextTasks(TasksAfter(ps, j), doneTotal, required);
            r.tasks == TasksAfter(ps, j + 1) && r.doneTotal == required && !r.end.Broken?
  {
    if ps != [] {
      var rest := ps[1..];
      forall i | 0 <= i < |rest| ensures rest[i] == ps[i + 1] {}
      assert TasksAfter(ps, j)[1..] == TasksAfter(rest, j);
      LastRound(rest, j, doneTotal + 1, required);
      if j <= ps[0].delay {
        StepOfPlan(ps[0], j);
      }
    }
  }

  lemma {:induction false} CloseDone(ts: seq<Progress>)
    requires forall i | 0 <= i < |ts| :: ts[i].done
    ensures CloseTasks(ts) == ts
  {
    if ts != [] {
      CloseDone(ts[1..]);
    }
  }

  /** Of at least one task, one is the slowest. */
  lemma {:induction false} SlowestExists(ps: seq<Plan>) returns (slowest: nat)
    requires ps != []
    ensures slowest < |ps| && forall i | 0 <= i < |ps| :: ps[i].delay <= ps[slowest].delay
  {
    slowest := 0;
    if |ps| > 1 {
      var s := SlowestExists(ps[1..]);
      assert forall i | 1 <= i < |ps| :: ps[i] == ps[1..][i - 1];
      if ps[s + 1].delay > ps[0].delay {
        slowest := s + 1;
      }
    }
  }

  lemma AllAfter(ps: seq<Plan>, slowest: nat, j: nat)
    requires Planned(ps) && slowest < |ps| && j <= ps[slowest].delay
    ensures After(New(Nodes(ps), false), j) == Collection(TasksAfter(ps, j), |ps|)
  {
    NotAllDone(ps, slowest, j);
    WhileTooFewDone(ps, false, j);
  }

  lemma AllYieldsAt(ps: seq<Plan>, slowest: nat, j: nat)
    requires Planned(ps) && slowest < |ps| && j < ps[slowest].delay
    ensures NextNode(After(New(Nodes(ps), false), j)).1 == Yielded
  {
    NotAllDone(ps, slowest, j + 1);
    WhileTooFewDone(ps, false, j + 1);
  }

  lemma AllYields(ps: seq<Plan>, slowest: nat, m: nat)
    requires Planned(ps) && slowest < |ps| && m == ps[slowest].delay
    ensures forall j | 0 <= j < m :: NextNode(After(New(Nodes(ps), false), j)).1 == Yielded
  {
    forall j | 0 <= j < m ensures NextNode(After(New(Nodes(ps), false), j)).1 == Yielded {
      AllYieldsAt(ps, slowest, j);
    }
  }

  /** All tasks, each iterated until it stopped. */
  function FinishedTasks(ps: seq<Plan>): seq<Progress> {
    seq(|ps|, i requires 0 <= i < |ps| => Progress(After(ps[i].node, ps[i].delay + 1), ValueOf(ps[i].arg), true))
  }

  function AllValues(ps: seq<Plan>): seq<Value> {
    seq(|ps|, i requires 0 <= i < |ps| => if ps[i].arg.Some? then ps[i].arg.value else PyNone)
  }

  lemma FinishedSettles(ps: seq<Plan>, m: nat)
    requires forall i | 0 <= i < |ps| :: ps[i].delay <= m
    ensures TasksAfter(ps, m + 1) == FinishedTasks(ps)
    ensures ReturnValues(FinishedTasks(ps)) == AllValues(ps)
  {
  }

  /** The last iteration of a collection of which all tasks are done, and closing them does nothing. */
  lemma FinishedCollection(n: Node, m: nat, ts: seq<Progress>, required: nat, finished: seq<Progress>)
    requires After(n, m) == Collection(ts, required) && forall i | 0 <= i < |finished| :: finished[i].done
    requires var r := NextTasks(ts, 0, required); r.tasks == finished && r.doneTotal == required && !r.end.Broken?
    ensures After(n, m + 1) == Collection(finished, required)
    ensures NextNode(After(n, m)).1 == Stopped(Some(Tuple(ReturnValues(finished))))
  {
    CloseDone(finished);
  }

  lemma AllEnds(ps: seq<Plan>, slowest: nat, m: nat)
    requires Planned(ps) && slowest < |ps| && m == ps[slowest].delay
    requires forall i | 0 <= i < |ps| :: ps[i].delay <= m
    ensures NextNode(After(New(Nodes(ps), false), m)).1 == Stopped(Some(Tuple(AllValues(ps))))
    ensures After(New(Nodes(ps), false), m + 1) == Collection(FinishedTasks(ps), |ps|)
  {
    AllAfter(ps, slowest, m);
    LastRound(ps, m, 0, |ps|);
    FinishedSettles(ps, m);
    FinishedCollection(New(Nodes(ps), false), m, TasksAfter(ps, m), |ps|, FinishedTasks(ps));
  }

  /**
    The result of waiting for all. The collection yields as often as its slowest task and then
    returns all values in the order of the arguments. Every task was iterated exactly until it
    stopped, and nothing was cancelled.
   */
  lemma AllResult(ps: seq<Plan>, slowest: nat, m: nat)
    requires Planned(ps) && slowest < |ps| && m == ps[slowest].delay
    requires forall i | 0 <= i < |ps| :: ps[i].delay <= m
    ensures FinishesIn(New(Nodes(ps), false), m, Some(Tuple(AllValues(ps))))
    ensures After(New(Nodes(ps), false), m + 1) == Collection(FinishedTasks(ps), |ps|)
  {
    AllYields(ps, slowest, m);
    AllEnds(ps, slowest, m);
  }

  /** multitask() of nothing: all of nothing is done at once, a race of nothing never ends. */
  lemma {:induction false} EmptyCollections(j: nat)
    ensures FinishesIn(New([], false), 0, Some(Tuple([])))
    ensures After(New([], true), j) == New([], true) && NextNode(New([], true)).1 == Yielded
  {
    assert New([], false).tasks == [] && New([], true).tasks == [];
    if j > 0 {
      EmptyCollections(j - 1);
    }
  }

  // ---------- Leaves ----------

  lemma {:induction false} LeafAfter(v: View, j: nat)
    ensures After(Leaf(v), j) == Leaf(Iterated(v, j))
  {
    if j > 0 {
      LeafAfter(v, j - 1);
    }
  }

  /** An awaitable whose protothread answers AGAIN n times and then succeeds is such a task. */
  lemma AwaitableFinishes(c: Config, n: nat)
    requires FinishesAt(c, n) && AnswerAt(c, n).Success?
    ensures FinishesIn(Leaf(Armed(c)), n, if c.returnMap.Some? then Some(c.returnMap.value(c.parent)) else None)
  {
    AwaitingRefinesBlocking(c, n);
    forall j: nat { LeafAfter(Armed(c), j); }
  }
}
