/**
  multitask(): pybricks/tools/pb_type_task.c.

  A collection drives its tasks round-robin until all of them, or in a race one of them, finished.
  Tasks are awaitable handles or collections again, so a running program is a finite tree. The
  handles in a tree are distinct by construction.
 */
module Task {
  import opened Common
  import opened Async

  datatype Node =
    | Leaf(handle: View)
    | Collection(tasks: seq<Progress>, required: nat)

  datatype Progress = Progress(node: Node, returnVal: Value, done: bool)

  datatype End = EndOfRound | Enough | Broken(code: int)

  /** The state in which a round over some tasks ends. */
  datatype Round = Round(tasks: seq<Progress>, doneTotal: nat, end: End)

  // ---------- Specification ----------

  function CloseNode(n: Node): Node
    decreases n, 1
  {
    match n
    case Leaf(h) => Leaf(Closed(h))
    case Collection(tasks, required) => Collection(CloseTasks(tasks), required)
  }

  function CloseTasks(ts: seq<Progress>): (r: seq<Progress>)
    ensures |r| == |ts|
    decreases ts, 0
  {
    if ts == [] then []
    else
      var t := ts[0];
      assert t.node < t;
      [if t.done then t else t.(node := CloseNode(t.node))] + CloseTasks(ts[1..])
  }

  function Finish(t: Progress, arg: Option<Value>): Progress {
    t.(returnVal := if arg.Some? then arg.value else t.returnVal, done := true)
  }

  function ReturnValues(ts: seq<Progress>): (r: seq<Value>)
    ensures |r| == |ts|
  {
    seq(|ts|, i requires 0 <= i < |ts| => ts[i].returnVal)
  }

  function NextNode(n: Node): (Node, Outcome)
    decreases n, 2
  {
    match n
    case Leaf(h) => (Leaf(Next(h).0), Next(h).1)
    case Collection(tasks, required) =>
      var round := NextTasks(tasks, 0, required);
      (Collection(Settled(round), required), Report(round, required))
  }

  /** The tasks after a round, where the others were cancelled if the round ended early. */
  function Settled(round: Round): seq<Progress>
  {
    if round.end.EndOfRound? then round.tasks else CloseTasks(round.tasks)
  }

  function Report(round: Round, required: nat): Outcome {
    if round.end.Broken? then Raised(round.end.code)
    else if round.doneTotal < required then Yielded
    else Stopped(Some(Tuple(ReturnValues(round.tasks))))
  }

  /** One iteration of a task that is not done. */
  function Step(t: Progress): (Progress, Outcome)
    decreases t, 3
  {
    var (n, outcome) := NextNode(t.node);
    (if outcome.Stopped? then Finish(t.(node := n), outcome.arg) else t.(node := n), outcome)
  }

  /** The round over the tasks ts, when doneTotal tasks before them are done. */
  function NextTasks(ts: seq<Progress>, doneTotal: nat, required: nat): (r: Round)
    ensures |r.tasks| == |ts|
    decreases ts, 0
  {
    if ts == [] then Round([], doneTotal, EndOfRound)
    else if ts[0].done then Behind(ts[0], NextTasks(ts[1..], doneTotal + 1, required))
    else
      var (t, outcome) := Step(ts[0]);
      match outcome
      case Yielded => Behind(t, NextTasks(ts[1..], doneTotal, required))
      case Raised(code) => Round([t] + ts[1..], doneTotal, Broken(code))
      case Stopped(_) =>
        if doneTotal + 1 >= required
        then Round([t] + ts[1..], doneTotal + 1, Enough)
        else Behind(t, NextTasks(ts[1..], doneTotal + 1, required))
  }

  function Behind(t: Progress, r: Round): Round {
    r.(tasks := [t] + r.tasks)
  }

  // ---------- The collection object ----------

  class TaskCollection {
    var tasks: array<Progress>
    var required: nat

    ghost function Contents(): Node
      reads this, tasks
    {
      Collection(tasks[..], required)
    }

    /** multitask(*args, race): every argument becomes a task that is not done and returned None so far. */
    constructor (args: seq<Node>, race: bool)
      ensures Contents() == New(args, race) && fresh(tasks)
    {
      required := if race then 1 else |args|;
      tasks := new Progress[|args|](i requires 0 <= i < |args| => Progress(args[i], PyNone, false));
      new;
      assert tasks[..] == New(args, race).tasks;
    }

    /** Cancels every task that is not done. */
    method Close()
      modifies tasks
      ensures Contents() == CloseNode(old(Contents()))
    {
      ghost var ahead, rest := [], tasks[..];
      var i := 0;
      while i < tasks.Length
        invariant i == |ahead| <= tasks.Length && tasks[..] == ahead + rest
        invariant CloseTasks(old(tasks[..])) == ahead + CloseTasks(rest)
      {
        CloseStep(ahead, rest);
        var task := tasks[i];
        assert task == rest[0];
        if !task.done {
          task := task.(node := CloseNode(task.node));
          SetTask(i, task);
        }
        UpdateBehind(ahead, rest, task);
        ahead, rest := ahead + [task], rest[1..];
        i := i + 1;
      }
      assert rest == [];
    }

    method SetTask(i: nat, task: Progress)
      requires i < tasks.Length
      modifies tasks
      ensures tasks[..] == old(tasks[..])[i := task]
    {
      tasks[i] := task;
    }

    /** One iteration of the task with index i; a task that stops is marked done and keeps its value. */
    method StepTask(i: nat) returns (task: Progress, outcome: Outcome)
      requires i < tasks.Length
      modifies tasks
      ensures (task, outcome) == Step(old(tasks[i]))
      ensures tasks[..] == old(tasks[..])[i := task]
    {
      var (n, result) := NextNode(tasks[i].node);
      task, outcome := tasks[i].(node := n), result;
      if outcome.Stopped? {
        task := task.(done := true);
        if outcome.arg.Some? {
          task := task.(returnVal := outcome.arg.value);
        }
      }
      SetTask(i, task);
    }

    /** One iteration of every task that is not done, until enough are done or one raises. */
    method DoRound() returns (doneTotal: nat, end: End)
      modifies tasks
      ensures Round(tasks[..], doneTotal, end) == NextTasks(old(tasks[..]), 0, required)
    {
      ghost var ahead, rest := [], tasks[..];
      ghost var all := NextTasks(rest, 0, required);
      var i := 0;
      doneTotal := 0;
      assert all == InFront(ahead, all);
      while i < tasks.Length
        invariant i == |ahead| <= tasks.Length && tasks[..] == ahead + rest
        invariant all == InFront(ahead, NextTasks(rest, doneTotal, required))
      {
        RoundStep(ahead, rest, doneTotal, required);
        var task := tasks[i];
        assert task == rest[0];
        if task.done {
          doneTotal := doneTotal + 1;
          UpdateBehind(ahead, rest, task);
        } else {
          var outcome;
          task, outcome := StepTask(i);
          UpdateBehind(ahead, rest, task);
          if outcome.Raised? {
            return doneTotal, Broken(outcome.code);
          }
          if outcome.Stopped? {
            doneTotal := doneTotal + 1;
            if doneTotal >= required {
              return doneTotal, Enough;
            }
          }
        }
        ahead, rest := ahead + [task], rest[1..];
        i := i + 1;
      }
      assert rest == [] && ahead + [] == ahead;
      end := EndOfRound;
    }

    /** Runs a round, cancels the others if it ended early, and reports. */
    method Iternext() returns (r: Outcome)
      modifies tasks
      ensures (Contents(), r) == NextNode(old(Contents()))
    {
      var doneTotal, end := DoRound();
      CloseKeepsReturnValues(tasks[..]);
      if !end.EndOfRound? {
        Close();
      }
      if end.Broken? {
        return Raised(end.code);
      }
      if doneTotal < required {
        return Yielded;
      }
      return Stopped(Some(Tuple(ReturnValues(tasks[..]))));
    }
  }

  lemma UpdateBehind(ahead: seq<Progress>, ts: seq<Progress>, t: Progress)
    requires ts != []
    ensures (ahead + ts)[|ahead| := t] == ahead + [t] + ts[1..]
  {
  }

  function New(args: seq<Node>, race: bool): Node {
    Collection(seq(|args|, i requires 0 <= i < |args| => Progress(args[i], PyNone, false)), if race then 1 else |args|)
  }

  function InFront(ts: seq<Progress>, r: Round): Round {
    r.(tasks := ts + r.tasks)
  }

  lemma Associates(a: seq<Progress>, b: seq<Progress>, c: seq<Progress>)
    ensures a + b + c == a + (b + c)
  {
  }

  lemma CloseStep(ahead: seq<Progress>, ts: seq<Progress>)
    requires ts != []
    ensures ahead + CloseTasks(ts) ==
            ahead + [if ts[0].done then ts[0] else ts[0].(node := CloseNode(ts[0].node))] + CloseTasks(ts[1..])
  {
    Associates(ahead, [if ts[0].done then ts[0] else ts[0].(node := CloseNode(ts[0].node))], CloseTasks(ts[1..]));
  }

  /** What one task contributes to a round. */
  lemma RoundStep(ahead: seq<Progress>, ts: seq<Progress>, doneTotal: nat, required: nat)
    requires ts != []
    ensures var all := InFront(ahead, NextTasks(ts, doneTotal, required));
            if ts[0].done then
              all == InFront(ahead + [ts[0]], NextTasks(ts[1..], doneTotal + 1, required))
            else
              var (t, outcome) := Step(ts[0]);
              if outcome.Yielded? then all == InFront(ahead + [t], NextTasks(ts[1..], doneTotal, required))
              else if outcome.Raised? then all == Round(ahead + [t] + ts[1..], doneTotal, Broken(outcome.code))
              else if doneTotal + 1 >= required then all == Round(ahead + [t] + ts[1..], doneTotal + 1, Enough)
              else all == InFront(ahead + [t], NextTasks(ts[1..], doneTotal + 1, required))
  {
    Associates(ahead, [Step(ts[0]).0], ts[1..]);
    forall u, d: nat
      ensures InFront(ahead, Behind(u, NextTasks(ts[1..], d, required))) == InFront(ahead + [u], NextTasks(ts[1..], d, required))
    {
      Associates(ahead, [u], NextTasks(ts[1..], d, required).tasks);
    }
  }

  lemma {:induction false} ClosedAt(ts: seq<Progress>, i: nat)
    requires i < |ts|
    ensures CloseTasks(ts)[i] == if ts[i].done then ts[i] else ts[i].(node := CloseNode(ts[i].node))
  {
    if i > 0 {
      ClosedAt(ts[1..], i - 1);
    }
  }

  lemma CloseKeepsReturnValues(ts: seq<Progress>)
    ensures ReturnValues(CloseTasks(ts)) == ReturnValues(ts)
  {
    forall i | 0 <= i < |ts| ensures CloseTasks(ts)[i].returnVal == ts[i].returnVal {
      ClosedAt(ts, i);
    }
  }
}
