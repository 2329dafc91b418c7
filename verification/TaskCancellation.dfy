/** What an error or a cancellation does to a whole tree of collections. */
module TaskCancellation {
  import opened Common
  import opened Async
  import opened Task

  // ---------- Places in a tree ----------

  /** The handle that a path of task indices leads to. */
  function LeafAt(n: Node, path: seq<nat>): Option<View>
    decreases path
  {
    match n
    case Leaf(h) => if path == [] then Some(h) else None
    case Collection(tasks, _) =>
      if path != [] && path[0] < |tasks| then LeafAt(tasks[path[0]].node, path[1..]) else None
  }

  /** No entry on the path is done. */
  predicate Open(n: Node, path: seq<nat>)
    decreases path
  {
    n.Collection? && path != [] && path[0] < |n.tasks| ==>
      !n.tasks[path[0]].done && Open(n.tasks[path[0]].node, path[1..])
  }

  // ---------- Closing ----------

  /** Closing closes exactly the handles reached through entries that are not done. */
  lemma {:induction false} CloseReaches(n: Node, path: seq<nat>)
    requires LeafAt(n, path).Some?
    ensures LeafAt(CloseNode(n), path) ==
            Some(if Open(n, path) then Closed(LeafAt(n, path).value) else LeafAt(n, path).value)
    ensures Open(CloseNode(n), path) == Open(n, path)
    decreases path
  {
    if n.Collection? {
      ClosedAt(n.tasks, path[0]);
      CloseReaches(n.tasks[path[0]].node, path[1..]);
    }
  }

  /** Closing again does nothing, so enclosing levels may visit a closed handle again. */
  lemma {:induction false} CloseTwice(n: Node)
    ensures CloseNode(CloseNode(n)) == CloseNode(n)
    decreases n, 1
  {
    if n.Collection? {
      CloseTasksTwice(n.tasks);
    }
  }

  lemma {:induction false} CloseTasksTwice(ts: seq<Progress>)
    ensures CloseTasks(CloseTasks(ts)) == CloseTasks(ts)
    decreases ts, 0
  {
    if ts != [] {
      assert ts[0].node < ts[0];
      CloseTwice(ts[0].node);
      CloseTasksTwice(ts[1..]);
    }
  }

  // ---------- One round ----------

  /** How many tasks a round looks at before it ends. */
  function Visited(ts: seq<Progress>, doneTotal: nat, required: nat): (v: nat)
    ensures v <= |ts|
  {
    if ts == [] then 0
    else if ts[0].done then 1 + Visited(ts[1..], doneTotal + 1, required)
    else
      match Step(ts[0]).1
      case Yielded => 1 + Visited(ts[1..], doneTotal, required)
      case Raised(_) => 1
      case Stopped(_) => if doneTotal + 1 >= required then 1 else 1 + Visited(ts[1..], doneTotal + 1, required)
  }

  /** A round iterates the visited tasks that were not done and leaves all others alone. */
  lemma {:induction false} RoundAt(ts: seq<Progress>, doneTotal: nat, required: nat, i: nat)
    requires i < |ts|
    ensures NextTasks(ts, doneTotal, required).tasks[i] ==
            if i < Visited(ts, doneTotal, required) && !ts[i].done then Step(ts[i]).0 else ts[i]
    ensures i < Visited(ts, doneTotal, required) && !ts[i].done && Step(ts[i]).1.Raised? ==>
              NextTasks(ts, doneTotal, required).end == Broken(Step(ts[i]).1.code)
  {
    if i > 0 {
      RoundAt(ts[1..], doneTotal + 1, required, i - 1);
      RoundAt(ts[1..], doneTotal, required, i - 1);
    }
  }

  /** A round that breaks was broken by a task it visited. */
  lemma {:induction false} BrokenBy(ts: seq<Progress>, doneTotal: nat, required: nat) returns (i: nat)
    requires NextTasks(ts, doneTotal, required).end.Broken?
    ensures i < Visited(ts, doneTotal, required) && !ts[i].done
    ensures Step(ts[i]).1 == Raised(NextTasks(ts, doneTotal, required).end.code)
  {
    i := 0;
    if ts[0].done || !Step(ts[0]).1.Raised? {
      i := BrokenBy(ts[1..], if ts[0].done || Step(ts[0]).1.Stopped? then doneTotal + 1 else doneTotal, required);
      i := i + 1;
    }
  }

  // ---------- Effects of one iteration on a handle anywhere in the tree ----------

  /** The hook has fired once by the time the handle is free, and not before. */
  ghost predicate Survives(v: View, w: View) {
    && w.hasClose == v.hasClose
    && (if w.parent.Null?
        then w.closes == v.closes + if v.hasClose && !v.parent.Null? then 1 else 0
        else !v.parent.Null? && w.closes == v.closes)
  }

  /**
    One iteration of a tree leaves handles under done entries alone. A handle that is still open
    afterwards either lives on with its hook unused, or is free and its hook fired exactly once.
   */
  lemma {:induction false} IterationReaches(n: Node, path: seq<nat>)
    requires LeafAt(n, path).Some?
    ensures LeafAt(NextNode(n).0, path).Some?
    ensures !Open(n, path) ==> LeafAt(NextNode(n).0, path) == LeafAt(n, path) && !Open(NextNode(n).0, path)
    ensures Open(NextNode(n).0, path) && !(n.Leaf? && NextNode(n).1.Stopped?) ==>
              Survives(LeafAt(n, path).value, LeafAt(NextNode(n).0, path).value)
    decreases path
  {
    if n.Collection? {
      var i, rest := path[0], path[1..];
      var round := NextTasks(n.tasks, 0, n.required);
      RoundAt(n.tasks, 0, n.required, i);
      if !n.tasks[i].done {
        IterationReaches(n.tasks[i].node, rest);
      }
      ClosedAt(round.tasks, i);
      CloseReaches(round.tasks[i].node, rest);
    }
  }

  // ---------- Which round breaks, and what it leaves ----------

  /** Whether a task is done after this round, as a count. */
  function Finishing(t: Progress): nat {
    if t.done || NextNode(t.node).1.Stopped? then 1 else 0
  }

  /** The round goes on behind a task: it is done, yields, or stops with too few done. */
  predicate Passed(t: Progress, doneTotal: nat, required: nat) {
    || t.done
    || NextNode(t.node).1.Yielded?
    || (NextNode(t.node).1.Stopped? && doneTotal + 1 < required)
  }

  /** The round gets to task i, which is not done. */
  predicate Reached(ts: seq<Progress>, doneTotal: nat, required: nat, i: nat) {
    && i < |ts|
    && if i == 0 then !ts[0].done
       else Passed(ts[0], doneTotal, required) && Reached(ts[1..], doneTotal + Finishing(ts[0]), required, i - 1)
  }

  /** A round behind a passed task is the round over the rest. */
  lemma PassedRound(ts: seq<Progress>, doneTotal: nat, required: nat)
    requires ts != [] && Passed(ts[0], doneTotal, required)
    ensures NextTasks(ts, doneTotal, required) ==
            Behind(AfterStep(ts[0]), NextTasks(ts[1..], doneTotal + Finishing(ts[0]), required))
  {
  }

  /** A task after an iteration in a round. */
  function AfterStep(t: Progress): Progress {
    if t.done then t
    else
      var (n, outcome) := NextNode(t.node);
      Progress(n, if outcome.Stopped? && outcome.arg.Some? then outcome.arg.value else t.returnVal, outcome.Stopped?)
  }

  /** The tasks when the round ends with task i; those behind it are not iterated. */
  function SteppedUpTo(ts: seq<Progress>, i: nat): seq<Progress>
    requires i < |ts|
  {
    [AfterStep(ts[0])] + if i == 0 then ts[1..] else SteppedUpTo(ts[1..], i - 1)
  }

  lemma {:induction false} SteppedAt(ts: seq<Progress>, i: nat, j: nat)
    requires i < |ts| && j < |ts|
    ensures |SteppedUpTo(ts, i)| == |ts|
    ensures SteppedUpTo(ts, i)[j] == if j <= i then AfterStep(ts[j]) else ts[j]
  {
    if i > 0 {
      SteppedAt(ts[1..], i - 1, if j > 0 then j - 1 else 0);
    }
  }

  /** The round ends with the first task that raises. */
  lemma {:induction false} RoundBreaks(ts: seq<Progress>, doneTotal: nat, required: nat, i: nat)
    requires Reached(ts, doneTotal, required, i) && NextNode(ts[i].node).1.Raised?
    ensures NextTasks(ts, doneTotal, required).tasks == SteppedUpTo(ts, i)
    ensures NextTasks(ts, doneTotal, required).end == Broken(NextNode(ts[i].node).1.code)
    decreases i
  {
    if i > 0 {
      PassedRound(ts, doneTotal, required);
      RoundBreaks(ts[1..], doneTotal + Finishing(ts[0]), required, i - 1);
    }
  }

  lemma {:induction false} RoundBrokenAt(ts: seq<Progress>, doneTotal: nat, required: nat) returns (i: nat)
    requires NextTasks(ts, doneTotal, required).end.Broken?
    ensures Reached(ts, doneTotal, required, i)
    ensures NextNode(ts[i].node).1 == Raised(NextTasks(ts, doneTotal, required).end.code)
  {
    i := 0;
    if ts[0].done || !NextNode(ts[0].node).1.Raised? {
      assert Passed(ts[0], doneTotal, required);
      PassedRound(ts, doneTotal, required);
      i := RoundBrokenAt(ts[1..], doneTotal + Finishing(ts[0]), required);
      i := i + 1;
    }
  }

  function Cancelled(t: Progress): Progress {
    if t.done then t else t.(node := CloseNode(t.node))
  }

  /**
    What an error leaves, exactly. The tasks up to the one that raised took their step, those behind it
    did not, and then everything that is not done was closed.
   */
  lemma ErrorResult(n: Node, i: nat)
    requires n.Collection? && Reached(n.tasks, 0, n.required, i) && NextNode(n.tasks[i].node).1.Raised?
    ensures NextNode(n).1 == NextNode(n.tasks[i].node).1
    ensures var after := NextNode(n).0;
            && after.Collection? && after.required == n.required && |after.tasks| == |n.tasks|
            && forall j | 0 <= j < |n.tasks| ::
                 after.tasks[j] == Cancelled(if j <= i then AfterStep(n.tasks[j]) else n.tasks[j])
  {
    RoundBreaks(n.tasks, 0, n.required, i);
    var round := NextTasks(n.tasks, 0, n.required);
    forall j | 0 <= j < |n.tasks|
      ensures NextNode(n).0.tasks[j] == Cancelled(if j <= i then AfterStep(n.tasks[j]) else n.tasks[j])
    {
      SteppedAt(n.tasks, i, j);
      ClosedAt(round.tasks, j);
    }
  }

  // ---------- Errors of protothreads ----------

  /**
    The protothread at the end of the path is about to answer with an error: the handle is live, the
    next answer is a failure, and at every level the round gets to the entry on the path.
   */
  ghost predicate Due(n: Node, path: seq<nat>, code: int)
    decreases path
  {
    match n
    case Leaf(v) =>
      && path == [] && v.parent.Object? && v.iterOnce.Some?
      && v.iterOnce.value(|v.calls|, v.state, v.parent.id).0 == Failure(code)
    case Collection(tasks, required) =>
      path != [] && Reached(tasks, 0, required, path[0]) && Due(tasks[path[0]].node, path[1..], code)
  }

  lemma {:induction false} DueRaises(n: Node, path: seq<nat>, code: int)
    requires Due(n, path, code)
    ensures NextNode(n).1 == Raised(code) && LeafAt(n, path).Some?
    decreases path
  {
    if n.Collection? {
      DueRaises(n.tasks[path[0]].node, path[1..], code);
      RoundBreaks(n.tasks, 0, n.required, path[0]);
    }
  }

  lemma {:induction false} RaisedWasDue(n: Node, code: int) returns (path: seq<nat>)
    requires NextNode(n).1 == Raised(code)
    ensures Due(n, path, code)
  {
    path := [];
    if n.Collection? {
      var i := RoundBrokenAt(n.tasks, 0, n.required);
      assert n.tasks[i].node < n.tasks[i];
      var rest := RaisedWasDue(n.tasks[i].node, code);
      path := [i] + rest;
      assert path[1..] == rest;
    }
  }

  ghost predicate LeafDue(n: Node, path: seq<nat>, code: int) {
    LeafAt(n, path).Some? && Due(n, path, code)
  }

  /** The outermost iteration raises an error exactly if a protothread that it gets to answers with it. */
  lemma RaisesIffDue(n: Node, code: int)
    ensures NextNode(n).1 == Raised(code) <==> exists path :: LeafDue(n, path, code)
  {
    if NextNode(n).1 == Raised(code) {
      var path := RaisedWasDue(n, code);
      DueRaises(n, path, code);
      assert LeafDue(n, path, code);
    }
    forall path | LeafDue(n, path, code) ensures NextNode(n).1 == Raised(code) {
      DueRaises(n, path, code);
    }
  }

  /**
    Nested cancellation. When a protothread anywhere in the tree answers with an error, the outermost
    iteration raises it, and every handle that can be reached through entries that are not done ends
    free, its close hook fired exactly once if there was anything to close. Handles under entries that
    were done are untouched.
   */
  lemma NestedCancellation(n: Node, culprit: seq<nat>, code: int, path: seq<nat>)
    requires n.Collection? && Due(n, culprit, code)
    requires LeafAt(n, path).Some?
    ensures NextNode(n).1 == Raised(code)
    ensures LeafAt(NextNode(n).0, path).Some?
    ensures var v, w := LeafAt(n, path).value, LeafAt(NextNode(n).0, path).value;
            && (!Open(n, path) ==> w == v)
            && (Open(NextNode(n).0, path) ==>
                  Open(n, path) && w.parent.Null? && w.closes == v.closes + if v.hasClose && !v.parent.Null? then 1 else 0)
    ensures CloseNode(NextNode(n).0) == NextNode(n).0
  {
    DueRaises(n, culprit, code);
    IterationReaches(n, path);
    var round := NextTasks(n.tasks, 0, n.required);
    var broken := Collection(round.tasks, n.required);
    assert NextNode(n).0 == CloseNode(broken);
    CloseTwice(broken);
    RoundAt(n.tasks, 0, n.required, path[0]);
    ClosedAt(round.tasks, path[0]);
    if !n.tasks[path[0]].done {
      IterationReaches(n.tasks[path[0]].node, path[1..]);
    }
    CloseReaches(broken, path);
  }

  /** A task that finished in the very round that was broken keeps what its own iteration left. */
  lemma FinishedTasksAreUntouched(n: Node, i: nat)
    requires n.Collection? && i < |n.tasks|
    requires NextNode(n).0.tasks[i].done && !n.tasks[i].done
    ensures NextNode(n).0.tasks[i].node == NextNode(n.tasks[i].node).0
    ensures NextNode(n.tasks[i].node).1.Stopped?
  {
    RoundAt(n.tasks, 0, n.required, i);
    ClosedAt(NextTasks(n.tasks, 0, n.required).tasks, i);
  }

  // ---------- An error of any leaf reaches the top ----------

  /** The protothread of the leaf was called in this iteration and answered with an error. */
  ghost predicate LeafRaised(n: Node, after: Node, path: seq<nat>, code: int) {
    && LeafAt(n, path).Some? && LeafAt(after, path).Some?
    && var before, now := LeafAt(n, path).value.calls, LeafAt(after, path).value.calls;
    && |now| == |before| + 1
    && now[|before|].answer == Failure(code)
  }

  lemma {:induction false} LeafErrorReachesTop(n: Node, path: seq<nat>, code: int)
    requires LeafRaised(n, NextNode(n).0, path, code)
    ensures NextNode(n).1 == Raised(code)
    decreases path
  {
    if n.Collection? {
      var i, rest := path[0], path[1..];
      var round := NextTasks(n.tasks, 0, n.required);
      RoundAt(n.tasks, 0, n.required, i);
      if !n.tasks[i].done {
        IterationReaches(n.tasks[i].node, rest);
      }
      ClosedAt(round.tasks, i);
      CloseReaches(round.tasks[i].node, rest);
      LeafErrorReachesTop(n.tasks[i].node, rest, code);
    }
  }

  lemma {:induction false} TopErrorHasLeaf(n: Node) returns (path: seq<nat>)
    requires NextNode(n).1.Raised?
    ensures LeafRaised(n, NextNode(n).0, path, NextNode(n).1.code)
  {
    path := [];
    if n.Collection? {
      var round := NextTasks(n.tasks, 0, n.required);
      var i := BrokenBy(n.tasks, 0, n.required);
      assert n.tasks[i].node < n.tasks[i];
      var rest := TopErrorHasLeaf(n.tasks[i].node);
      RoundAt(n.tasks, 0, n.required, i);
      ClosedAt(round.tasks, i);
      CloseReaches(round.tasks[i].node, rest);
      path := [i] + rest;
      assert path[1..] == rest;
    }
  }

  /** The outermost iteration raises an error exactly if some leaf raised it in this iteration. */
  lemma RaisesIffLeafRaises(n: Node, code: int)
    ensures NextNode(n).1 == Raised(code) <==> exists path :: LeafRaised(n, NextNode(n).0, path, code)
  {
    if NextNode(n).1 == Raised(code) {
      var path := TopErrorHasLeaf(n);
    }
    if path :| LeafRaised(n, NextNode(n).0, path, code) {
      LeafErrorReachesTop(n, path, code);
    }
  }

  // ---------- Whole lives of a tree ----------

  datatype Use = Iterate | Close

  function Used(n: Node, us: seq<Use>): Node {
    if us == [] then n
    else
      var m := Used(n, us[..|us| - 1]);
      if us[|us| - 1].Iterate? then NextNode(m).0 else CloseNode(m)
  }

  /** Once free, a handle stays free and silent; its hook fires only as it becomes free. */
  ghost predicate Ages(v: View, w: View) {
    && w.hasClose == v.hasClose
    && (v.parent.Null? ==> w.parent.Null? && w.closes == v.closes)
    && (w.closes == v.closes || (w.closes == v.closes + 1 && w.parent.Null? && v.hasClose))
  }

  lemma {:induction false} IterationAges(n: Node, path: seq<nat>)
    requires LeafAt(n, path).Some?
    ensures LeafAt(NextNode(n).0, path).Some?
    ensures Ages(LeafAt(n, path).value, LeafAt(NextNode(n).0, path).value)
    decreases path
  {
    if n.Collection? {
      var i, rest := path[0], path[1..];
      var round := NextTasks(n.tasks, 0, n.required);
      RoundAt(n.tasks, 0, n.required, i);
      IterationAges(n.tasks[i].node, rest);
      ClosedAt(round.tasks, i);
      CloseReaches(round.tasks[i].node, rest);
    }
  }

  /** However a tree is iterated and closed, each close hook in it fires at most once. */
  lemma {:induction false} HooksFireAtMostOnce(n: Node, us: seq<Use>, path: seq<nat>)
    requires LeafAt(n, path).Some?
    ensures LeafAt(Used(n, us), path).Some?
    ensures Ages(LeafAt(n, path).value, LeafAt(Used(n, us), path).value)
  {
    if us != [] {
      var m := Used(n, us[..|us| - 1]);
      HooksFireAtMostOnce(n, us[..|us| - 1], path);
      IterationAges(m, path);
      CloseReaches(m, path);
    }
  }
}
