/** How long the module runs, what its workers print, and when it does not come to an end. */
module WorkerTermination {
  import opened Arithmetic
  import opened Sequences
  import opened WorkerProtocol

  /** The rounds of a worker's loop with `left` time remaining; none end if the time does not shrink. */
  function Rounds(left: int, delay: int): (n: nat)
    decreases left
  {
    if left <= 0 || delay <= 0 then 0 else 1 + Rounds(left - delay, delay)
  }

  predicate Ends(task: Task) {
    task.total <= 0 || task.delay > 0
  }

  /** The number of rounds is the total time over the delay, rounded up. */
  lemma {:induction false} RoundsIsCeiling(total: int, delay: int)
    requires total > 0 && delay > 0
    ensures (Rounds(total, delay) - 1) * delay < total <= Rounds(total, delay) * delay
    decreases total
  {
    if total > delay {
      RoundsIsCeiling(total - delay, delay);
    }
  }

  lemma RoundsAre(task: Task)
    requires task.total <= 0 || task.delay > 0
    ensures Rounds(task.total, task.delay)
         == if task.total <= 0 then 0 else (task.total + task.delay - 1) / task.delay
  {
    if task.total > 0 {
      RoundsIsCeiling(task.total, task.delay);
      DividedUp(task.total, task.delay, Rounds(task.total, task.delay));
    }
  }

  /** The loop of one worker by itself: the number of messages it prints. */
  method ThreadFunc(task: Task) returns (printed: nat)
    requires task.total <= 0 || task.delay > 0
    ensures printed == if task.total <= 0 then 0 else (task.total + task.delay - 1) / task.delay
  {
    RoundsAre(task);
    var remaining := task.total;
    printed := 0;
    while remaining > 0
      invariant printed + Rounds(remaining, task.delay) == Rounds(task.total, task.delay)
      invariant remaining > 0 ==> task.delay > 0
      decreases remaining
    {
      printed := printed + 1;
      remaining := remaining - task.delay;
    }
  }

  // ---------- what is left to do ----------

  function RoundsLeft(task: Task, pc: Pc): (n: nat) {
    match pc
    case Begin => Rounds(task.total, task.delay)
    case Test(left) => Rounds(left, task.delay)
    case Asleep(left) => Rounds(left, task.delay)
    case Printed(left) => Rounds(left - task.delay, task.delay)
    case Loaded(_) => 0
    case Finished => 0
  }

  /** Where a worker can be: one whose time shrinks gets to the end, the other stays in its loop. */
  predicate Plausible(task: Task, pc: Pc) {
    if Ends(task) then
      (pc.Asleep? || pc.Printed? ==> pc.left > 0 && task.delay > 0) && (pc.Test? && task.delay <= 0 ==> pc.left <= 0)
    else pc.Begin? || ((pc.Test? || pc.Asleep? || pc.Printed?) && pc.left > 0)
  }

  function PcCost(task: Task, pc: Pc): (n: nat) {
    3 * RoundsLeft(task, pc) +
    match pc
    case Begin => 3
    case Test(_) => 2
    case Asleep(_) => 1
    case Printed(_) => 3
    case Loaded(_) => 1
    case Finished => 0
  }

  function NextPc(d: Descriptor, pc: Pc): (next: Pc) {
    match pc
    case Begin => Test(d.task.total)
    case Test(left) => if left > 0 then Asleep(left) else Loaded(d.completion)
    case Asleep(left) => Printed(left)
    case Printed(left) => Test(left - d.task.delay)
    case Loaded(_) => Finished
    case Finished => Finished
  }

  lemma PcStep(d: Descriptor, pc: Pc)
    requires Plausible(d.task, pc) && !pc.Finished?
    ensures Plausible(d.task, NextPc(d, pc))
    ensures Ends(d.task) ==> PcCost(d.task, NextPc(d, pc)) < PcCost(d.task, pc)
    ensures Ends(d.task) ==>
              RoundsLeft(d.task, pc) == RoundsLeft(d.task, NextPc(d, pc)) + if pc.Asleep? then 1 else 0
  {
  }

  function PcOf(workers: seq<Worker>, i: nat): (pc: Pc) {
    if i < |workers| then workers[i].pc else Begin
  }

  function WorkersCost(ts: seq<Task>, workers: seq<Worker>, n: nat): (c: nat)
    requires n <= |ts|
  {
    if n == 0 then 0 else WorkersCost(ts, workers, n - 1) + PcCost(ts[n - 1], PcOf(workers, n - 1))
  }

  function MainCost(ts: seq<Task>, s: State): (c: int) {
    var n := |ts|;
    match s.main
    case Adding(k) => 7 * n - k + 6
    case Spawning(k) => 6 * n - 2 * k + 5
    case Recording(k, _) => 6 * n - 2 * k + 4
    case Waiting(k) => 4 * n - k + 4
    case FreeingTasks => |s.taskList| + |s.completionList| + |s.threadList| + 3
    case FreeingCompletions => |s.completionList| + |s.threadList| + 2
    case FreeingThreads => |s.threadList| + 1
    case Gone => 0
  }

  function Cost(ts: seq<Task>, s: State): (c: int) {
    MainCost(ts, s) + WorkersCost(ts, s.workers, |ts|)
  }

  // ---------- what has been printed ----------

  function CountOf(log: seq<Line>, i: nat): (n: nat) {
    if log == [] then 0
    else CountOf(log[..|log| - 1], i) + if log[|log| - 1].worker == i then 1 else 0
  }

  /** Every worker is where it can be, has printed the rounds it has behind it, and only its own message. */
  ghost predicate Accounted(ts: seq<Task>, s: State) {
    && |s.workers| <= |ts|
    && (forall i | 0 <= i < |ts| :: Plausible(ts[i], PcOf(s.workers, i)))
    && (forall i | 0 <= i < |ts| && Ends(ts[i]) ::
          CountOf(s.log, i) + RoundsLeft(ts[i], PcOf(s.workers, i)) == Rounds(ts[i].total, ts[i].delay))
    && (forall l | l in s.log :: l.worker < |ts| && l.delay == ts[l.worker].delay && l.message == ts[l.worker].message)
  }

  lemma WorkerStepIs(ts: seq<Task>, s: State, i: nat)
    requires Invariant(ts, s) && Enabled(ts, s, Work(i))
    ensures Safe(s, Work(i)) && i < |ts| && i < |s.workers|
    ensures var t, w := Step(ts, s, Work(i)), s.workers[i];
            var d := if w.pc.Loaded? then Descriptor(ts[i], 0) else s.tasks[w.task];
            && d.task == ts[i] && t.main == s.main
            && t.taskList == s.taskList && t.completionList == s.completionList && t.threadList == s.threadList
            && t.workers == s.workers[i := w.(pc := NextPc(d, w.pc))]
            && t.log == s.log + if w.pc.Asleep? then [Line(i, ts[i].delay, ts[i].message)] else []
  {
    hide Elements, Distinct, Signalled;
    StepIsSafe(ts, s, Work(i));
    assert !Freeing(s.main) && s.workers[i].task == s.taskList[i];
    assert s.log + [] == s.log;
  }

  lemma MainStepIs(ts: seq<Task>, s: State, a: Addr, b: Addr)
    requires Invariant(ts, s) && Enabled(ts, s, Main(a, b))
    ensures var t := Step(ts, s, Main(a, b));
            && t.log == s.log && (forall i: nat | i < |ts| :: PcOf(t.workers, i) == PcOf(s.workers, i))
            && |t.workers| <= |ts| && MainCost(ts, t) < MainCost(ts, s)
  {
    hide Elements, Distinct, Aligned, Holding, Signalled, Safe;
    StepIsSafe(ts, s, Main(a, b));
    if !Freeing(s.main) {
      AlignedLengths(ts, s);
    }
  }

  /** If all lines of a worker are the same, they are counted as that line. */
  lemma {:induction false} CountIs(log: seq<Line>, line: Line)
    requires forall l | l in log && l.worker == line.worker :: l == line
    ensures CountOf(log, line.worker) == multiset(log)[line]
  {
    if log != [] {
      CountIs(log[..|log| - 1], line);
      assert log == log[..|log| - 1] + [log[|log| - 1]];
    }
  }

  lemma CountAppended(log: seq<Line>, l: Line, i: nat)
    ensures CountOf(log + [l], i) == CountOf(log, i) + if l.worker == i then 1 else 0
  {
    assert (log + [l])[..|log|] == log;
  }

  lemma WorkerAccounts(ts: seq<Task>, s: State, i: nat)
    requires Invariant(ts, s) && Accounted(ts, s) && Enabled(ts, s, Work(i))
    ensures Accounted(ts, Step(ts, s, Work(i)))
  {
    hide Invariant, Plausible, RoundsLeft;
    WorkerStepIs(ts, s, i);
    var t, w := Step(ts, s, Work(i)), s.workers[i];
    var d := if w.pc.Loaded? then Descriptor(ts[i], 0) else s.tasks[w.task];
    assert PcOf(s.workers, i) == w.pc;
    PcStep(d, w.pc);
    forall j: nat | j < |ts|
      ensures Plausible(ts[j], PcOf(t.workers, j))
      ensures Ends(ts[j]) ==>
                CountOf(t.log, j) + RoundsLeft(ts[j], PcOf(t.workers, j)) == Rounds(ts[j].total, ts[j].delay)
    {
      if w.pc.Asleep? {
        CountAppended(s.log, Line(i, ts[i].delay, ts[i].message), j);
      } else {
        assert t.log == s.log;
      }
      assert j != i ==> PcOf(t.workers, j) == PcOf(s.workers, j);
    }
  }

  lemma StepAccounts(ts: seq<Task>, s: State, act: Action)
    requires Invariant(ts, s) && Accounted(ts, s) && Enabled(ts, s, act)
    ensures Accounted(ts, Step(ts, s, act))
  {
    match act
    case Work(i) => WorkerAccounts(ts, s, i);
    case Main(a, b) =>
      hide Invariant, Step, Plausible;
      MainStepIs(ts, s, a, b);
  }

  // ---------- every run comes to an end ----------

  lemma {:induction false} CostChanged(ts: seq<Task>, v: seq<Worker>, w: seq<Worker>, i: nat, n: nat)
    requires n <= |ts| && forall j: nat | j < n && j != i :: PcOf(v, j) == PcOf(w, j)
    requires i < n ==> PcCost(ts[i], PcOf(w, i)) < PcCost(ts[i], PcOf(v, i))
    ensures if i < n then WorkersCost(ts, w, n) < WorkersCost(ts, v, n)
            else WorkersCost(ts, w, n) == WorkersCost(ts, v, n)
  {
    if n > 0 {
      CostChanged(ts, v, w, i, n - 1);
    }
  }

  /** Each step leaves less to do. */
  lemma StepDrops(ts: seq<Task>, s: State, act: Action)
    requires Invariant(ts, s) && Accounted(ts, s) && Enabled(ts, s, act) && forall t | t in ts :: Ends(t)
    ensures Cost(ts, Step(ts, s, act)) < Cost(ts, s)
  {
    hide Invariant, Plausible, PcCost;
    var t := Step(ts, s, act);
    match act
    case Work(i) =>
      WorkerStepIs(ts, s, i);
      var w := s.workers[i];
      var d := if w.pc.Loaded? then Descriptor(ts[i], 0) else s.tasks[w.task];
      assert PcOf(s.workers, i) == w.pc && ts[i] in ts;
      PcStep(d, w.pc);
      CostChanged(ts, s.workers, t.workers, i, |ts|);
      assert MainCost(ts, t) == MainCost(ts, s);
    case Main(a, b) =>
      hide Step;
      MainStepIs(ts, s, a, b);
      CostChanged(ts, s.workers, t.workers, |ts|, |ts|);
  }

  lemma CostIsNat(ts: seq<Task>, s: State)
    requires Invariant(ts, s)
    ensures Cost(ts, s) >= 0
  {
    hide Elements, Distinct, Aligned, Holding, Signalled;
    if !Freeing(s.main) {
      AlignedLengths(ts, s);
    }
  }

  lemma {:induction false} RunIsShort(ts: seq<Task>, s: State, acts: seq<Action>)
    requires Invariant(ts, s) && Accounted(ts, s) && IsRun(ts, s, acts) && forall t | t in ts :: Ends(t)
    ensures |acts| <= Cost(ts, s)
    ensures Invariant(ts, After(ts, s, acts)) && Accounted(ts, After(ts, s, acts))
    decreases acts
  {
    hide Invariant, Accounted, Cost;
    if acts == [] {
      CostIsNat(ts, s);
    } else {
      StepKeeps(ts, s, acts[0]);
      StepAccounts(ts, s, acts[0]);
      StepDrops(ts, s, acts[0]);
      RunIsShort(ts, Step(ts, s, acts[0]), acts[1..]);
    }
  }

  lemma InitialIsFine(ts: seq<Task>)
    ensures Invariant(ts, INITIAL) && Accounted(ts, INITIAL)
  {
    assert Elements(INITIAL.taskList) == {} && Elements(INITIAL.threadList) == {};
  }

  /** With delays that shrink the time, no interleaving runs for longer than the tasks allow. */
  lemma Terminates(ts: seq<Task>, acts: seq<Action>)
    requires IsRun(ts, INITIAL, acts) && forall t | t in ts :: Ends(t)
    ensures |acts| <= Cost(ts, INITIAL)
  {
    InitialIsFine(ts);
    RunIsShort(ts, INITIAL, acts);
  }

  // ---------- no thread blocks for good ----------

  lemma {:induction false} Above(used: set<Addr>) returns (a: Addr)
    ensures forall x | x in used :: x < a
    decreases used
  {
    a := 0;
    if used != {} {
      var x :| x in used;
      a := Above(used - {x});
      assert forall y | y in used :: y == x || y in used - {x};
      a := if x < a then a else x + 1;
    }
  }

  /** As long as the main thread is not through, someone can move. */
  lemma NeverStuck(ts: seq<Task>, s: State) returns (act: Action)
    requires Invariant(ts, s) && !s.main.Gone?
    ensures Enabled(ts, s, act)
  {
    var a := Above(s.tasks.Keys + s.threads);
    var b := Above(s.completions.Keys);
    act := Main(a, b);
    if s.main.Waiting? && !Enabled(ts, s, act) {
      act := Work(s.main.k);
      WaitingForWorker(ts, s);
    }
  }

  lemma WaitingForWorker(ts: seq<Task>, s: State)
    requires Invariant(ts, s) && s.main.Waiting? && s.main.k < |s.completionList|
    requires s.completionList[s.main.k] in s.completions && s.completions[s.completionList[s.main.k]] <= 0
    ensures s.main.k < |s.workers| && !s.workers[s.main.k].pc.Finished?
  {
  }

  /** A run that cannot go on has waited for everyone and freed everything, and worker `i` has printed its
      message as often as its delay fits into its total time, rounded up; nothing else has been printed. */
  lemma Completes(ts: seq<Task>, acts: seq<Action>)
    requires IsRun(ts, INITIAL, acts) && forall t | t in ts :: t.total <= 0 || t.delay > 0
    requires forall act :: !Enabled(ts, After(ts, INITIAL, acts), act)
    ensures var s := After(ts, INITIAL, acts);
            && s.main.Gone? && |s.workers| == |ts| && (forall i | 0 <= i < |ts| :: s.workers[i].pc.Finished?)
            && s.tasks.Keys == {} && s.completions.Keys == {} && s.threads == {}
            && (forall i | 0 <= i < |ts| ::
                  multiset(s.log)[Line(i, ts[i].delay, ts[i].message)]
                  == if ts[i].total <= 0 then 0 else (ts[i].total + ts[i].delay - 1) / ts[i].delay)
            && (forall l | l in s.log ::
                  l.worker < |ts| && l == Line(l.worker, ts[l.worker].delay, ts[l.worker].message))
  {
    assert forall t | t in ts :: Ends(t);
    InitialIsFine(ts);
    RunIsShort(ts, INITIAL, acts);
    var s := After(ts, INITIAL, acts);
    if !s.main.Gone? {
      var act := NeverStuck(ts, s);
    }
    forall i | 0 <= i < |ts|
      ensures multiset(s.log)[Line(i, ts[i].delay, ts[i].message)]
           == if ts[i].total <= 0 then 0 else (ts[i].total + ts[i].delay - 1) / ts[i].delay
    {
      assert ts[i] in ts && PcOf(s.workers, i).Finished?;
      CountIs(s.log, Line(i, ts[i].delay, ts[i].message));
      RoundsAre(ts[i]);
    }
  }

  // ---------- what happens otherwise ----------

  lemma {:induction false} RunAccounts(ts: seq<Task>, s: State, acts: seq<Action>)
    requires Invariant(ts, s) && Accounted(ts, s) && IsRun(ts, s, acts)
    ensures Invariant(ts, After(ts, s, acts)) && Accounted(ts, After(ts, s, acts))
    decreases acts
  {
    hide Invariant, Accounted;
    if acts != [] {
      StepKeeps(ts, s, acts[0]);
      StepAccounts(ts, s, acts[0]);
      RunAccounts(ts, Step(ts, s, acts[0]), acts[1..]);
    }
  }

  /** With one task whose time does not shrink, the main thread never gets past waiting for it. */
  lemma StaysWaiting(ts: seq<Task>, i: nat, acts: seq<Action>)
    requires i < |ts| && !Ends(ts[i]) && IsRun(ts, INITIAL, acts)
    ensures !Freeing(After(ts, INITIAL, acts).main)
  {
    InitialIsFine(ts);
    RunAccounts(ts, INITIAL, acts);
    var s := After(ts, INITIAL, acts);
    assert Plausible(ts[i], PcOf(s.workers, i));
  }

  lemma RunAppended(ts: seq<Task>, s: State, acts: seq<Action>, act: Action)
    requires IsRun(ts, s, acts) && Enabled(ts, After(ts, s, acts), act)
    ensures IsRun(ts, s, acts + [act])
    decreases acts
  {
    if acts != [] {
      RunAppended(ts, Step(ts, s, acts[0]), acts[1..], act);
      assert (acts + [act])[1..] == acts[1..] + [act];
    } else {
      assert (acts + [act])[1..] == [];
    }
  }

  /** So the module runs for ever: there are runs of any length. */
  lemma {:induction false} RunsForEver(ts: seq<Task>, i: nat, n: nat) returns (acts: seq<Action>)
    requires i < |ts| && !Ends(ts[i])
    ensures |acts| == n && IsRun(ts, INITIAL, acts)
  {
    if n == 0 {
      acts := [];
    } else {
      acts := RunsForEver(ts, i, n - 1);
      StaysWaiting(ts, i, acts);
      InitialIsFine(ts);
      RunAccounts(ts, INITIAL, acts);
      var act := NeverStuck(ts, After(ts, INITIAL, acts));
      RunAppended(ts, INITIAL, acts, act);
      acts := acts + [act];
    }
  }

  /** No run has more steps than that. */
  ghost predicate Bounded(ts: seq<Task>, n: nat) {
    forall acts | IsRun(ts, INITIAL, acts) :: |acts| <= n
  }

  /** The module comes to an end, whatever the interleaving, if and only if each task has a positive delay or no time to
      run. */
  lemma AllRunsEndIff(ts: seq<Task>)
    ensures (exists n: nat :: Bounded(ts, n)) <==> forall t | t in ts :: t.delay > 0 || t.total <= 0
  {
    if forall t | t in ts :: Ends(t) {
      InitialIsFine(ts);
      CostIsNat(ts, INITIAL);
      forall acts | IsRun(ts, INITIAL, acts) ensures |acts| <= Cost(ts, INITIAL) {
        Terminates(ts, acts);
      }
      assert Bounded(ts, Cost(ts, INITIAL));
    } else {
      var i: nat :| i < |ts| && !Ends(ts[i]);
      forall n: nat ensures !Bounded(ts, n) {
        var acts := RunsForEver(ts, i, n + 1);
      }
    }
  }

  /** A task of one unit of time with delay 0. */
  lemma DelayZeroExample(n: nat) returns (acts: seq<Action>)
    ensures |acts| == n && IsRun([Task("tick", 0, 1)], INITIAL, acts)
    ensures !Freeing(After([Task("tick", 0, 1)], INITIAL, acts).main)
  {
    var ts := [Task("tick", 0, 1)];
    acts := RunsForEver(ts, 0, n);
    StaysWaiting(ts, 0, acts);
  }
}
