/** The main thread of the module and its workers, as steps that interleave in any order.

The main thread builds the lists, starts one worker for each task, waits for the completions in list order
and then frees everything.  A worker reads its task descriptor in every round of its loop and signals the
completion the descriptor points to.  An address is live from its allocation until it is freed; a step that
would touch an address that is not live crashes the machine.  Allocations and thread starts succeed.  */
module WorkerProtocol {
  import opened Sequences

  type Addr = nat

  datatype Task = Task(message: string, delay: int, total: int)

  datatype Descriptor = Descriptor(task: Task, completion: Addr)

  /** Where a worker is in its function; `left` is its remaining time. */
  datatype Pc = Begin | Test(left: int) | Asleep(left: int) | Printed(left: int) | Loaded(completion: Addr) | Finished

  datatype Worker = Worker(task: Addr, pc: Pc)

  datatype MainPc =
    | Adding(k: nat)
    | Spawning(k: nat)
    | Recording(k: nat, thread: Addr)
    | Waiting(k: nat)
    | FreeingTasks
    | FreeingCompletions
    | FreeingThreads
    | Gone

  datatype Line = Line(worker: nat, delay: int, message: string)

  datatype State = State(
    main: MainPc,
    tasks: map<Addr, Descriptor>,
    completions: map<Addr, int>,
    threads: set<Addr>,
    taskList: seq<Addr>,
    completionList: seq<Addr>,
    threadList: seq<Addr>,
    workers: seq<Worker>,
    log: seq<Line>,
    crashed: bool)

  const INITIAL := State(Adding(0), map[], map[], {}, [], [], [], [], [], false)

  /** Whose turn it is; the main thread comes with the addresses its allocations return. */
  datatype Action = Main(a: Addr, b: Addr) | Work(i: nat)

  // ---------- what a step touches ----------

  /** The task descriptors a step reads, writes or frees.  Taking an item off a list writes its successor. */
  function TouchedTasks(s: State, act: Action): (r: set<Addr>) {
    match act
    case Work(i) =>
      if i < |s.workers| && !s.workers[i].pc.Loaded? && !s.workers[i].pc.Finished? then {s.workers[i].task} else {}
    case Main(_, _) =>
      match s.main
      case Adding(_) => if s.taskList == [] then {} else {s.taskList[|s.taskList| - 1]}
      case Spawning(k) => if k < |s.taskList| then {s.taskList[k]} else {}
      case Recording(k, _) => if k < |s.taskList| then {s.taskList[k]} else {}
      case FreeingTasks => Elements(s.taskList[..if |s.taskList| < 2 then |s.taskList| else 2])
      case _ => {}
  }

  function TouchedCompletions(s: State, act: Action): (r: set<Addr>) {
    match act
    case Work(i) => if i < |s.workers| && s.workers[i].pc.Loaded? then {s.workers[i].pc.completion} else {}
    case Main(_, _) =>
      match s.main
      case Adding(_) => if s.completionList == [] then {} else {s.completionList[|s.completionList| - 1]}
      case Waiting(k) => if k < |s.completionList| then {s.completionList[k]} else {}
      case FreeingCompletions => Elements(s.completionList[..if |s.completionList| < 2 then |s.completionList| else 2])
      case _ => {}
  }

  function TouchedThreads(s: State, act: Action): (r: set<Addr>) {
    if act.Work? then {} else
      match s.main
      case Recording(_, t) => {t} + if s.threadList == [] then {} else {s.threadList[|s.threadList| - 1]}
      case FreeingThreads => Elements(s.threadList[..if |s.threadList| < 2 then |s.threadList| else 2])
      case _ => {}
  }

  predicate Safe(s: State, act: Action) {
    && TouchedTasks(s, act) <= s.tasks.Keys
    && TouchedCompletions(s, act) <= s.completions.Keys
    && TouchedThreads(s, act) <= s.threads
  }

  /** What a safe step may rely on, phase by phase. */
  lemma SafeMeans(s: State, act: Action)
    requires Safe(s, act)
    ensures act.Work? && act.i < |s.workers| ==>
              var w := s.workers[act.i];
              && (!w.pc.Loaded? && !w.pc.Finished? ==> w.task in s.tasks)
              && (w.pc.Loaded? ==> w.pc.completion in s.completions)
    ensures act.Main? && s.main.Adding? ==>
              && (s.taskList != [] ==> s.taskList[|s.taskList| - 1] in s.tasks)
              && (s.completionList != [] ==> s.completionList[|s.completionList| - 1] in s.completions)
    ensures act.Main? && (s.main.Spawning? || s.main.Recording?) && s.main.k < |s.taskList| ==>
              s.taskList[s.main.k] in s.tasks
    ensures act.Main? && s.main.Recording? ==>
              s.main.thread in s.threads && (s.threadList != [] ==> s.threadList[|s.threadList| - 1] in s.threads)
    ensures act.Main? && s.main.Waiting? && s.main.k < |s.completionList| ==>
              s.completionList[s.main.k] in s.completions
    ensures act.Main? && s.main.FreeingTasks? && s.taskList != [] ==> s.taskList[0] in s.tasks
    ensures act.Main? && s.main.FreeingCompletions? && s.completionList != [] ==> s.completionList[0] in s.completions
    ensures act.Main? && s.main.FreeingThreads? && s.threadList != [] ==> s.threadList[0] in s.threads
  {
  }

  // ---------- steps ----------

  /** A thread that is not at its end can go on, except that the main thread waits for a completion that has
      not been signalled; an allocation returns an address that is not live. */
  predicate Enabled(ts: seq<Task>, s: State, act: Action) {
    match act
    case Work(i) => i < |s.workers| && !s.workers[i].pc.Finished?
    case Main(a, b) =>
      match s.main
      case Adding(k) => k < |ts| ==> a !in s.tasks && b !in s.completions
      case Spawning(k) => k < |s.taskList| ==> a !in s.threads
      case Waiting(k) =>
        k < |s.completionList| && s.completionList[k] in s.completions ==> s.completions[s.completionList[k]] > 0
      case Gone => false
      case _ => true
  }

  /** The main thread waits for nothing but signals, and a worker for nothing. */
  lemma EnabledIff(ts: seq<Task>, s: State, i: nat, a: Addr, b: Addr)
    ensures Enabled(ts, s, Work(i)) <==> i < |s.workers| && s.workers[i].pc != Finished
    ensures Enabled(ts, s, Main(a, b)) <==>
              && s.main != Gone
              && (s.main.Adding? && s.main.k < |ts| ==> a !in s.tasks && b !in s.completions)
              && (s.main.Spawning? && s.main.k < |s.taskList| ==> a !in s.threads)
              && (s.main.Waiting? && s.main.k < |s.completionList| && s.completionList[s.main.k] in s.completions ==>
                    s.completions[s.completionList[s.main.k]] > 0)
  {
  }

  function WorkerStep(s: State, i: nat): (t: State)
    requires i < |s.workers| && Safe(s, Work(i))
  {
    var w := s.workers[i];
    match w.pc
    case Begin => s.(workers := s.workers[i := w.(pc := Test(s.tasks[w.task].task.total))])
    case Test(left) =>
      s.(workers := s.workers[i := w.(pc := if left > 0 then Asleep(left) else Loaded(s.tasks[w.task].completion))])
    case Asleep(left) =>
      var task := s.tasks[w.task].task;
      s.(workers := s.workers[i := w.(pc := Printed(left))], log := s.log + [Line(i, task.delay, task.message)])
    case Printed(left) => s.(workers := s.workers[i := w.(pc := Test(left - s.tasks[w.task].task.delay))])
    case Loaded(c) =>
      s.(workers := s.workers[i := w.(pc := Finished)], completions := s.completions[c := s.completions[c] + 1])
    case Finished => s
  }

  function MainStep(ts: seq<Task>, s: State, a: Addr, b: Addr): (t: State)
    requires Safe(s, Main(a, b))
  {
    match s.main
    case Adding(k) =>
      if k < |ts| then
        s.(main := Adding(k + 1), tasks := s.tasks[a := Descriptor(ts[k], b)], completions := s.completions[b := 0],
           taskList := s.taskList + [a], completionList := s.completionList + [b])
      else s.(main := Spawning(0))
    case Spawning(k) =>
      if k < |s.taskList| then
        s.(main := Recording(k, a), threads := s.threads + {a}, workers := s.workers + [Worker(s.taskList[k], Begin)])
      else s.(main := Waiting(0))
    case Recording(k, t) => s.(main := Spawning(k + 1), threadList := s.threadList + [t])
    case Waiting(k) =>
      if k < |s.completionList| then
        var c := s.completionList[k];
        s.(main := Waiting(k + 1), completions := s.completions[c := s.completions[c] - 1])
      else s.(main := FreeingTasks)
    case FreeingTasks =>
      if s.taskList == [] then s.(main := FreeingCompletions)
      else s.(tasks := s.tasks - {s.taskList[0]}, taskList := s.taskList[1..])
    case FreeingCompletions =>
      if s.completionList == [] then s.(main := FreeingThreads)
      else s.(completions := s.completions - {s.completionList[0]}, completionList := s.completionList[1..])
    case FreeingThreads =>
      if s.threadList == [] then s.(main := Gone)
      else s.(threads := s.threads - {s.threadList[0]}, threadList := s.threadList[1..])
    case Gone => s
  }

  function Step(ts: seq<Task>, s: State, act: Action): (t: State) {
    if !Safe(s, act) then s.(crashed := true)
    else match act
      case Work(i) => if i < |s.workers| then WorkerStep(s, i) else s
      case Main(a, b) => MainStep(ts, s, a, b)
  }

  predicate IsRun(ts: seq<Task>, s: State, acts: seq<Action>)
    decreases acts
  {
    acts != [] ==> Enabled(ts, s, acts[0]) && IsRun(ts, Step(ts, s, acts[0]), acts[1..])
  }

  function After(ts: seq<Task>, s: State, acts: seq<Action>): (t: State)
    decreases acts
  {
    if acts == [] then s else After(ts, Step(ts, s, acts[0]), acts[1..])
  }

  // ---------- the invariant ----------

  function WaitedFor(s: State): (k: nat) {
    match s.main
    case Waiting(k) => k
    case Adding(_) => 0
    case Spawning(_) => 0
    case Recording(_, _) => 0
    case _ => |s.workers|
  }

  /** The task list and the completion list run in step: item by item, the descriptor's completion. */
  ghost predicate Aligned(ts: seq<Task>, taskList: seq<Addr>, completionList: seq<Addr>, tasks: map<Addr, Descriptor>) {
    && |taskList| == |completionList| <= |ts|
    && (forall i | 0 <= i < |taskList| ::
          taskList[i] in tasks && tasks[taskList[i]] == Descriptor(ts[i], completionList[i]))
  }

  /** What is live is what is on the list, once. */
  ghost predicate Listed(list: seq<Addr>, live: set<Addr>) {
    Distinct(list) && live == Elements(list)
  }

  ghost predicate ThreadsListed(s: State) {
    if s.main.Recording? then
      s.main.thread !in s.threadList && s.main.thread in s.threads && Listed(s.threadList, s.threads - {s.main.thread})
    else Listed(s.threadList, s.threads)
  }

  /** How far the main thread is, against the lengths of what it has built. */
  ghost predicate Phase(ts: seq<Task>, s: State) {
    match s.main
    case Adding(k) => k == |s.taskList| && s.workers == [] && s.threadList == []
    case Spawning(k) => |s.taskList| == |ts| && k == |s.workers| == |s.threadList| <= |ts|
    case Recording(k, _) => |s.taskList| == |ts| && k + 1 == |s.workers| <= |ts| && k == |s.threadList|
    case Waiting(k) => |s.taskList| == |ts| && |s.workers| == |ts| && |s.threadList| == |ts| && k <= |ts|
    case FreeingTasks => |s.workers| == |ts|
    case FreeingCompletions => |s.workers| == |ts| && s.taskList == []
    case FreeingThreads => |s.workers| == |ts| && s.taskList == [] && s.completionList == []
    case Gone => |s.workers| == |ts| && s.taskList == [] && s.completionList == [] && s.threadList == []
  }

  predicate Freeing(m: MainPc) {
    m.FreeingTasks? || m.FreeingCompletions? || m.FreeingThreads? || m.Gone?
  }

  /** Worker `i` holds task `i` and will signal completion `i`. */
  ghost predicate Holding(workers: seq<Worker>, taskList: seq<Addr>, completionList: seq<Addr>) {
    && |workers| <= |taskList| == |completionList|
    && (forall i | 0 <= i < |workers| ::
          && workers[i].task == taskList[i]
          && (workers[i].pc.Loaded? ==> workers[i].pc.completion == completionList[i]))
  }

  /** A completion has been signalled once its worker is done, and is used up once it has been waited for. */
  ghost predicate Signalled(workers: seq<Worker>, completionList: seq<Addr>, completions: map<Addr, int>, waited: nat) {
    && waited <= |workers|
    && (forall i | 0 <= i < waited :: workers[i].pc.Finished?)
    && (forall i | 0 <= i < |completionList| ::
          && completionList[i] in completions
          && completions[completionList[i]]
             == (if i < |workers| && workers[i].pc.Finished? then 1 else 0) - (if i < waited then 1 else 0))
  }

  ghost predicate AllFinished(workers: seq<Worker>) {
    forall i | 0 <= i < |workers| :: workers[i].pc.Finished?
  }

  ghost predicate Invariant(ts: seq<Task>, s: State) {
    && !s.crashed && Phase(ts, s)
    && Listed(s.taskList, s.tasks.Keys) && Listed(s.completionList, s.completions.Keys) && ThreadsListed(s)
    && if Freeing(s.main) then AllFinished(s.workers)
       else
         && Aligned(ts, s.taskList, s.completionList, s.tasks)
         && Holding(s.workers, s.taskList, s.completionList)
         && Signalled(s.workers, s.completionList, s.completions, WaitedFor(s))
  }

  // ---------- safety ----------

  lemma InList<T>(list: seq<T>, n: nat)
    requires n <= |list|
    ensures Elements(list[..n]) <= Elements(list)
    ensures forall i | 0 <= i < |list| :: list[i] in Elements(list)
  {
  }

  /** Whatever comes next, nothing that has been freed is touched: no descriptor, completion or thread record
      goes before the last access to it. */
  lemma StepIsSafe(ts: seq<Task>, s: State, act: Action)
    requires Invariant(ts, s) && Enabled(ts, s, act)
    ensures Safe(s, act)
  {
    hide Elements, Distinct, Aligned;
    InList(s.taskList, if |s.taskList| < 2 then |s.taskList| else 2);
    InList(s.completionList, if |s.completionList| < 2 then |s.completionList| else 2);
    InList(s.threadList, if |s.threadList| < 2 then |s.threadList| else 2);
    if act.Work? {
      assert !Freeing(s.main) && s.workers[act.i].task == s.taskList[act.i];
    }
  }

  lemma SignalledFinish(workers: seq<Worker>, list: seq<Addr>, completions: map<Addr, int>, waited: nat, i: nat)
    requires Signalled(workers, list, completions, waited) && Distinct(list) && |workers| <= |list|
    requires i < |workers| && !workers[i].pc.Finished?
    ensures Signalled(workers[i := workers[i].(pc := Finished)], list,
                      completions[list[i] := completions[list[i]] + 1], waited)
  {
  }

  lemma SignalledSame(workers: seq<Worker>, list: seq<Addr>, completions: map<Addr, int>, waited: nat, i: nat, pc: Pc)
    requires Signalled(workers, list, completions, waited)
    requires i < |workers| && !workers[i].pc.Finished? && !pc.Finished?
    ensures Signalled(workers[i := workers[i].(pc := pc)], list, completions, waited)
  {
  }

  lemma WorkerKeeps(ts: seq<Task>, s: State, i: nat)
    requires Invariant(ts, s) && Enabled(ts, s, Work(i)) && Safe(s, Work(i))
    ensures Invariant(ts, WorkerStep(s, i))
  {
    hide Signalled, Elements, Distinct, Safe;
    var t := WorkerStep(s, i);
    assert !Freeing(s.main) && WaitedFor(t) == WaitedFor(s) && s.workers[i].task == s.taskList[i];
    if s.workers[i].pc.Loaded? {
      SignalledFinish(s.workers, s.completionList, s.completions, WaitedFor(s), i);
      SignalledKeys(s.workers, s.completionList, s.completions, WaitedFor(s), i,
                    t.completions[s.completionList[i]]);
    } else {
      SignalledSame(s.workers, s.completionList, s.completions, WaitedFor(s), i, t.workers[i].pc);
    }
  }

  lemma SignalledKeys(workers: seq<Worker>, list: seq<Addr>, completions: map<Addr, int>, waited: nat, i: nat, c: int)
    requires Signalled(workers, list, completions, waited) && i < |list|
    ensures list[i] in completions && completions[list[i] := c].Keys == completions.Keys
  {
  }

  lemma ElementsAppended<T>(s: seq<T>, x: T)
    requires Distinct(s) && x !in s
    ensures Distinct(s + [x]) && Elements(s + [x]) == Elements(s) + {x}
  {
  }

  lemma ElementsTail<T>(s: seq<T>)
    requires Distinct(s) && s != []
    ensures Distinct(s[1..]) && Elements(s[1..]) == Elements(s) - {s[0]}
  {
    assert s == [s[0]] + s[1..];
    assert s[0] !in s[1..];
  }

  lemma AlignedAdd(ts: seq<Task>, taskList: seq<Addr>, completionList: seq<Addr>, tasks: map<Addr, Descriptor>,
                   a: Addr, b: Addr)
    requires Aligned(ts, taskList, completionList, tasks) && |taskList| < |ts| && a !in tasks
    ensures Aligned(ts, taskList + [a], completionList + [b], tasks[a := Descriptor(ts[|taskList|], b)])
  {
  }

  lemma SignalledAdd(list: seq<Addr>, completions: map<Addr, int>, b: Addr)
    requires Signalled([], list, completions, 0) && b !in completions
    ensures Signalled([], list + [b], completions[b := 0], 0)
  {
  }

  lemma AddKeeps(ts: seq<Task>, s: State, a: Addr, b: Addr)
    requires Invariant(ts, s) && Enabled(ts, s, Main(a, b)) && Safe(s, Main(a, b)) && s.main.Adding?
    ensures Invariant(ts, MainStep(ts, s, a, b))
  {
    hide Distinct, Safe, Aligned, Signalled, Elements;
    AlignedLengths(ts, s);
    if s.main.k < |ts| {
      InList(s.taskList, 0);
      InList(s.completionList, 0);
      ElementsAre(s.taskList);
      ElementsAre(s.completionList);
      ElementsAppended(s.taskList, a);
      ElementsAppended(s.completionList, b);
      AlignedAdd(ts, s.taskList, s.completionList, s.tasks, a, b);
      SignalledAdd(s.completionList, s.completions, b);
    }
  }

  lemma SpawnKeeps(ts: seq<Task>, s: State, a: Addr, b: Addr)
    requires Invariant(ts, s) && Enabled(ts, s, Main(a, b)) && Safe(s, Main(a, b)) && s.main.Spawning?
    ensures Invariant(ts, MainStep(ts, s, a, b))
  {
    hide Distinct, Safe, Aligned;
    if s.main.k < |s.taskList| {
      assert a !in s.threadList;
      assert s.threads + {a} - {a} == s.threads;
    }
  }

  lemma RecordKeeps(ts: seq<Task>, s: State, a: Addr, b: Addr)
    requires Invariant(ts, s) && Safe(s, Main(a, b)) && s.main.Recording?
    ensures Invariant(ts, MainStep(ts, s, a, b))
  {
    hide Distinct, Safe, Aligned;
    ElementsAppended(s.threadList, s.main.thread);
  }

  lemma SignalledWait(workers: seq<Worker>, list: seq<Addr>, completions: map<Addr, int>, k: nat)
    requires Signalled(workers, list, completions, k) && Distinct(list) && k < |list|
    requires list[k] in completions ==> completions[list[k]] > 0
    ensures k < |workers| && workers[k].pc.Finished?
    ensures Signalled(workers, list, completions[list[k] := completions[list[k]] - 1], k + 1)
  {
  }

  lemma WaitKeeps(ts: seq<Task>, s: State, a: Addr, b: Addr)
    requires Invariant(ts, s) && Enabled(ts, s, Main(a, b)) && Safe(s, Main(a, b)) && s.main.Waiting?
    ensures Invariant(ts, MainStep(ts, s, a, b))
  {
    hide Distinct, Safe, Aligned, Elements;
    var k := s.main.k;
    if k < |s.completionList| {
      SignalledWait(s.workers, s.completionList, s.completions, k);
      SignalledKeys(s.workers, s.completionList, s.completions, k, k, s.completions[s.completionList[k]] - 1);
    } else {
      AlignedLengths(ts, s);
    }
  }

  lemma AlignedLengths(ts: seq<Task>, s: State)
    requires Aligned(ts, s.taskList, s.completionList, s.tasks)
    ensures |s.taskList| == |s.completionList| <= |ts|
  {
  }

  lemma FreeKeeps(ts: seq<Task>, s: State, a: Addr, b: Addr)
    requires Invariant(ts, s) && Enabled(ts, s, Main(a, b)) && Safe(s, Main(a, b)) && Freeing(s.main)
    ensures Invariant(ts, MainStep(ts, s, a, b))
  {
    hide Distinct, Safe;
    if s.main.FreeingTasks? && s.taskList != [] {
      ElementsTail(s.taskList);
    } else if s.main.FreeingCompletions? && s.completionList != [] {
      ElementsTail(s.completionList);
    } else if s.main.FreeingThreads? && s.threadList != [] {
      ElementsTail(s.threadList);
    }
  }

  /** Every step keeps the lists in step with each other and with the workers. */
  lemma StepKeeps(ts: seq<Task>, s: State, act: Action)
    requires Invariant(ts, s) && Enabled(ts, s, act)
    ensures Invariant(ts, Step(ts, s, act))
  {
    hide Invariant, Safe;
    StepIsSafe(ts, s, act);
    match act
    case Work(i) => WorkerKeeps(ts, s, i);
    case Main(a, b) =>
      match s.main
      case Adding(_) => AddKeeps(ts, s, a, b);
      case Spawning(_) => SpawnKeeps(ts, s, a, b);
      case Recording(_, _) => RecordKeeps(ts, s, a, b);
      case Waiting(_) => WaitKeeps(ts, s, a, b);
      case _ => FreeKeeps(ts, s, a, b);
  }

  lemma {:induction false} RunKeeps(ts: seq<Task>, s: State, acts: seq<Action>)
    requires Invariant(ts, s) && IsRun(ts, s, acts)
    ensures Invariant(ts, After(ts, s, acts))
    decreases acts
  {
    if acts != [] {
      StepKeeps(ts, s, acts[0]);
      RunKeeps(ts, Step(ts, s, acts[0]), acts[1..]);
    }
  }

  /** In every state that any interleaving reaches, nothing has crashed and nothing can crash next. */
  lemma NeverCrashes(ts: seq<Task>, acts: seq<Action>, act: Action)
    requires IsRun(ts, INITIAL, acts) && Enabled(ts, After(ts, INITIAL, acts), act)
    ensures !After(ts, INITIAL, acts).crashed && Safe(After(ts, INITIAL, acts), act)
  {
    assert Elements(INITIAL.taskList) == {} && Elements(INITIAL.threadList) == {};
    RunKeeps(ts, INITIAL, acts);
    StepIsSafe(ts, After(ts, INITIAL, acts), act);
  }
}
