/** The shutdown protocol of `WithGracefulShutdown` in `cyper-axum/src/lib.rs`. */
module GracefulShutdown {
  import opened Prelude
  import opened Steps

  // ----- one connection task -----

  /** What completes in a connection's `select!`: its connection is over, or the signal has fired. */
  datatype Wake = ConnectionOver | SignalFired

  /** The signal's future of a task. Being fused it completes once, and from then on it is never ready again. */
  datatype Fuse = Waiting | Terminated

  predicate Ready(f: Fuse, fired: bool) {
    f.Waiting? && fired
  }

  /** The signal is among the wakes, with the end of the connection not before it. */
  ghost predicate SignalBeforeEnd(wakes: seq<Wake>) {
    exists i :: 0 <= i < |wakes| && wakes[i] == SignalFired && forall j :: 0 <= j < i ==> wakes[j] != ConnectionOver
  }

  /**
    The loop of a connection's task over what completes in its `select!`: the connection is told to shut down exactly
    once if the signal is seen before the connection is over, and otherwise never.
  */
  method ConnectionTask(wakes: seq<Wake>) returns (calls: nat, ended: bool)
    ensures calls == if SignalBeforeEnd(wakes) then 1 else 0
    ensures ended <==> ConnectionOver in wakes
  {
    calls, ended := 0, false;
    var signalClosed := Waiting;
    var i := 0;
    while i < |wakes| && !ended
      invariant i <= |wakes|
      invariant if ended then i > 0 && wakes[i - 1] == ConnectionOver else forall j :: 0 <= j < i ==> wakes[j] == SignalFired
      invariant forall j :: 0 <= j < i - 1 ==> wakes[j] == SignalFired
      invariant calls == if i > 0 && wakes[0] == SignalFired then 1 else 0
      invariant signalClosed.Terminated? <==> calls == 1
    {
      if wakes[i] == ConnectionOver {
        ended := true;
      } else if signalClosed.Waiting? {
        signalClosed := Terminated;
        calls := calls + 1;
      }
      i := i + 1;
    }
    if wakes != [] && wakes[0] == SignalFired {
      assert SignalBeforeEnd(wakes);
    }
  }

  // ----- the whole server -----

  /** The server's future: at its `select!`, busy with an accepted connection, waiting for connections to end, or finished. */
  datatype Acceptor = Accepting | Handling | Draining | Finished

  /** A connection's task: its future of the signal, all its loop has woken up for, and the shutdown calls it has made. */
  datatype Task = Task(signal: Fuse, history: seq<Wake>, calls: nat, ended: bool)

  /** `receivers` counts the receivers of the close channel; `fired` says that the signal's receiver has been dropped. */
  datatype Server = Server(acceptor: Acceptor, fired: bool, receivers: int, tasks: map<nat, Task>)

  datatype Step = Fire | Accept | Spawn(t: nat) | Leave | Tell(t: nat) | End(t: nat) | Finish

  const START: Server := Server(Accepting, false, 1, map[])

  function Live(s: Server): set<nat> {
    set t | t in s.tasks && !s.tasks[t].ended
  }

  /** A connection can be accepted even after the signal has fired, as long as `select!` does not pick the signal. */
  predicate Enabled(s: Server, step: Step) {
    match step
    case Fire => !s.fired
    case Accept => s.acceptor.Accepting?
    case Spawn(t) => s.acceptor.Handling? && t !in s.tasks
    case Leave => s.acceptor.Accepting? && s.fired
    case Tell(t) => t in Live(s) && Ready(s.tasks[t].signal, s.fired)
    case End(t) => t in Live(s)
    case Finish => s.acceptor.Draining? && s.receivers == 0
  }

  /** A new task clones the acceptor's receiver and drops the clone when it ends; the acceptor drops its own on leaving. */
  function Take(s: Server, step: Step): Server
    requires Enabled(s, step)
  {
    match step
    case Fire => s.(fired := true)
    case Accept => s.(acceptor := Handling)
    case Spawn(t) => s.(acceptor := Accepting, receivers := s.receivers + 1, tasks := s.tasks[t := Task(Waiting, [], 0, false)])
    case Leave => s.(acceptor := Draining, receivers := s.receivers - 1)
    case Tell(t) =>
      var task := s.tasks[t];
      s.(tasks := s.tasks[t := task.(signal := Terminated, history := task.history + [SignalFired], calls := task.calls + 1)])
    case End(t) =>
      var task := s.tasks[t];
      s.(receivers := s.receivers - 1, tasks := s.tasks[t := task.(history := task.history + [ConnectionOver], ended := true)])
    case Finish => s.(acceptor := Finished)
  }

  function Next(s: Server, step: Step): Option<Server> {
    if Enabled(s, step) then Some(Take(s, step)) else None
  }

  ghost predicate Reachable(s: Server) {
    Leads(Next, START, s)
  }

  predicate Holding(s: Server) {
    s.acceptor.Accepting? || s.acceptor.Handling?
  }

  /** What a task has woken up for fits the state it is in. */
  predicate Lived(task: Task, fired: bool) {
    && task.history == (if task.signal.Terminated? then [SignalFired] else []) + (if task.ended then [ConnectionOver] else [])
    && task.calls == (if task.signal.Terminated? then 1 else 0)
    && (task.signal.Terminated? ==> fired)
  }

  ghost predicate Sound(s: Server) {
    && s.receivers == |Live(s)| + (if Holding(s) then 1 else 0)
    && (!Holding(s) ==> s.fired)
    && (s.acceptor.Finished? ==> Live(s) == {})
    && AllLived(s)
  }

  ghost predicate AllLived(s: Server) {
    forall t :: t in s.tasks ==> Lived(s.tasks[t], s.fired)
  }

  lemma LiveMeans(s: Server)
    ensures forall t :: t in Live(s) <==> t in s.tasks && !s.tasks[t].ended
  {
  }

  lemma LiveAfter(s: Server, step: Step)
    requires Enabled(s, step)
    ensures Live(Take(s, step)) == match step
              case Spawn(t) => Live(s) + {t}
              case End(t) => Live(s) - {t}
              case _ => Live(s)
  {
  }

  lemma LivedStep(s: Server, step: Step, t: nat)
    requires AllLived(s) && Enabled(s, step) && t in Take(s, step).tasks
    ensures Lived(Take(s, step).tasks[t], Take(s, step).fired)
  {
    assert t in s.tasks ==> Lived(s.tasks[t], s.fired);
  }

  lemma AllLivedStep(s: Server, step: Step)
    requires AllLived(s) && Enabled(s, step)
    ensures AllLived(Take(s, step))
  {
    hide Lived, Take, Enabled;
    forall t | t in Take(s, step).tasks ensures Lived(Take(s, step).tasks[t], Take(s, step).fired) {
      LivedStep(s, step, t);
    }
  }

  lemma SoundStep(s: Server, step: Step)
    requires Sound(s) && Enabled(s, step)
    ensures Sound(Take(s, step))
  {
    hide Live, AllLived;
    LiveMeans(s);
    LiveAfter(s, step);
    AllLivedStep(s, step);
  }

  lemma ReachableSound(s: Server)
    requires Reachable(s)
    ensures Sound(s)
  {
    assert Live(START) == {};
    forall s, step | Sound(s) && Next(s, step).Some? ensures Sound(Next(s, step).value) {
      SoundStep(s, step);
    }
    assert Kept(Next, s => Sound(s));
    LeadsKept(Next, s => Sound(s), START, s);
  }

  /**
    In every run the receivers of the close channel number the unfinished tasks, and one more while the acceptor is in
    its loop.
  */
  lemma ReceiversCountTasks(s: Server)
    requires Reachable(s)
    ensures s.receivers == |Live(s)| + (if Holding(s) then 1 else 0)
  {
    ReachableSound(s);
  }

  /** The server can finish exactly when it is out of its loop and no task is left; once it has, none is. */
  lemma FinishesWithNoTaskLeft(s: Server)
    requires Reachable(s)
    ensures Enabled(s, Finish) <==> s.acceptor.Draining? && Live(s) == {}
    ensures s.acceptor.Finished? ==> s.fired && Live(s) == {}
  {
    ReachableSound(s);
  }

  /**
    In every run a task has called what its loop calls on the wakes it has had: once if the signal was seen before the
    end of its connection, and never otherwise; it has seen the signal only if that has fired.
  */
  lemma {:induction false} ToldOnceAfterSignal(s: Server, t: nat)
    requires Reachable(s) && t in s.tasks
    ensures s.tasks[t].calls == if SignalBeforeEnd(s.tasks[t].history) then 1 else 0
    ensures s.tasks[t].ended <==> ConnectionOver in s.tasks[t].history
    ensures SignalFired in s.tasks[t].history ==> s.fired && s.tasks[t].calls == 1
  {
    ReachableSound(s);
    var h := s.tasks[t].history;
    if s.tasks[t].signal.Terminated? {
      assert h[0] == SignalFired;
    }
  }

  /** Run on the wakes a task has had in any run of the server, the loop does what that task has done. */
  method ReplayTask(ghost s: Server, ghost t: nat, history: seq<Wake>) returns (calls: nat, ended: bool)
    requires Reachable(s) && t in s.tasks && history == s.tasks[t].history
    ensures calls == s.tasks[t].calls && ended == s.tasks[t].ended
  {
    ToldOnceAfterSignal(s, t);
    calls, ended := ConnectionTask(history);
  }

  /** Out of its loop the acceptor never returns to it, and no task is spawned any more. */
  lemma {:induction false} NothingSpawnedAfterLeaving(s: Server, steps: seq<Step>)
    requires !Holding(s) && Run(Next, s, steps).Some?
    ensures var s' := Run(Next, s, steps).value;
            !Holding(s') && s'.tasks.Keys == s.tasks.Keys && Live(s') <= Live(s)
    decreases |steps|
  {
    if steps != [] {
      LiveAfter(s, steps[0]);
      NothingSpawnedAfterLeaving(Take(s, steps[0]), steps[1..]);
    }
  }

  // ----- the server finishes -----

  /** How many steps tasks can still take: one to tell their connection, one to end. */
  function TaskWork(s: Server, ts: set<nat>): nat
    requires ts <= s.tasks.Keys
  {
    |ts| + |Untold(s, ts)|
  }

  function Untold(s: Server, ts: set<nat>): set<nat>
    requires ts <= s.tasks.Keys
  {
    set t | t in ts && s.tasks[t].signal.Waiting?
  }

  function AcceptorWork(a: Acceptor): nat {
    match a
    case Accepting => 2
    case Handling => 5
    case Draining => 1
    case Finished => 0
  }

  /** What is left to do; only accepting a connection adds to it. */
  function Work(s: Server): nat {
    (if s.fired then 0 else 1) + AcceptorWork(s.acceptor) + TaskWork(s, Live(s))
  }

  lemma UntoldAfter(s: Server, step: Step)
    requires Enabled(s, step)
    ensures Untold(Take(s, step), Live(Take(s, step))) == match step
              case Spawn(t) => Untold(s, Live(s)) + {t}
              case Tell(t) => Untold(s, Live(s)) - {t}
              case End(t) => Untold(s, Live(s)) - {t}
              case _ => Untold(s, Live(s))
  {
    LiveAfter(s, step);
  }

  lemma WorkStep(s: Server, step: Step)
    requires Enabled(s, step)
    ensures Work(Take(s, step)) < Work(s) || (step.Accept? && Work(Take(s, step)) == Work(s) + 3)
  {
    LiveAfter(s, step);
    UntoldAfter(s, step);
  }

  function Accepts(steps: seq<Step>): nat {
    if steps == [] then 0 else (if steps[0].Accept? then 1 else 0) + Accepts(steps[1..])
  }

  /** A run is no longer than the work at its start and four steps for every connection accepted in it. */
  lemma {:induction false} RunsAreBounded(s: Server, steps: seq<Step>)
    requires Run(Next, s, steps).Some?
    ensures |steps| + Work(Run(Next, s, steps).value) <= Work(s) + 4 * Accepts(steps)
    decreases |steps|
  {
    hide Work;
    if steps != [] {
      WorkStep(s, steps[0]);
      RunsAreBounded(Take(s, steps[0]), steps[1..]);
    }
  }

  /** A step the server takes by itself once told to stop, if told connections end. */
  predicate IsShutdownStep(s: Server, step: Step) {
    match step
    case Fire => false
    case Accept => false
    case End(t) => t in s.tasks && s.tasks[t].signal.Terminated?
    case _ => true
  }

  lemma UnusedTask(tasks: map<nat, Task>) returns (t: nat)
    ensures t !in tasks
  {
    t := 0;
    var rest := tasks.Keys;
    while t in rest
      invariant forall u :: u in tasks && u !in rest ==> u < t
      invariant rest <= tasks.Keys
      decreases rest
    {
      rest := rest - {t};
      t := t + 1;
    }
    assert t in tasks.Keys ==> t < t;
  }

  /** After the signal there is always such a step to take until the server has finished: it never gets stuck. */
  lemma NeverStuck(s: Server)
    requires Reachable(s) && s.fired
    ensures s.acceptor.Finished? <==> forall step :: Enabled(s, step) ==> !IsShutdownStep(s, step)
  {
    ReachableSound(s);
    match s.acceptor {
      case Accepting => assert Enabled(s, Leave) && IsShutdownStep(s, Leave);
      case Handling =>
        var t := UnusedTask(s.tasks);
        assert Enabled(s, Spawn(t)) && IsShutdownStep(s, Spawn(t));
      case Draining =>
        if t :| t in Live(s) {
          var step := if s.tasks[t].signal.Waiting? then Tell(t) else End(t);
          assert Enabled(s, step) && IsShutdownStep(s, step);
        } else {
          assert Live(s) == {};
          assert Enabled(s, Finish) && IsShutdownStep(s, Finish);
        }
      case Finished => assert Live(s) == {};
    }
  }

  /**
    A run of such steps after the signal that cannot be continued has finished the server, and it has at most as many
    steps as there was work. So if connections end once told, and none is accepted any more, the server finishes.
  */
  lemma ShutdownFinishes(before: seq<Step>, s: Server, steps: seq<Step>)
    requires Run(Next, START, before) == Some(s) && s.fired && Run(Next, s, steps).Some?
    requires forall step :: Enabled(Run(Next, s, steps).value, step) ==> !IsShutdownStep(Run(Next, s, steps).value, step)
    ensures Run(Next, s, steps).value.acceptor.Finished?
    ensures |steps| <= Work(s) + 4 * Accepts(steps)
  {
    assert Reachable(s);
    LeadsOn(Next, START, s, steps);
    StaysFired(s, steps);
    NeverStuck(Run(Next, s, steps).value);
    RunsAreBounded(s, steps);
  }

  lemma {:induction false} StaysFired(s: Server, steps: seq<Step>)
    requires s.fired && Run(Next, s, steps).Some?
    ensures Run(Next, s, steps).value.fired
    decreases |steps|
  {
    if steps != [] {
      StaysFired(Take(s, steps[0]), steps[1..]);
    }
  }

  /** A connection can still be accepted and spawned after the signal, and end without having been told. */
  lemma AcceptedAfterSignal(t: nat)
    ensures var steps := [Fire, Accept, Spawn(t), End(t)];
            Run(Next, START, steps).Some? && Run(Next, START, steps).value.tasks == map[t := Task(Waiting, [ConnectionOver], 0, true)]
  {
    var s1 := Take(START, Fire);
    var s2 := Take(s1, Accept);
    var s3 := Take(s2, Spawn(t));
    RunOne(Next, s3, End(t));
    assert s3.tasks == map[t := Task(Waiting, [], 0, false)] && [] + [ConnectionOver] == [ConnectionOver];
    assert Take(s3, End(t)).tasks[t] == Task(Waiting, [ConnectionOver], 0, true);
    assert [Spawn(t), End(t)][1..] == [End(t)];
    assert [Accept, Spawn(t), End(t)][1..] == [Spawn(t), End(t)];
    assert [Fire, Accept, Spawn(t), End(t)][1..] == [Accept, Spawn(t), End(t)];
    assert Run(Next, s2, [Spawn(t), End(t)]) == Run(Next, s3, [End(t)]);
    assert Run(Next, s1, [Accept, Spawn(t), End(t)]) == Run(Next, s2, [Spawn(t), End(t)]);
  }
}
