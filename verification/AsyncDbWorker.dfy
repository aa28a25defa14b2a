/**
 The database worker thread and the main thread around one mutex: a task queue, a queue of completed
 callbacks and a stop flag. Every critical section is one step; steps of the two threads interleave freely.
 */
module AsyncDbWorker {
  import opened Options

  // A task as it was pushed; either part may be absent.
  datatype Task = Task(id: nat, hasWork: bool, hasCallback: bool)

  datatype Phase = Waiting | Taken(task: Task) | Worked(task: Task) | Exited

  datatype State = State(
    queue: seq<Task>,
    worker: Phase,
    completed: seq<Task>,
    // The callbacks the main thread has swapped out and not called yet.
    local: seq<Task>,
    stop: bool,
    // Histories: every task pushed, every work function run, every callback called, in order.
    pushed: seq<Task>,
    ran: seq<Task>,
    called: seq<Task>)

  datatype Step = Push(task: Task) | Take | Work | Complete | Swap | Call | Stop | Exit

  const INIT := State([], Waiting, [], [], false, [], [], [])

  predicate ByWorker(step: Step)
  {
    step.Take? || step.Work? || step.Complete? || step.Exit?
  }

  // The effect of a step; None when the step is not possible in this state.
  function Apply(s: State, step: Step): (r: Option<State>)
  {
    match step
    case Push(t) => Some(s.(queue := s.queue + [t], pushed := s.pushed + [t]))
    case Take =>
      if s.worker.Waiting? && s.queue != [] then Some(s.(queue := s.queue[1..], worker := Taken(s.queue[0]))) else None
    case Work =>
      if s.worker.Taken? then
        var t := s.worker.task;
        Some(s.(worker := Worked(t), ran := s.ran + if t.hasWork then [t] else []))
      else None
    case Complete =>
      if s.worker.Worked? then
        var t := s.worker.task;
        Some(s.(worker := Waiting, completed := s.completed + if t.hasCallback then [t] else []))
      else None
    case Exit => if s.worker.Waiting? && s.stop && s.queue == [] then Some(s.(worker := Exited)) else None
    // The main thread swaps only when it has called everything it swapped out before.
    case Swap => if s.local == [] then Some(s.(local := s.completed, completed := [])) else None
    case Call => if s.local != [] then Some(s.(local := s.local[1..], called := s.called + [s.local[0]])) else None
    case Stop => Some(s.(stop := true))
  }

  // A run: states joined by possible steps, in any interleaving.
  ghost predicate Behavior(states: seq<State>, steps: seq<Step>)
  {
    && |states| == |steps| + 1
    && states[0] == INIT
    && forall i :: 0 <= i < |steps| ==> Apply(states[i], steps[i]) == Some(states[i + 1])
  }

  function WithWork(ts: seq<Task>): (r: seq<Task>)
  {
    if ts == [] then [] else WithWork(ts[..|ts| - 1]) + if ts[|ts| - 1].hasWork then [ts[|ts| - 1]] else []
  }

  function WithCallback(ts: seq<Task>): (r: seq<Task>)
  {
    if ts == [] then [] else WithCallback(ts[..|ts| - 1]) + if ts[|ts| - 1].hasCallback then [ts[|ts| - 1]] else []
  }

  lemma {:induction false} WithCallbackConcat(a: seq<Task>, b: seq<Task>)
    ensures WithCallback(a + b) == WithCallback(a) + WithCallback(b)
  {
    if b == [] {
      assert a + b == a;
    } else {
      WithCallbackConcat(a, b[..|b| - 1]);
      assert (a + b)[..|a + b| - 1] == a + b[..|b| - 1];
    }
  }

  lemma {:induction false} WithWorkConcat(a: seq<Task>, b: seq<Task>)
    ensures WithWork(a + b) == WithWork(a) + WithWork(b)
  {
    if b == [] {
      assert a + b == a;
    } else {
      WithWorkConcat(a, b[..|b| - 1]);
      assert (a + b)[..|a + b| - 1] == a + b[..|b| - 1];
    }
  }

  lemma AppendTask(a: seq<Task>, t: Task)
    ensures WithWork(a + [t]) == WithWork(a) + if t.hasWork then [t] else []
    ensures WithCallback(a + [t]) == WithCallback(a) + if t.hasCallback then [t] else []
  {
    assert (a + [t])[..|a|] == a;
  }

  // ---- the invariant ----

  function InFlight(s: State): (r: seq<Task>)
  {
    if s.worker.Taken? || s.worker.Worked? then [s.worker.task] else []
  }

  // The tasks whose work has run.
  function Through(s: State, done: seq<Task>): (r: seq<Task>)
  {
    if s.worker.Worked? then done + InFlight(s) else done
  }

  // The three queues and the worker's hands hold every pushed task once, in push order. `done` are the tasks
  // the worker is through with: pushed, but neither waiting nor in the worker's hands.
  ghost predicate InvAt(s: State, done: seq<Task>)
  {
    && s.pushed == done + (InFlight(s) + s.queue)
    && s.ran == WithWork(Through(s, done))
    && s.called + (s.local + s.completed) == WithCallback(done)
    && (s.worker.Exited? ==> s.stop)
  }

  ghost predicate Inv(s: State)
  {
    exists done :: InvAt(s, done)
  }

  lemma Associative<T>(a: seq<T>, b: seq<T>, c: seq<T>)
    ensures a + (b + c) == (a + b) + c
  {
  }

  lemma NothingToAdd<T>(a: seq<T>)
    ensures a + [] == a && [] + a == a
  {
  }

  lemma HeadAndTail<T>(a: seq<T>)
    requires a != []
    ensures [a[0]] + a[1..] == a
  {
  }

  lemma TakeKeepsInv(s: State, s': State, done: seq<Task>)
    requires InvAt(s, done) && Apply(s, Take) == Some(s')
    ensures InvAt(s', done)
  {
    hide WithWork, WithCallback;
    HeadAndTail(s.queue);
    NothingToAdd(s.queue);
  }

  lemma WorkKeepsInv(s: State, s': State, done: seq<Task>)
    requires InvAt(s, done) && Apply(s, Work) == Some(s')
    ensures InvAt(s', done)
  {
    hide WithWork, WithCallback;
    AppendTask(done, s.worker.task);
  }

  lemma CompleteKeepsInv(s: State, s': State, done: seq<Task>)
    requires InvAt(s, done) && Apply(s, Complete) == Some(s')
    ensures InvAt(s', done + InFlight(s))
  {
    hide WithWork, WithCallback;
    AppendTask(done, s.worker.task);
    Associative(done, InFlight(s), s.queue);
    NothingToAdd(s.queue);
    var more := if s.worker.task.hasCallback then [s.worker.task] else [];
    Associative(s.local, s.completed, more);
    Associative(s.called, s.local + s.completed, more);
  }

  lemma PushKeepsInv(s: State, t: Task, s': State, done: seq<Task>)
    requires InvAt(s, done) && Apply(s, Push(t)) == Some(s')
    ensures InvAt(s', done)
  {
    hide WithWork, WithCallback;
    Associative(InFlight(s), s.queue, [t]);
    Associative(done, InFlight(s) + s.queue, [t]);
  }

  lemma SwapKeepsInv(s: State, s': State, done: seq<Task>)
    requires InvAt(s, done) && Apply(s, Swap) == Some(s')
    ensures InvAt(s', done)
  {
    hide WithWork, WithCallback;
    NothingToAdd(s.completed);
  }

  lemma CallKeepsInv(s: State, s': State, done: seq<Task>)
    requires InvAt(s, done) && Apply(s, Call) == Some(s')
    ensures InvAt(s', done)
  {
    hide WithWork, WithCallback;
    HeadAndTail(s.local);
    Associative([s.local[0]], s.local[1..], s.completed);
    Associative(s.called, [s.local[0]], s.local[1..] + s.completed);
  }

  lemma StepKeepsInv(s: State, step: Step, s': State)
    requires Inv(s) && Apply(s, step) == Some(s')
    ensures Inv(s')
  {
    hide WithWork, WithCallback, InvAt;
    var done :| InvAt(s, done);
    match step {
      case Take => TakeKeepsInv(s, s', done);
      case Work => WorkKeepsInv(s, s', done);
      case Complete => CompleteKeepsInv(s, s', done);
      case Push(t) => PushKeepsInv(s, t, s', done);
      case Swap => SwapKeepsInv(s, s', done);
      case Call => CallKeepsInv(s, s', done);
      case Stop => StopKeepsInv(s, s', done);
      case Exit => ExitKeepsInv(s, s', done);
    }
  }

  lemma StopKeepsInv(s: State, s': State, done: seq<Task>)
    requires InvAt(s, done) && Apply(s, Stop) == Some(s')
    ensures InvAt(s', done)
  {
  }

  lemma ExitKeepsInv(s: State, s': State, done: seq<Task>)
    requires InvAt(s, done) && Apply(s, Exit) == Some(s')
    ensures InvAt(s', done)
  {
  }

  lemma {:induction false} InvHolds(states: seq<State>, steps: seq<Step>, i: nat)
    requires Behavior(states, steps) && i < |states|
    ensures Inv(states[i])
  {
    hide Apply, InvAt;
    if i == 0 {
      InvAtStart();
    } else {
      InvHolds(states, steps, i - 1);
      StepKeepsInv(states[i - 1], steps[i - 1], states[i]);
    }
  }

  lemma InvAtStart()
    ensures InvAt(INIT, [])
  {
  }

  // ---- what it means ----

  // The callbacks called were those of tasks whose work had run.
  ghost predicate CalledAfterWork(s: State)
  {
    exists n :: 0 <= n <= |s.pushed| && s.called <= WithCallback(s.pushed[..n]) && WithWork(s.pushed[..n]) <= s.ran
  }

  // Work runs at most once per task and in push order; so do callbacks, and only after the task's work;
  // and a callback that has not been called is still in one of the queues.
  lemma OrderAndNoLoss(states: seq<State>, steps: seq<Step>, i: nat)
    requires Behavior(states, steps) && i < |states|
    ensures var s := states[i];
            && s.ran <= WithWork(s.pushed)
            && s.called <= WithCallback(s.pushed)
            && CalledAfterWork(s)
            && WithCallback(s.pushed) == s.called + s.local + s.completed + WithCallback(InFlight(s) + s.queue)
  {
    hide Behavior;
    InvHolds(states, steps, i);
    var s := states[i];
    var done :| InvAt(s, done);
    WorkInOrder(s, done);
    CallbacksInOrder(s, done);
  }

  lemma WorkInOrder(s: State, done: seq<Task>)
    requires InvAt(s, done)
    ensures WithWork(done) <= s.ran <= WithWork(s.pushed)
  {
    hide WithWork, WithCallback;
    WithWorkConcat(done, InFlight(s) + s.queue);
    if s.worker.Worked? {
      WithWorkConcat(done, InFlight(s));
      Associative(done, InFlight(s), s.queue);
      WithWorkConcat(done + InFlight(s), s.queue);
    }
  }

  lemma CallbacksInOrder(s: State, done: seq<Task>)
    requires InvAt(s, done) && WithWork(done) <= s.ran
    ensures s.called <= WithCallback(s.pushed) && CalledAfterWork(s)
    ensures WithCallback(s.pushed) == s.called + s.local + s.completed + WithCallback(InFlight(s) + s.queue)
  {
    hide WithWork, WithCallback;
    WithCallbackConcat(done, InFlight(s) + s.queue);
    Associative(s.called, s.local, s.completed);
    assert s.pushed[..|done|] == done;
  }

  // The worker leaves its loop only when told to stop, with nothing waiting and every pushed task's work run.
  lemma ExitOnlyWhenDrained(states: seq<State>, steps: seq<Step>, i: nat)
    requires Behavior(states, steps) && i < |steps| && steps[i].Exit?
    ensures states[i].stop && states[i].queue == [] && states[i].ran == WithWork(states[i].pushed)
  {
    hide WithWork, WithCallback;
    var s := states[i];
    InvHolds(states, steps, i);
    assert Apply(s, steps[i]) == Some(states[i + 1]);
    var done :| InvAt(s, done);
    NothingToAdd(done);
  }

  // Nothing is told to stop before a Stop, so without one the worker never leaves.
  lemma {:induction false} StoppedByStop(states: seq<State>, steps: seq<Step>, i: nat)
    requires Behavior(states, steps) && i < |states|
    ensures states[i].stop <==> exists j :: 0 <= j < i && steps[j].Stop?
    ensures states[i].worker.Exited? ==> states[i].stop
  {
    hide Behavior;
    StartOf(states, steps);
    if i > 0 {
      StoppedByStop(states, steps, i - 1);
      StepFrom(states, steps, i - 1);
    }
  }

  lemma StartOf(states: seq<State>, steps: seq<Step>)
    requires Behavior(states, steps)
    ensures |states| == |steps| + 1 && states[0] == INIT
  {
  }

  // A task pushed after the worker has left never runs: the worker takes no further step.
  lemma {:induction false} NothingAfterExit(states: seq<State>, steps: seq<Step>, i: nat, j: nat)
    requires Behavior(states, steps) && i <= j < |states| && states[i].worker.Exited?
    ensures states[j].worker.Exited? && states[j].ran == states[i].ran
    ensures j < |steps| ==> !ByWorker(steps[j])
    decreases j - i
  {
    if i < j {
      NothingAfterExit(states, steps, i, j - 1);
      StepFrom(states, steps, j - 1);
    }
    if j < |steps| {
      StepFrom(states, steps, j);
    }
  }

  lemma StepFrom(states: seq<State>, steps: seq<Step>, i: nat)
    requires Behavior(states, steps) && i < |steps|
    ensures Apply(states[i], steps[i]) == Some(states[i + 1])
  {
  }

  // ---- delivery ----

  // Pushing and stopping are always possible; swapping exactly when everything swapped out before has been called,
  // and calling exactly when not.
  lemma MainCanMove(s: State, t: Task)
    ensures Apply(s, Push(t)).Some? && Apply(s, Stop).Some?
    ensures Apply(s, Swap).Some? <==> s.local == []
    ensures Apply(s, Call).Some? <==> s.local != []
  {
  }

  // The state after some steps; None when one of them is not possible.
  function RunFrom(s: State, steps: seq<Step>): (r: Option<State>)
  {
    if steps == [] then Some(s)
    else
      var t := RunFrom(s, steps[..|steps| - 1]);
      if t.Some? then Apply(t.value, steps[|steps| - 1]) else None
  }

  lemma {:induction false} RunConcat(s: State, a: seq<Step>, b: seq<Step>)
    requires RunFrom(s, a).Some?
    ensures RunFrom(s, a + b) == RunFrom(RunFrom(s, a).value, b)
  {
    hide Apply;
    if b == [] {
      assert a + b == a;
    } else {
      RunConcat(s, a, b[..|b| - 1]);
      assert (a + b)[..|a + b| - 1] == a + b[..|b| - 1];
    }
  }

  lemma RunOne(s: State, step: Step)
    ensures RunFrom(s, [step]) == Apply(s, step)
  {
    assert [step][..0] == [];
  }

  function Calls(n: nat): (steps: seq<Step>)
  {
    seq(n, _ => Call)
  }

  // Calling everything swapped out, in order.
  lemma {:induction false} CallAll(s: State)
    ensures RunFrom(s, Calls(|s.local|)) == Some(s.(local := [], called := s.called + s.local))
    decreases |s.local|
  {
    if s.local == [] {
      NothingToAdd(s.called);
    } else {
      var t := Apply(s, Call).value;
      CallAll(t);
      RunOne(s, Call);
      RunConcat(s, [Call], Calls(|t.local|));
      assert Calls(|s.local|) == [Call] + Calls(|t.local|);
      Associative(s.called, [s.local[0]], s.local[1..]);
      HeadAndTail(s.local);
    }
  }

  // One flush by the main thread: swap, then call until nothing is left.
  function FlushSteps(n: nat): (steps: seq<Step>)
  {
    [Swap] + Calls(n)
  }

  // A flush calls every completed callback, in order, and leaves none behind.
  lemma FlushCalls(s: State)
    requires s.local == []
    ensures RunFrom(s, FlushSteps(|s.completed|)) == Some(s.(completed := [], called := s.called + s.completed))
  {
    RunOne(s, Swap);
    RunConcat(s, [Swap], Calls(|s.completed|));
    CallAll(Apply(s, Swap).value);
  }

  // The worker's steps for one waiting task.
  lemma ServeOne(s: State)
    requires s.worker.Waiting? && s.queue != []
    ensures var t := s.queue[0];
            RunFrom(s, [Take] + ([Work] + [Complete])) ==
            Some(s.(queue := s.queue[1..],
                    ran := s.ran + if t.hasWork then [t] else [],
                    completed := s.completed + if t.hasCallback then [t] else []))
  {
    RunOne(s, Take);
    var s1 := Apply(s, Take).value;
    RunOne(s1, Work);
    var s2 := Apply(s1, Work).value;
    RunOne(s2, Complete);
    RunConcat(s1, [Work], [Complete]);
    RunConcat(s, [Take], [Work] + [Complete]);
  }

  // From every state in which the worker has not left, its own steps empty the queue.
  lemma {:induction false} WorkerDrains(s: State) returns (steps: seq<Step>)
    requires !s.worker.Exited?
    ensures RunFrom(s, steps).Some? && forall i :: 0 <= i < |steps| ==> ByWorker(steps[i])
    ensures var r := RunFrom(s, steps).value;
            r.worker.Waiting? && r.queue == [] && r.pushed == s.pushed && r.local == s.local
    decreases Pending(s)
  {
    hide RunFrom;
    if s.worker.Waiting? && s.queue == [] {
      steps := [];
      assert RunFrom(s, []) == Some(s) by {
        NoSteps(s);
      }
    } else {
      var step := if s.worker.Taken? then Work else if s.worker.Worked? then Complete else Take;
      var t := Apply(s, step).value;
      var rest := WorkerDrains(t);
      RunOne(s, step);
      RunConcat(s, [step], rest);
      steps := [step] + rest;
    }
  }

  lemma NoSteps(s: State)
    ensures RunFrom(s, []) == Some(s)
  {
  }

  // A run from a reachable state ends in a reachable state.
  lemma {:induction false} RunKeepsInv(s: State, steps: seq<Step>)
    requires Inv(s) && RunFrom(s, steps).Some?
    ensures Inv(RunFrom(s, steps).value)
  {
    hide Inv, Apply;
    if steps != [] {
      RunKeepsInv(s, steps[..|steps| - 1]);
      StepKeepsInv(RunFrom(s, steps[..|steps| - 1]).value, steps[|steps| - 1], RunFrom(s, steps).value);
    }
  }

  // Once the queue is empty and the worker's hands are, calling what was swapped out and one flush bring every
  // callback of every pushed task to its call, in push order.
  lemma DrainedFlushDeliversAll(s: State)
    requires Inv(s) && s.queue == [] && !s.worker.Taken? && !s.worker.Worked?
    ensures var r := RunFrom(s, Calls(|s.local|) + FlushSteps(|s.completed|));
            && r.Some? && r.value.called == WithCallback(s.pushed) && r.value.ran == WithWork(s.pushed)
            && r.value.local == [] && r.value.completed == []
  {
    hide WithWork, WithCallback, Apply, RunFrom;
    var done :| InvAt(s, done);
    NothingToAdd(done);
    CallAll(s);
    var t := s.(local := [], called := s.called + s.local);
    FlushCalls(t);
    RunConcat(s, Calls(|s.local|), FlushSteps(|s.completed|));
    Associative(s.called, s.local, s.completed);
  }

  // So whatever has happened, as long as the worker has not left, everything pushed can still be delivered, with
  // no further push.
  lemma EverythingCanBeDelivered(states: seq<State>, steps: seq<Step>, i: nat) returns (more: seq<Step>)
    requires Behavior(states, steps) && i < |states| && !states[i].worker.Exited?
    ensures var r := RunFrom(states[i], more);
            && r.Some? && r.value.pushed == states[i].pushed
            && r.value.called == WithCallback(states[i].pushed) && r.value.ran == WithWork(states[i].pushed)
  {
    hide Behavior, Inv, RunFrom, Apply, WithWork, WithCallback;
    var s := states[i];
    InvHolds(states, steps, i);
    var drain := WorkerDrains(s);
    var t := RunFrom(s, drain).value;
    RunKeepsInv(s, drain);
    var flush := Calls(|t.local|) + FlushSteps(|t.completed|);
    DrainedFlushDeliversAll(t);
    RunConcat(s, drain, flush);
    more := drain + flush;
    FlushPushesNothing(t, flush);
  }

  lemma {:induction false} FlushPushesNothing(s: State, steps: seq<Step>)
    requires RunFrom(s, steps).Some? && forall i :: 0 <= i < |steps| ==> !steps[i].Push?
    ensures RunFrom(s, steps).value.pushed == s.pushed
  {
    if steps != [] {
      FlushPushesNothing(s, steps[..|steps| - 1]);
    }
  }

  function CallCount(steps: seq<Step>): (n: nat)
  {
    if steps == [] then 0 else CallCount(steps[..|steps| - 1]) + if steps[|steps| - 1].Call? then 1 else 0
  }

  // Whatever interleaves with a flush: what was completed at its swap has been called after as many calls.
  lemma SwappedAreCalled(states: seq<State>, steps: seq<Step>, i: nat, j: nat)
    requires Behavior(states, steps) && i < j <= |steps| && steps[i].Swap?
    requires CallCount(steps[i + 1..j]) >= |states[i].completed|
    ensures states[i].called + states[i].completed <= states[j].called
  {
    hide Behavior, Apply;
    StepFrom(states, steps, i);
    CallsInOrder(states, steps, i, j);
  }

  lemma {:induction false} CallsInOrder(states: seq<State>, steps: seq<Step>, i: nat, j: nat)
    requires Behavior(states, steps) && i < j <= |steps| && steps[i].Swap?
    ensures states[i].called + states[i].completed <= states[j].called + states[j].local
    ensures |states[j].called| == |states[i].called| + CallCount(steps[i + 1..j])
    decreases j
  {
    hide Behavior;
    StepFrom(states, steps, j - 1);
    if i + 1 < j {
      CallsInOrder(states, steps, i, j - 1);
      assert steps[i + 1..j][..j - 1 - (i + 1)] == steps[i + 1..j - 1];
    }
  }

  // ---- progress ----

  // The worker has a step to take exactly when there is anything to do and it has not left.
  lemma WorkerCanMove(s: State)
    ensures (exists step :: ByWorker(step) && Apply(s, step).Some?) <==>
            !s.worker.Exited? && (s.stop || s.queue != [] || !s.worker.Waiting?)
  {
    if !s.worker.Exited? && (s.stop || s.queue != [] || !s.worker.Waiting?) {
      var step := if s.worker.Taken? then Work else if s.worker.Worked? then Complete
                  else if s.queue != [] then Take else Exit;
      assert ByWorker(step) && Apply(s, step).Some?;
    }
  }

  function Pending(s: State): (n: nat)
  {
    3 * |s.queue| + match s.worker
                    case Waiting => 1
                    case Taken(_) => 3
                    case Worked(_) => 2
                    case Exited => 0
  }

  function WorkerSteps(steps: seq<Step>): (n: nat)
  {
    if steps == [] then 0 else WorkerSteps(steps[..|steps| - 1]) + if ByWorker(steps[|steps| - 1]) then 1 else 0
  }

  lemma PendingStep(s: State, step: Step, s': State)
    requires Apply(s, step) == Some(s') && !step.Push?
    ensures Pending(s') + (if ByWorker(step) then 1 else 0) <= Pending(s)
  {
  }

  // Without further pushes the worker takes at most three steps per waiting task, and then it is idle or gone.
  lemma {:induction false} BoundedWork(states: seq<State>, steps: seq<Step>, i: nat, j: nat)
    requires Behavior(states, steps) && i <= j <= |steps|
    requires forall k :: i <= k < j ==> !steps[k].Push?
    ensures WorkerSteps(steps[i..j]) + Pending(states[j]) <= Pending(states[i])
    ensures WorkerSteps(steps[i..j]) <= 3 * |states[i].queue| + 3
    decreases j - i
  {
    hide Apply, Pending, ByWorker;
    if i < j {
      BoundedWork(states, steps, i, j - 1);
      assert steps[i..j][..j - 1 - i] == steps[i..j - 1];
      StepFrom(states, steps, j - 1);
      PendingStep(states[j - 1], steps[j - 1], states[j]);
    }
    PendingIs(states[i]);
  }

  lemma PendingIs(s: State)
    ensures Pending(s) <= 3 * |s.queue| + 3
  {
  }
}
