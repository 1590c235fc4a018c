/** `SQLiteTaskQueue` of sovereign/tasks.py with one worker. Row ids count up from 1 and rows are never
    deleted, so the table is a sequence; what a task's function does is an input. */
module TaskQueue {
  import opened Errors

  datatype Status = Pending | Running | Done | Dead

  datatype Task = Task(status: Status, attempts: nat, nextRun: real)

  type Table = seq<Task>

  // ---- the operations on values ------------------------------------------------------------

  function NewTask(now: real): Task {
    Task(Pending, 0, now)
  }

  predicate Due(t: Task, now: real) {
    t.status == Pending && t.nextRun <= now
  }

  /** `ORDER BY id LIMIT 1` */
  function FirstDue(tasks: Table, now: real, i: nat): (r: Option<nat>)
    requires i <= |tasks|
    ensures r.Some? ==> i <= r.value < |tasks| && Due(tasks[r.value], now)
    ensures r.Some? ==> forall j :: i <= j < r.value ==> !Due(tasks[j], now)
    ensures r.None? ==> forall j :: i <= j < |tasks| ==> !Due(tasks[j], now)
    decreases |tasks| - i
  {
    if i == |tasks| then None else if Due(tasks[i], now) then Some(i) else FirstDue(tasks, now, i + 1)
  }

  function Pow2(k: nat): nat {
    if k == 0 then 1 else 2 * Pow2(k - 1)
  }

  /** `min(60, 2 ** attempts)` */
  function Delay(attempts: nat): real {
    (if Pow2(attempts) < 60 then Pow2(attempts) else 60) as real
  }

  /** The delay doubles with each attempt up to a minute. */
  lemma {:induction false} DelayGrows(k: nat)
    ensures Delay(k) == (if k == 0 then 1.0 else if 2.0 * Delay(k - 1) < 60.0 then 2.0 * Delay(k - 1) else 60.0)
    ensures 1.0 <= Delay(k) <= 60.0
  {
    if k == 0 {
    } else {
      DelayGrows(k - 1);
    }
  }

  function Finished(t: Task, ok: bool, now: real, maxRetries: int): Task {
    if ok then t.(status := Done)
    else
      var attempts := t.attempts + 1;
      Task(if attempts >= maxRetries then Dead else Pending, attempts, now + Delay(attempts))
  }

  /** Rows added by tasks enqueued at the given moments. */
  function EnqueuedAt(moments: seq<real>): Table {
    if moments == [] then [] else [NewTask(moments[0])] + EnqueuedAt(moments[1..])
  }

  class SQLiteTaskQueue {
    const maxRetries: int
    var tasks: Table

    constructor (maxRetries: int)
      ensures this.maxRetries == maxRetries && tasks == []
    {
      this.maxRetries, tasks := maxRetries, [];
    }

    method Enqueue(now: real) returns (id: nat)
      modifies this`tasks
      ensures tasks == old(tasks) + [NewTask(now)] && id == |tasks|
    {
      tasks := tasks + [Task(Pending, 0, now)];
      id := |tasks|;
    }

    /** The first half of `run_once`: the oldest due task is marked as running. */
    method Claim(now: real) returns (claimed: Option<nat>)
      modifies this`tasks
      ensures claimed == FirstDue(old(tasks), now, 0)
      ensures tasks == match claimed
                       case Some(i) => old(tasks)[i := old(tasks)[i].(status := Running)]
                       case None => old(tasks)
    {
      var i := 0;
      while i < |tasks| && !(tasks[i].status == Pending && tasks[i].nextRun <= now)
        invariant i <= |tasks| && FirstDue(tasks, now, 0) == FirstDue(tasks, now, i)
      {
        i := i + 1;
      }
      if i == |tasks| {
        return None;
      }
      claimed := Some(i);
      tasks := tasks[i := tasks[i].(status := Running)];
    }

    /** The second half: the outcome is written to the row. */
    method Complete(i: nat, ok: bool, now: real)
      requires i < |tasks|
      modifies this`tasks
      ensures tasks == old(tasks)[i := Finished(old(tasks)[i], ok, now, maxRetries)]
    {
      if ok {
        tasks := tasks[i := tasks[i].(status := Done)];
        return;
      }
      var attempts := tasks[i].attempts + 1;
      var status := if attempts >= maxRetries then Dead else Pending;
      tasks := tasks[i := Task(status, attempts, now + Delay(attempts))];
    }

    /** One round of the worker: claim, execute (enqueuing tasks on the way), record the outcome. */
    method RunOnce(now: real, during: seq<real>, ok: bool, finish: real)
      modifies this`tasks
      ensures match FirstDue(old(tasks), now, 0)
              case None => tasks == old(tasks)
              case Some(i) =>
                tasks == (old(tasks) + EnqueuedAt(during))
                         [i := Finished(old(tasks)[i].(status := Running), ok, finish, maxRetries)]
    {
      var claimed := Claim(now);
      if claimed.None? {
        return;
      }
      ghost var running := tasks;
      for k := 0 to |during|
        invariant tasks + EnqueuedAt(during[k..]) == running + EnqueuedAt(during)
        invariant |tasks| >= |running| && tasks[..|running|] == running
      {
        assert during[k..][1..] == during[k + 1..];
        var id := Enqueue(during[k]);
      }
      assert during[|during|..] == [];
      var i := claimed.value;
      ghost var added := EnqueuedAt(during);
      Complete(i, ok, finish);
      ghost var row := Finished(old(tasks)[i].(status := Running), ok, finish, maxRetries);
      assert tasks == (running + added)[i := row] == (old(tasks) + added)[i := row];
    }
  }

  // ---- runs of the worker ------------------------------------------------------------------

  datatype Event = Enqueue(now: real) | Claim(now: real) | Finish(ok: bool, now: real)

  /** Table and worker, with the ledger of every task: when it was executed and when it failed. */
  datatype World = World(tasks: Table, running: Option<nat>, starts: seq<seq<real>>, fails: seq<seq<real>>)

  const EMPTY := World([], None, [], [])

  predicate Shaped(w: World) {
    && |w.starts| == |w.tasks| == |w.fails|
    && (w.running.Some? ==> w.running.value < |w.tasks|)
  }

  /** One event; a worker that is busy claims nothing, one that is idle finishes nothing. */
  function Step(w: World, e: Event, maxRetries: int): (w': World)
    requires Shaped(w)
    ensures Shaped(w')
  {
    match e
    case Enqueue(now) => World(w.tasks + [NewTask(now)], w.running, w.starts + [[]], w.fails + [[]])
    case Claim(now) =>
      var claimed := FirstDue(w.tasks, now, 0);
      if w.running.Some? || claimed.None? then w
      else
        var i := claimed.value;
        World(w.tasks[i := w.tasks[i].(status := Running)], Some(i), w.starts[i := w.starts[i] + [now]], w.fails)
    case Finish(ok, now) =>
      if w.running.None? then w
      else
        var i := w.running.value;
        World(w.tasks[i := Finished(w.tasks[i], ok, now, maxRetries)], None, w.starts,
              if ok then w.fails else w.fails[i := w.fails[i] + [now]])
  }

  function Run(w: World, run: seq<Event>, maxRetries: int): (w': World)
    requires Shaped(w)
    ensures Shaped(w')
    decreases run
  {
    if run == [] then w else Run(Step(w, run[0], maxRetries), run[1..], maxRetries)
  }

  /** An idle worker takes the oldest of the pending tasks whose moment has come, and none if there is none; a busy
      one takes none. */
  lemma ClaimExactly(w: World, now: real, i: nat, maxRetries: int)
    requires Shaped(w)
    ensures var w' := Step(w, Claim(now), maxRetries);
            && (w'.running == Some(i) <==>
                w.running == Some(i) ||
                (w.running == None && i < |w.tasks| && w.tasks[i].status == Pending && w.tasks[i].nextRun <= now &&
                 forall j :: 0 <= j < i ==> !(w.tasks[j].status == Pending && w.tasks[j].nextRun <= now)))
            && (w'.running == None ==> w' == w)
  {
  }

  /** A new task is due at once: as soon as no older one is, an idle worker takes it. */
  lemma NewTaskIsTaken(w: World, now: real, later: real, maxRetries: int)
    requires Shaped(w) && w.running == None && now <= later
    requires forall j :: 0 <= j < |w.tasks| ==> !(w.tasks[j].status == Pending && w.tasks[j].nextRun <= later)
    ensures var w' := Step(Step(w, Enqueue(now), maxRetries), Claim(later), maxRetries);
            w'.running == Some(|w.tasks|) && w'.starts[|w.tasks|] == [later] && w'.fails[|w.tasks|] == []
  {
    ClaimExactly(Step(w, Enqueue(now), maxRetries), later, |w.tasks|, maxRetries);
  }

  // ---- a round of the worker is a run ------------------------------------------------------

  function Enqueues(moments: seq<real>): seq<Event> {
    if moments == [] then [] else [Enqueue(moments[0])] + Enqueues(moments[1..])
  }

  lemma {:induction false} RunSnoc(w: World, run: seq<Event>, e: Event, maxRetries: int)
    requires Shaped(w)
    ensures Run(w, run + [e], maxRetries) == Step(Run(w, run, maxRetries), e, maxRetries)
    decreases run
  {
    hide Step;
    if run == [] {
      assert [] + [e] == [e] && [e][1..] == [];
    } else {
      assert (run + [e])[0] == run[0] && (run + [e])[1..] == run[1..] + [e];
      RunSnoc(Step(w, run[0], maxRetries), run[1..], e, maxRetries);
    }
  }

  lemma {:induction false} EnqueuesRun(w: World, during: seq<real>, maxRetries: int)
    requires Shaped(w)
    ensures var w' := Run(w, Enqueues(during), maxRetries);
            w'.running == w.running && w'.tasks == w.tasks + EnqueuedAt(during)
    decreases during
  {
    if during == [] {
    } else {
      var e := Enqueue(during[0]);
      assert ([e] + Enqueues(during[1..]))[1..] == Enqueues(during[1..]);
      EnqueuesRun(Step(w, e, maxRetries), during[1..], maxRetries);
      Prepended(w.tasks, NewTask(during[0]), EnqueuedAt(during[1..]));
    }
  }

  lemma Prepended(tasks: Table, t: Task, rest: Table)
    ensures tasks + [t] + rest == tasks + ([t] + rest)
  {
  }

  /** What `run_once` does to the table is a claim, the tasks enqueued by the execution, and a finish. */
  lemma RoundIsRun(w: World, now: real, during: seq<real>, ok: bool, finish: real, maxRetries: int)
    requires Shaped(w) && w.running.None? && FirstDue(w.tasks, now, 0).Some?
    ensures var i := FirstDue(w.tasks, now, 0).value;
            var w' := Run(w, [Claim(now)] + Enqueues(during) + [Finish(ok, finish)], maxRetries);
            && w'.running.None?
            && w'.tasks == (w.tasks + EnqueuedAt(during))
                           [i := Finished(w.tasks[i].(status := Running), ok, finish, maxRetries)]
  {
    hide FirstDue, Finished, EnqueuedAt, Enqueues;
    var claim := Claim(now);
    var w1 := Step(w, claim, maxRetries);
    RunSnoc(w, [claim] + Enqueues(during), Finish(ok, finish), maxRetries);
    assert ([claim] + Enqueues(during))[1..] == Enqueues(during);
    assert Run(w, [claim] + Enqueues(during), maxRetries) == Run(w1, Enqueues(during), maxRetries);
    hide Run;
    EnqueuesRun(w1, during, maxRetries);
  }

  // ---- the ledger --------------------------------------------------------------------------

  /** Task `i` and its ledger belong together. */
  ghost predicate Consistent(w: World, i: nat, maxRetries: int)
    requires Shaped(w) && i < |w.tasks|
  {
    var t, starts, fails := w.tasks[i], w.starts[i], w.fails[i];
    && |fails| == t.attempts
    && |starts| == t.attempts + (if t.status == Done || t.status == Running then 1 else 0)
    && (t.status == Running <==> w.running == Some(i))
    && (t.status != Dead ==> t.attempts < maxRetries)
    && (t.status == Dead ==> t.attempts == maxRetries)
    && (t.status == Pending && t.attempts > 0 ==> t.nextRun == fails[t.attempts - 1] + Delay(t.attempts))
    && (forall k :: 0 <= k < |fails| && k + 1 < |starts| ==> starts[k + 1] >= fails[k] + Delay(k + 1))
  }

  ghost predicate Inv(w: World, maxRetries: int) {
    Shaped(w) && forall i :: 0 <= i < |w.tasks| ==> Consistent(w, i, maxRetries)
  }

  lemma StepConsistent(w: World, e: Event, i: nat, maxRetries: int)
    requires Inv(w, maxRetries) && maxRetries >= 1 && i < |Step(w, e, maxRetries).tasks|
    ensures Consistent(Step(w, e, maxRetries), i, maxRetries)
  {
    hide Delay;
    if i < |w.tasks| {
      assert Consistent(w, i, maxRetries);
    }
    if e.Finish? && w.running.Some? {
      assert Consistent(w, w.running.value, maxRetries);
    }
  }

  /** In every single-worker run: the executions of a task are its failed attempts plus one if it is done or
      running; pending tasks have attempts left; the execution after the k-th failure comes at least
      `min(60, 2^k)` seconds later. */
  lemma {:induction false} LedgerIsConsistent(w: World, run: seq<Event>, maxRetries: int)
    requires Inv(w, maxRetries) && maxRetries >= 1
    ensures Inv(Run(w, run, maxRetries), maxRetries)
    decreases run
  {
    hide Consistent, Step;
    if run == [] {
    } else {
      var w' := Step(w, run[0], maxRetries);
      forall i | 0 <= i < |w'.tasks|
        ensures Consistent(w', i, maxRetries)
      {
        StepConsistent(w, run[0], i, maxRetries);
      }
      LedgerIsConsistent(w', run[1..], maxRetries);
    }
  }

  /** No task is ever executed more than `maxRetries` times. */
  lemma ExecutionsBounded(run: seq<Event>, i: nat, maxRetries: int)
    requires maxRetries >= 1 && i < |Run(EMPTY, run, maxRetries).tasks|
    ensures |Run(EMPTY, run, maxRetries).starts[i]| <= maxRetries
  {
    LedgerIsConsistent(EMPTY, run, maxRetries);
    assert Consistent(Run(EMPTY, run, maxRetries), i, maxRetries);
  }

  lemma {:induction false} DoneAndDeadAreFinal(w: World, run: seq<Event>, i: nat, maxRetries: int)
    requires Inv(w, maxRetries) && maxRetries >= 1
    requires i < |w.tasks| && (w.tasks[i].status == Done || w.tasks[i].status == Dead)
    ensures var w' := Run(w, run, maxRetries);
            i < |w'.tasks| && w'.tasks[i] == w.tasks[i] && w'.starts[i] == w.starts[i] && w'.fails[i] == w.fails[i]
    decreases run
  {
    if run == [] {
    } else {
      assert Consistent(w, i, maxRetries);
      var w' := Step(w, run[0], maxRetries);
      LedgerIsConsistent(w, [run[0]], maxRetries);
      assert [run[0]][1..] == [];
      DoneAndDeadAreFinal(w', run[1..], i, maxRetries);
    }
  }

  // ---- termination -------------------------------------------------------------------------

  function Left(t: Task, maxRetries: int): int {
    if t.status == Pending || t.status == Running then maxRetries - t.attempts else 0
  }

  /** The attempts all tasks together still have. */
  function Remaining(tasks: Table, maxRetries: int): int {
    if tasks == [] then 0 else Remaining(tasks[..|tasks| - 1], maxRetries) + Left(tasks[|tasks| - 1], maxRetries)
  }

  lemma {:induction false} RemainingUpdate(tasks: Table, i: nat, t: Task, maxRetries: int)
    requires i < |tasks|
    ensures Remaining(tasks[i := t], maxRetries)
         == Remaining(tasks, maxRetries) - Left(tasks[i], maxRetries) + Left(t, maxRetries)
  {
    var init := tasks[..|tasks| - 1];
    if i < |tasks| - 1 {
      RemainingUpdate(init, i, t, maxRetries);
      assert tasks[i := t][..|tasks| - 1] == init[i := t];
    } else {
      assert tasks[i := t][..|tasks| - 1] == init;
    }
  }

  lemma {:induction false} RemainingNotNegative(tasks: Table, maxRetries: int)
    requires forall i :: 0 <= i < |tasks| ==> Left(tasks[i], maxRetries) >= 0
    ensures Remaining(tasks, maxRetries) >= 0
  {
    if tasks == [] {
    } else {
      RemainingNotNegative(tasks[..|tasks| - 1], maxRetries);
    }
  }

  /** Each finished execution uses up at least one remaining attempt, claiming uses none, and the sum is never
      negative: without new tasks the worker runs out of work. */
  lemma EveryExecutionCounts(w: World, e: Event, maxRetries: int)
    requires Inv(w, maxRetries) && maxRetries >= 1
    ensures var before, after := Remaining(w.tasks, maxRetries), Remaining(Step(w, e, maxRetries).tasks, maxRetries);
            match e
            case Enqueue(_) => after == before + maxRetries
            case Claim(_) => after == before
            case Finish(ok, _) =>
              if w.running.None? then after == before else 0 <= after < before && (!ok ==> after == before - 1)
  {
    match e
    case Enqueue(now) =>
      assert (w.tasks + [NewTask(now)])[..|w.tasks|] == w.tasks;
    case Claim(now) =>
      var claimed := FirstDue(w.tasks, now, 0);
      if w.running.None? && claimed.Some? {
        RemainingUpdate(w.tasks, claimed.value, w.tasks[claimed.value].(status := Running), maxRetries);
      }
    case Finish(ok, now) =>
      if w.running.Some? {
        var i := w.running.value;
        assert Consistent(w, i, maxRetries);
        RemainingUpdate(w.tasks, i, Finished(w.tasks[i], ok, now, maxRetries), maxRetries);
        var w' := Step(w, e, maxRetries);
        forall j | 0 <= j < |w'.tasks|
          ensures Left(w'.tasks[j], maxRetries) >= 0
        {
          StepConsistent(w, e, j, maxRetries);
        }
        RemainingNotNegative(w'.tasks, maxRetries);
      }
  }
}
