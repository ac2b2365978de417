/**
 The workers that run an application task in transactions until one sticks: one that
 retries on the spot and one that goes back to the task queue for every further attempt.
 Both are proved to run the same tasks in the same order for any outcomes of the
 transactions, and to give back exactly the task references they hold.
 */
module Workers {
  import opened Wrappers

  type TaskId = nat

  /** How a transaction ends. */
  datatype Result = Success | ShouldRetry | Failure

  /** One call of a task's worker. */
  datatype Call = InTransaction(task: TaskId, timed: bool) | Outside(task: TaskId)

  /** An execution: its tasks, whether it is timed, the attempts made and allowed. */
  datatype Plan = Plan(task: TaskId, catchTask: Option<TaskId>, cleanupTask: Option<TaskId>, timed: bool, attempts: nat, maxAttempts: nat)

  // What should be run

  predicate Retries(p: Plan, r: Result) {
    r.ShouldRetry? && p.attempts + 1 < p.maxAttempts
  }

  function CatchCalls(p: Plan, r: Result, timed: bool): seq<Call> {
    if !r.Success? && p.catchTask.Some? then [InTransaction(p.catchTask.value, timed)] else []
  }

  function CleanupCalls(p: Plan): seq<Call> {
    if p.cleanupTask.Some? then [Outside(p.cleanupTask.value)] else []
  }

  /** The calls from here on, given how transactions will end; `catchTimed` says whether the
      transaction of the catch task is timed. */
  function Calls(p: Plan, outcomes: nat -> Result, used: nat, catchTimed: bool): seq<Call>
    decreases p.maxAttempts - p.attempts
  {
    var r := outcomes(used);
    [InTransaction(p.task, p.timed)] +
    if Retries(p, r) then Calls(p.(attempts := p.attempts + 1), outcomes, used + 1, catchTimed)
    else CatchCalls(p, r, catchTimed) + CleanupCalls(p)
  }

  /** How many attempts there are. */
  function Attempts(p: Plan, outcomes: nat -> Result, used: nat): (n: nat)
    ensures n > 0
    decreases p.maxAttempts - p.attempts
  {
    if Retries(p, outcomes(used)) then Attempts(p.(attempts := p.attempts + 1), outcomes, used + 1) + 1 else 1
  }

  function Repeated(c: Call, n: nat): seq<Call> {
    seq(n, _ => c)
  }

  /** The main task is attempted until its first outcome that does not ask for another try,
      or until no attempt is left. */
  lemma {:induction false} WhenAttemptsEnd(p: Plan, outcomes: nat -> Result, used: nat)
    ensures var n := Attempts(p, outcomes, used);
            && (forall i :: used <= i < used + n - 1 ==> outcomes(i).ShouldRetry?)
            && (outcomes(used + n - 1).ShouldRetry? ==> p.attempts + n >= p.maxAttempts)
            && (n == 1 || p.attempts + n <= p.maxAttempts)
    decreases p.maxAttempts - p.attempts
  {
    if Retries(p, outcomes(used)) {
      WhenAttemptsEnd(p.(attempts := p.attempts + 1), outcomes, used + 1);
    }
  }

  /** The catch task is run once, if the last outcome was not success; the cleanup task is
      run once and last. */
  lemma {:induction false} WhatIsRun(p: Plan, outcomes: nat -> Result, used: nat, catchTimed: bool)
    ensures var n := Attempts(p, outcomes, used);
            Calls(p, outcomes, used, catchTimed)
            == Repeated(InTransaction(p.task, p.timed), n) + CatchCalls(p, outcomes(used + n - 1), catchTimed) + CleanupCalls(p)
    decreases p.maxAttempts - p.attempts
  {
    var n, c := Attempts(p, outcomes, used), InTransaction(p.task, p.timed);
    if Retries(p, outcomes(used)) {
      var p' := p.(attempts := p.attempts + 1);
      WhatIsRun(p', outcomes, used + 1, catchTimed);
      var rest, last := Repeated(c, n - 1), CatchCalls(p, outcomes(used + n - 1), catchTimed);
      assert CatchCalls(p', outcomes(used + n - 1), catchTimed) == last && CleanupCalls(p') == CleanupCalls(p);
      hide CatchCalls, CleanupCalls;
      assert Repeated(c, n) == [c] + rest;
      assert [c] + (rest + last + CleanupCalls(p)) == [c] + rest + last + CleanupCalls(p);
    } else {
      var last := CatchCalls(p, outcomes(used), catchTimed);
      hide CatchCalls, CleanupCalls;
      assert Repeated(c, 1) == [c];
      assert [c] + (last + CleanupCalls(p)) == [c] + last + CleanupCalls(p);
    }
  }

  /** The calls one by one: first the attempts; then, exactly if the last outcome was not success
      and there is a catch task, one call of it in a transaction; then, exactly if there is one,
      the cleanup task, outside of a transaction, last and only there. */
  lemma CallsOneByOne(p: Plan, outcomes: nat -> Result, used: nat, catchTimed: bool)
    ensures var n, cs := Attempts(p, outcomes, used), Calls(p, outcomes, used, catchTimed);
            var caught := !outcomes(used + n - 1).Success? && p.catchTask.Some?;
            && |cs| == n + (if caught then 1 else 0) + (if p.cleanupTask.Some? then 1 else 0)
            && (forall i :: 0 <= i < n ==> cs[i] == InTransaction(p.task, p.timed))
            && (caught ==> cs[n] == InTransaction(p.catchTask.value, catchTimed))
            && (p.cleanupTask.Some? ==> cs[|cs| - 1] == Outside(p.cleanupTask.value))
            && (forall i :: 0 <= i < |cs| && cs[i].Outside? ==> i == |cs| - 1 && p.cleanupTask.Some?)
  {
    WhatIsRun(p, outcomes, used, catchTimed);
  }

  /** What a call is, but for the time limit on its transaction. */
  function Untimed(cs: seq<Call>): (r: seq<TaskId>)
    ensures |r| == |cs|
  {
    seq(|cs|, i requires 0 <= i < |cs| => cs[i].task)
  }

  /** The worker that retries on the spot gives the catch task the execution's own time limit,
      the one that goes back to the queue gives it none: their calls are the same exactly when
      the execution is not timed or there is nothing to catch. */
  lemma CatchTimeIff(p: Plan, outcomes: nat -> Result, used: nat)
    ensures Untimed(Calls(p, outcomes, used, p.timed)) == Untimed(Calls(p, outcomes, used, false))
    ensures Calls(p, outcomes, used, p.timed) == Calls(p, outcomes, used, false)
       <==> !p.timed || p.catchTask.None? || outcomes(used + Attempts(p, outcomes, used) - 1).Success?
  {
    var n := Attempts(p, outcomes, used);
    WhatIsRun(p, outcomes, used, p.timed);
    WhatIsRun(p, outcomes, used, false);
    var a, b := Calls(p, outcomes, used, p.timed), Calls(p, outcomes, used, false);
    if p.timed && p.catchTask.Some? && !outcomes(used + n - 1).Success? {
      assert a[n].timed && !b[n].timed;
    }
  }

  // References

  /** The references held to tasks. A task exists while any are held to it. */
  datatype Refs = Refs(held: multiset<TaskId>)

  const NO_REFS: Refs := Refs(multiset{})

  function One(t: TaskId): Refs {
    Refs(multiset{t})
  }

  function Any(t: Option<TaskId>): Refs {
    if t.None? then NO_REFS else One(t.value)
  }

  predicate Has(r: Refs, t: TaskId) {
    t in r.held
  }

  predicate HasAny(r: Refs, t: Option<TaskId>) {
    t.Some? ==> Has(r, t.value)
  }

  function Plus(a: Refs, b: Refs): Refs {
    Refs(a.held + b.held)
  }

  /** The references without some that are among them. */
  function Minus(a: Refs, b: Refs): Refs {
    Refs(a.held - b.held)
  }

  /** The references an execution holds. */
  function Holds(p: Plan): Refs {
    Plus(Plus(One(p.task), Any(p.catchTask)), Any(p.cleanupTask))
  }

  /** Ids from `next` on are not in use. */
  ghost predicate Below(r: Refs, next: TaskId) {
    forall t :: t in r.held ==> t < next
  }

  lemma TakenBack(base: Refs, r: Refs)
    ensures Minus(Plus(base, r), r) == base
  {
  }

  lemma Moved(base: Refs, a: Refs, b: Refs)
    ensures Plus(Plus(base, a), b) == Plus(base, Plus(a, b))
    ensures Plus(Plus(base, a), b) == Plus(Plus(base, b), a)
    ensures Plus(a, b) == Plus(b, a)
  {
  }

  lemma NothingMore(base: Refs)
    ensures Plus(base, NO_REFS) == base
  {
  }

  lemma HoldsEach(base: Refs, p: Plan)
    ensures var r := Plus(base, Holds(p)); Has(r, p.task) && HasAny(r, p.catchTask) && HasAny(r, p.cleanupTask)
  {
    var h := Holds(p).held;
    assert h[p.task] > 0 && (p.catchTask.Some? ==> h[p.catchTask.value] > 0) && (p.cleanupTask.Some? ==> h[p.cleanupTask.value] > 0);
  }

  lemma HasOne(base: Refs, t: TaskId)
    ensures Has(Plus(base, One(t)), t)
  {
  }

  lemma SameHoldings(p: Plan, q: Plan)
    requires p.task == q.task && p.catchTask == q.catchTask && p.cleanupTask == q.cleanupTask
    ensures Holds(p) == Holds(q)
  {
  }

  lemma BelowParts(a: Refs, b: Refs, next: TaskId)
    ensures Below(Plus(a, b), next) <==> Below(a, next) && Below(b, next)
  {
    assert forall t :: t in a.held ==> t in Plus(a, b).held;
    assert forall t :: t in b.held ==> t in Plus(a, b).held;
  }

  lemma BelowHolds(p: Plan, r: Refs, next: TaskId)
    requires Below(r, next) && Has(r, p.task) && HasAny(r, p.catchTask) && HasAny(r, p.cleanupTask)
    ensures Below(Holds(p), next)
  {
  }

  lemma BelowOne(r: Refs, t: TaskId, next: TaskId)
    requires Below(r, next) && Has(r, t)
    ensures Below(One(t), next)
  {
  }

  lemma BelowNext(r: Refs, next: TaskId)
    requires Below(r, next)
    ensures !Has(r, next) && Below(Plus(r, One(next)), next + 1)
  {
  }

  /** The catch task's own execution makes one attempt. */
  lemma CaughtOnce(q: Plan, outcomes: nat -> Result, used: nat, catchTimed: bool)
    requires q.catchTask.None? && q.attempts == 0 && q.maxAttempts == 1
    ensures Calls(q, outcomes, used, catchTimed) == [InTransaction(q.task, q.timed)] + CleanupCalls(q)
  {
    assert [InTransaction(q.task, q.timed)] + ([] + CleanupCalls(q)) == [InTransaction(q.task, q.timed)] + CleanupCalls(q);
  }

  /** What follows an attempt that ended so. */
  function Following(p: Plan, r: Result, outcomes: nat -> Result, used: nat): seq<Call> {
    if Retries(p, r) then Calls(p.(attempts := p.attempts + 1), outcomes, used, false)
    else CatchCalls(p, r, false) + CleanupCalls(p)
  }

  lemma CallsUnfold(p: Plan, outcomes: nat -> Result, used: nat)
    ensures Calls(p, outcomes, used, false) == [InTransaction(p.task, p.timed)] + Following(p, outcomes(used), outcomes, used + 1)
  {
  }

  lemma CallsAfter(calls: seq<Call>, c: Call, rest: seq<Call>)
    ensures calls + [c] + rest == calls + ([c] + rest)
  {
  }

  class Execution {
    const task: TaskId
    const catchTask: Option<TaskId>
    const cleanupTask: Option<TaskId>
    const timed: bool
    var attempts: nat
    var maxAttempts: nat
    var result: Option<Result>

    constructor (task: TaskId, catchTask: Option<TaskId>, cleanupTask: Option<TaskId>, timed: bool)
      ensures View() == Plan(task, catchTask, cleanupTask, timed, 0, 3)
    {
      this.task, this.catchTask, this.cleanupTask, this.timed := task, catchTask, cleanupTask, timed;
      attempts, maxAttempts, result := 0, 3, None;
    }

    function View(): Plan
      reads this
    {
      Plan(task, catchTask, cleanupTask, timed, attempts, maxAttempts)
    }

    /** The last attempt asked for another, and there may be another. */
    predicate ShouldRetryNow()
      reads this
    {
      result == Some(ShouldRetry) && attempts < maxAttempts
    }
  }

  /** A task given to the queue: one that continues an execution, or a cleanup task. */
  datatype Job = Continue(wrapper: TaskId, execution: Execution) | Cleanup(task: TaskId)

  /** The calls still to come from a queue of at most one job. */
  ghost function Ahead(queue: seq<Job>, outcomes: nat -> Result, used: nat): seq<Call>
    reads set j | j in queue && j.Continue? :: j.execution
  {
    if queue == [] then []
    else
      match queue[0]
      case Continue(_, e) => Calls(e.View(), outcomes, used, false)
      case Cleanup(t) => [Outside(t)]
  }

  /** Of these references and executions, all but the given ones belong to the queue, which
      has at most one job. */
  ghost predicate Standing(queue: seq<Job>, refs: Refs, executions: set<Execution>, base: Refs, others: set<Execution>)
    reads set j | j in queue && j.Continue? :: j.execution
  {
    if queue == [] then refs == base && executions == others
    else
      && |queue| == 1
      && match queue[0]
         case Continue(w, e) => refs == Plus(base, Plus(One(w), Holds(e.View()))) && executions == others + {e} && e !in others
         case Cleanup(t) => refs == Plus(base, One(t)) && executions == others
  }

  /** A bound on how often a job can come back. */
  ghost function PlanWeight(p: Plan): nat {
    2 + (if p.attempts < p.maxAttempts then p.maxAttempts - p.attempts else 0) + (if p.catchTask.Some? then 4 else 0)
  }

  ghost function Weight(queue: seq<Job>): nat
    reads set j | j in queue && j.Continue? :: j.execution
  {
    if queue == [] then 0 else
      match queue[0]
      case Continue(_, e) => PlanWeight(e.View())
      case Cleanup(_) => 1
  }

  class Context {
    const outcomes: nat -> Result

    /** The transactions run so far, the references held, the executions there are, the calls
        made, the queue, and the next task id. */
    var used: nat
    var refs: Refs
    var executions: set<Execution>
    var calls: seq<Call>
    var queue: seq<Job>
    var nextTask: TaskId

    constructor (outcomes: nat -> Result)
      ensures this.outcomes == outcomes && used == 0 && refs == NO_REFS && executions == {} && calls == [] && queue == []
    {
      this.outcomes := outcomes;
      used, refs, executions, calls, queue, nextTask := 0, NO_REFS, {}, [], [], 0;
    }

    /** One more reference to a task that exists. */
    method Ref(t: TaskId)
      requires Has(refs, t)
      modifies this`refs
      ensures refs == Plus(old(refs), One(t))
    {
      refs := Plus(refs, One(t));
    }

    /** One less; the task is gone with the last. */
    method Unref(t: TaskId)
      requires Has(refs, t)
      modifies this`refs
      ensures refs == Minus(old(refs), One(t))
    {
      refs := Minus(refs, One(t));
    }

    method RefIfAny(t: Option<TaskId>)
      requires HasAny(refs, t)
      modifies this`refs
      ensures refs == Plus(old(refs), Any(t))
    {
      if t.Some? {
        Ref(t.value);
      } else {
        NothingMore(refs);
      }
    }

    method UnrefIfAny(t: Option<TaskId>, ghost base: Refs)
      requires refs == Plus(base, Any(t))
      modifies this`refs
      ensures refs == base
    {
      if t.Some? {
        HasOne(base, t.value);
        Unref(t.value);
        TakenBack(base, One(t.value));
      } else {
        NothingMore(base);
      }
    }

    /** An execution takes a reference to each of its tasks. */
    method NewExecution(task: TaskId, catchTask: Option<TaskId>, cleanupTask: Option<TaskId>, timed: bool) returns (e: Execution)
      requires Has(refs, task) && HasAny(refs, catchTask) && HasAny(refs, cleanupTask)
      modifies this`refs, this`executions
      ensures fresh(e) && e.View() == Plan(task, catchTask, cleanupTask, timed, 0, 3)
      ensures executions == old(executions) + {e} && refs == Plus(old(refs), Holds(e.View()))
    {
      e := new Execution(task, catchTask, cleanupTask, timed);
      executions := executions + {e};
      HasMore(refs, One(task), catchTask);
      HasMore(refs, One(task), cleanupTask);
      HasMore(Plus(refs, One(task)), Any(catchTask), cleanupTask);
      hide Plus, One, Any, Has;
      Ref(task);
      RefIfAny(catchTask);
      RefIfAny(cleanupTask);
      Moved(old(refs), One(task), Any(catchTask));
      Moved(old(refs), Plus(One(task), Any(catchTask)), Any(cleanupTask));
    }

    /** An execution gives its references back and is gone. */
    method FreeExecution(e: Execution, ghost base: Refs)
      requires e in executions && refs == Plus(base, Holds(e.View()))
      modifies this`refs, this`executions
      ensures executions == old(executions) - {e} && refs == base
    {
      hide Plus, Minus, One, Any, Has, HasAny;
      Moved(base, Plus(One(e.task), Any(e.catchTask)), Any(e.cleanupTask));
      Moved(base, One(e.task), Any(e.catchTask));
      ghost var a, b := Plus(base, Any(e.cleanupTask)), Plus(Plus(base, Any(e.cleanupTask)), Any(e.catchTask));
      Moved(Plus(base, Any(e.catchTask)), One(e.task), Any(e.cleanupTask));
      Moved(base, Any(e.catchTask), One(e.task));
      Moved(base, Any(e.catchTask), Any(e.cleanupTask));
      assert refs == Plus(b, One(e.task));
      HasOne(b, e.task);
      Unref(e.task);
      TakenBack(b, One(e.task));
      UnrefIfAny(e.catchTask, a);
      UnrefIfAny(e.cleanupTask, base);
      executions := executions - {e};
    }

    /** One attempt at the main task, in a transaction of its own. */
    method Attempt(e: Execution)
      requires e in executions && Has(refs, e.task)
      modifies this`calls, this`used, e`attempts, e`result
      ensures calls == old(calls) + [InTransaction(e.task, e.timed)] && used == old(used) + 1
      ensures e.result == Some(outcomes(old(used))) && e.attempts == old(e.attempts) + 1
    {
      calls := calls + [InTransaction(e.task, e.timed)];
      e.result := Some(outcomes(used));
      used := used + 1;
      e.attempts := e.attempts + 1;
    }

    method RunCleanup(t: Option<TaskId>)
      requires HasAny(refs, t)
      modifies this`calls
      ensures calls == old(calls) + if t.Some? then [Outside(t.value)] else []
    {
      if t.Some? {
        calls := calls + [Outside(t.value)];
      }
    }

    // On the spot

    /** Attempts the main task until it should not be retried. */
    method AttemptAll(e: Execution)
      requires e in executions && Has(refs, e.task)
      modifies this`calls, this`used, e`attempts, e`result
      ensures var n := Attempts(old(e.View()), outcomes, old(used));
              && used == old(used) + n && e.result == Some(outcomes(used - 1))
              && calls == old(calls) + Repeated(InTransaction(e.task, e.timed), n)
      ensures e.View() == old(e.View()).(attempts := e.attempts)
    {
      hide Has;
      ghost var p0, u0 := e.View(), used;
      ghost var c := InTransaction(e.task, e.timed);
      Attempt(e);
      ghost var made := 1;
      assert Repeated(c, 1) == [c];
      while e.ShouldRetryNow()
        modifies this`calls, this`used, e`attempts, e`result
        invariant made > 0 && used == u0 + made && e.View() == p0.(attempts := p0.attempts + made)
        invariant e.result == Some(outcomes(used - 1)) && calls == old(calls) + Repeated(c, made)
        invariant Attempts(p0, outcomes, u0) == made - 1 + Attempts(p0.(attempts := p0.attempts + made - 1), outcomes, used - 1)
        decreases e.maxAttempts - e.attempts
      {
        Attempt(e);
        assert Repeated(c, made + 1) == Repeated(c, made) + [c];
        made := made + 1;
      }
    }

    /** Runs an execution to its end, then frees it. */
    method Reexecuting(e: Execution, ghost base: Refs)
      requires e in executions && refs == Plus(base, Holds(e.View()))
      modifies this`calls, this`used, this`refs, this`executions, e`attempts, e`result
      ensures calls == old(calls) + Calls(old(e.View()), outcomes, old(used), e.timed)
      ensures refs == base && executions == old(executions) - {e}
      decreases e.catchTask.Some?, 1
    {
      hide Calls, Attempts, Holds, Repeated, Plus, Has;
      ghost var p0 := e.View();
      WhatIsRun(p0, outcomes, used, e.timed);
      HoldsEach(base, p0);
      AttemptAll(e);
      if e.result != Some(Success) && e.catchTask.Some? {
        CatchNow(e);
      }
      RunCleanup(e.cleanupTask);
      SameHoldings(p0, e.View());
      FreeExecution(e, base);
    }

    /** Runs the catch task in an execution of its own, with one attempt. */
    method CatchNow(e: Execution)
      requires e.catchTask.Some? && Has(refs, e.catchTask.value) && e in executions
      modifies this`calls, this`used, this`refs, this`executions
      ensures calls == old(calls) + [InTransaction(e.catchTask.value, e.timed)]
      ensures refs == old(refs) && executions == old(executions)
      decreases e.catchTask.Some?, 0
    {
      hide Calls, Attempts, Holds, Plus, Has;
      var c := NewExecution(e.catchTask.value, None, None, e.timed);
      c.maxAttempts := 1;
      SameHoldings(c.View(), c.View().(maxAttempts := 3));
      CaughtOnce(c.View(), outcomes, used, e.timed);
      Reexecuting(c, old(refs));
      assert executions == old(executions);
    }

    // Going back to the queue

    /** A task that continues the execution goes to the queue. */
    method Submit(e: Execution)
      requires Below(refs, nextTask) && queue == []
      modifies this`refs, this`nextTask, this`queue
      ensures Below(refs, nextTask) && queue == [Continue(old(nextTask), e)]
      ensures !Has(old(refs), old(nextTask)) && refs == Plus(old(refs), One(old(nextTask)))
    {
      hide Below, Plus, One, Has;
      BelowNext(refs, nextTask);
      refs := Plus(refs, One(nextTask));
      queue := [Continue(nextTask, e)];
      nextTask := nextTask + 1;
    }

    /** The execution ends; its catch task goes to the queue, in an execution of its own that
        also has the cleanup task, but no time limit. */
    method SubmitCatch(e: Execution, ghost base: Refs, ghost others: set<Execution>)
      requires Below(refs, nextTask) && queue == [] && e.catchTask.Some?
      requires refs == Plus(base, Holds(e.View())) && executions == others + {e} && e !in others
      modifies this`refs, this`executions, this`nextTask, this`queue
      ensures Below(refs, nextTask) && Standing(queue, refs, executions, base, others)
      ensures |queue| == 1 && queue[0].Continue? && fresh(queue[0].execution)
      ensures queue[0].execution.View() == Plan(e.catchTask.value, None, e.cleanupTask, false, 0, 1)
    {
      hide Below, Plus, One, Has, HasAny, Holds;
      ghost var h, q := Holds(e.View()), Plan(e.catchTask.value, None, e.cleanupTask, false, 0, 3);
      HoldsEach(base, e.View());
      HasNone(refs);
      HasSome(refs, e.catchTask);
      BelowParts(base, h, nextTask);
      BelowHolds(q, refs, nextTask);
      BelowParts(base, Holds(q), nextTask);
      var c := NewExecution(e.catchTask.value, None, e.cleanupTask, false);
      c.maxAttempts := 1;
      Moved(base, h, Holds(q));
      FreeExecution(e, Plus(base, Holds(q)));
      assert executions == others + {c};
      SameHoldings(c.View(), q);
      Moved(base, Holds(q), One(nextTask));
      Submit(c);
    }

    /** The execution ends; its cleanup task goes to the queue, if it has one. */
    method SubmitCleanup(e: Execution, ghost base: Refs, ghost others: set<Execution>)
      requires Below(refs, nextTask) && queue == []
      requires refs == Plus(base, Holds(e.View())) && executions == others + {e} && e !in others
      modifies this`refs, this`executions, this`queue
      ensures Below(refs, nextTask) && Standing(queue, refs, executions, base, others)
      ensures queue == if e.cleanupTask.Some? then [Cleanup(e.cleanupTask.value)] else []
    {
      hide Below, Plus, One, Has, HasAny, Holds;
      ghost var h := Holds(e.View());
      HoldsEach(base, e.View());
      BelowParts(base, h, nextTask);
      if e.cleanupTask.Some? {
        var t := e.cleanupTask.value;
        HasSome(refs, e.cleanupTask);
        BelowOne(refs, t, nextTask);
        BelowParts(base, One(t), nextTask);
        Ref(t);
        Moved(base, h, One(t));
        FreeExecution(e, Plus(base, One(t)));
        queue := [Cleanup(t)];
      } else {
        FreeExecution(e, base);
      }
      assert executions == others;
    }

    /** One attempt; then the execution goes back to the queue, or ends with its catch task or
        its cleanup task in the queue. */
    method Resubmitting(e: Execution, ghost base: Refs, ghost others: set<Execution>)
      requires Below(refs, nextTask) && queue == []
      requires refs == Plus(base, Holds(e.View())) && executions == others + {e} && e !in others
      modifies this, e`attempts, e`result
      ensures Below(refs, nextTask) && Standing(queue, refs, executions, base, others)
      ensures Ahead(queue, outcomes, used) == Following(old(e.View()), outcomes(old(used)), outcomes, used)
      ensures used == old(used) + 1 && calls == old(calls) + [InTransaction(e.task, e.timed)]
      ensures Weight(queue) < PlanWeight(old(e.View()))
      ensures queue != [] && queue[0].Continue? ==> queue[0].execution == e || fresh(queue[0].execution)
    {
      hide Below, Plus, One, Has, HasAny, Holds, Calls;
      ghost var p0 := e.View();
      HoldsEach(base, p0);
      Attempt(e);
      SameHoldings(p0, e.View());
      if e.ShouldRetryNow() {
        e.result := None;
        Moved(base, Holds(p0), One(nextTask));
        Submit(e);
      } else if e.result != Some(Success) && e.catchTask.Some? {
        SubmitCatch(e, base, others);
        CaughtOnce(queue[0].execution.View(), outcomes, used, false);
      } else {
        SubmitCleanup(e, base, others);
      }
    }

    /** What a thread of the queue does with a job: runs it, and gives back the reference the
        queue had. */
    method RunJob(ghost base: Refs, ghost others: set<Execution>)
      requires Below(refs, nextTask) && queue != [] && Standing(queue, refs, executions, base, others)
      modifies this, set j | j in queue && j.Continue? :: j.execution
      ensures Below(refs, nextTask) && Standing(queue, refs, executions, base, others)
      ensures calls + Ahead(queue, outcomes, used) == old(calls) + old(Ahead(queue, outcomes, used))
      ensures Weight(queue) < old(Weight(queue))
      ensures queue != [] && queue[0].Continue? ==> fresh(queue[0].execution) || (old(queue)[0].Continue? && queue[0].execution == old(queue)[0].execution)
    {
      hide Below, Plus, Minus, One, Has, Holds, Calls;
      var job := queue[0];
      queue := queue[1..];
      match job
      case Continue(w, e) =>
        CallsUnfold(e.View(), outcomes, used);
        Moved(base, One(w), Holds(e.View()));
        Resubmitting(e, Plus(base, One(w)), others);
        CallsAfter(old(calls), InTransaction(e.task, e.timed), Ahead(queue, outcomes, used));
        StandingWithout(queue, refs, executions, base, w, others, nextTask);
        Unref(w);
      case Cleanup(t) =>
        HasOne(base, t);
        HasSomeOne(refs, t);
        RunCleanup(Some(t));
        TakenBack(base, One(t));
        BelowParts(base, One(t), nextTask);
        Unref(t);
    }

    /** Runs the jobs of the queue until there are none. */
    method RunQueue(ghost base: Refs, ghost others: set<Execution>)
      requires Below(refs, nextTask) && Standing(queue, refs, executions, base, others)
      modifies this, set j | j in queue && j.Continue? :: j.execution
      ensures queue == [] && refs == base && executions == others
      ensures calls == old(calls) + old(Ahead(queue, outcomes, used))
    {
      hide Below, Plus, Minus, One, Has, Holds, Calls;
      while queue != []
        modifies this, set j | j in queue && j.Continue? :: j.execution
        invariant Below(refs, nextTask) && Standing(queue, refs, executions, base, others)
        invariant calls + Ahead(queue, outcomes, used) == old(calls) + old(Ahead(queue, outcomes, used))
        invariant queue != [] && queue[0].Continue? ==> fresh(queue[0].execution) || (old(queue) != [] && old(queue)[0].Continue? && queue[0].execution == old(queue)[0].execution)
        decreases Weight(queue)
      {
        RunJob(base, others);
      }
    }

    /** Submits an execution to the queue and runs what comes of it: the calls are those of
        running it on the spot, but for the time limit of the catch task. */
    method RunResubmitting(e: Execution, ghost base: Refs)
      requires Below(refs, nextTask) && queue == [] && e in executions && refs == Plus(base, Holds(e.View()))
      modifies this, e
      ensures calls == old(calls) + Calls(old(e.View()), outcomes, old(used), false)
      ensures refs == base && executions == old(executions) - {e} && queue == []
    {
      hide Below, Plus, One, Has, Holds, Calls;
      ghost var others := executions - {e};
      assert executions == others + {e};
      Moved(base, Holds(e.View()), One(nextTask));
      Submit(e);
      RunQueue(base, others);
    }
  }

  lemma HasMore(r: Refs, more: Refs, t: Option<TaskId>)
    requires HasAny(r, t)
    ensures HasAny(Plus(r, more), t)
  {
  }

  lemma HasNone(r: Refs)
    ensures HasAny(r, None)
  {
  }

  lemma HasSome(r: Refs, t: Option<TaskId>)
    requires HasAny(r, t) && t.Some?
    ensures Has(r, t.value)
  {
  }

  lemma HasSomeOne(r: Refs, t: TaskId)
    requires Has(r, t)
    ensures HasAny(r, Some(t))
  {
  }

  /** The reference the queue had to the job just run can be given back. */
  lemma StandingWithout(queue: seq<Job>, refs: Refs, executions: set<Execution>, base: Refs, w: TaskId, others: set<Execution>, next: TaskId)
    requires Standing(queue, refs, executions, Plus(base, One(w)), others) && Below(refs, next)
    ensures Has(refs, w) && Standing(queue, Minus(refs, One(w)), executions, base, others) && Below(Minus(refs, One(w)), next)
  {
    hide Below, Plus, Minus, One, Has, Holds;
    if queue == [] {
      HasOne(base, w);
      TakenBack(base, One(w));
      BelowParts(base, One(w), next);
    } else {
      var more := match queue[0] case Continue(v, e) => Plus(One(v), Holds(e.View())) case Cleanup(t) => One(t);
      Moved(base, One(w), more);
      HasOne(Plus(base, more), w);
      TakenBack(Plus(base, more), One(w));
      BelowParts(Plus(base, more), One(w), next);
    }
  }
}
