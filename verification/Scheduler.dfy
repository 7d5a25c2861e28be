// The job loop of the circuit build script, as a state machine over its steps.
//
// Jobs run on their own; the script itself runs from one await to the next without
// interruption. A job that settles removes itself from the active set only through a
// `finally` handler, and that handler is attached after the awaits of its iteration.
module Scheduler {
  import opened Prelude

  datatype Circuit = Circuit(name: string, hasBatch: bool)

  datatype Config = Config(circuits: seq<Circuit>, only: Option<set<string>>, parallelLimit: int)

  datatype Job = Job(index: nat, batch: bool)

  // Where the script is. The awaits hold the set that was raced or joined.
  datatype Control =
    | Top(i: nat)
    | RaceMain(i: nat, raced: set<Job>)
    | MainStarted(i: nat)
    | RaceBatch(i: nat, raced: set<Job>)
    | BatchStarted(i: nat)
    | JoinAll(joined: set<Job>)
    | Returned

  // `hooked` are the jobs whose handler is attached, `late` those that settled before theirs was.
  datatype State = State(control: Control, active: set<Job>, started: seq<Job>,
                         settled: set<Job>, hooked: set<Job>, late: set<Job>)

  const Init: State := State(Top(0), {}, [], {}, {}, {})

  predicate Selected(c: Config, i: nat)
    requires i < |c.circuits|
  {
    c.only == None || c.circuits[i].name in c.only.value
  }

  predicate Suspended(control: Control) {
    control.RaceMain? || control.RaceBatch? || control.JoinAll?
  }

  // ---------------------------------------------------------------------------
  // Steps
  // ---------------------------------------------------------------------------

  /** Add a started job. `done` says that it completed before its first await. */
  function Start(s: State, j: Job, done: bool): State {
    s.(active := s.active + {j}, started := s.started + [j],
       settled := s.settled + if done then {j} else {},
       late := s.late + if done then {j} else {})
  }

  predicate SkipCircuit(c: Config, s: State, s': State) {
    && s.control.Top? && s.control.i < |c.circuits| && !Selected(c, s.control.i)
    && s' == s.(control := Top(s.control.i + 1))
  }

  predicate StartMain(c: Config, s: State, s': State, done: bool) {
    && s.control.Top? && s.control.i < |c.circuits| && Selected(c, s.control.i)
    && var t := Start(s, Job(s.control.i, false), done);
       s' == t.(control := if |t.active| >= c.parallelLimit then RaceMain(s.control.i, t.active)
                           else MainStarted(s.control.i))
  }

  predicate StartBatch(c: Config, s: State, s': State, done: bool) {
    && s.control.MainStarted? && s.control.i < |c.circuits| && c.circuits[s.control.i].hasBatch
    && var t := Start(s, Job(s.control.i, true), done);
       s' == t.(control := if |t.active| >= c.parallelLimit then RaceBatch(s.control.i, t.active)
                           else BatchStarted(s.control.i))
  }

  /** The end of an iteration: the handlers are attached. */
  predicate Hook(c: Config, s: State, s': State) {
    || (&& s.control.MainStarted? && s.control.i < |c.circuits| && !c.circuits[s.control.i].hasBatch
        && s' == s.(control := Top(s.control.i + 1), hooked := s.hooked + {Job(s.control.i, false)}))
    || (&& s.control.BatchStarted?
        && s' == s.(control := Top(s.control.i + 1),
                    hooked := s.hooked + {Job(s.control.i, true), Job(s.control.i, false)}))
  }

  /** A race is over. Its winner's handler, if attached, was attached before the race began, so it has run. */
  predicate Won(s: State, raced: set<Job>, winner: Job) {
    winner in raced && winner in s.settled && (winner in s.hooked ==> winner !in s.active)
  }

  predicate Wake(s: State, s': State, winner: Job) {
    || (&& s.control.RaceMain? && Won(s, s.control.raced, winner)
        && s' == s.(control := MainStarted(s.control.i)))
    || (&& s.control.RaceBatch? && Won(s, s.control.raced, winner)
        && s' == s.(control := BatchStarted(s.control.i)))
  }

  predicate Settle(s: State, s': State, j: Job) {
    && Suspended(s.control) && j in s.started && j !in s.settled
    && s' == s.(settled := s.settled + {j}, late := s.late + if j in s.hooked then {} else {j})
  }

  /** A handler runs. One attached to an already settled job waits for the next await. */
  predicate RunHandler(s: State, s': State, j: Job) {
    && Suspended(s.control) && j in s.hooked && j in s.settled && j in s.active
    && s' == s.(active := s.active - {j})
  }

  predicate Join(c: Config, s: State, s': State) {
    || (s.control == Top(|c.circuits|) && s' == s.(control := JoinAll(s.active)))
    || (s.control.JoinAll? && s.control.joined <= s.settled && s' == s.(control := Returned))
  }

  datatype Step =
    | DoSkip | DoStartMain(done: bool) | DoStartBatch(done: bool) | DoHook
    | DoWake(winner: Job) | DoSettle(job: Job) | DoRunHandler(job: Job) | DoJoin

  predicate Takes(c: Config, s: State, s': State, step: Step) {
    match step
    case DoSkip => SkipCircuit(c, s, s')
    case DoStartMain(done) => StartMain(c, s, s', done)
    case DoStartBatch(done) => StartBatch(c, s, s', done)
    case DoHook => Hook(c, s, s')
    case DoWake(winner) => Wake(s, s', winner)
    case DoSettle(job) => Settle(s, s', job)
    case DoRunHandler(job) => RunHandler(s, s', job)
    case DoJoin => Join(c, s, s')
  }

  ghost predicate Next(c: Config, s: State, s': State) {
    exists step :: Takes(c, s, s', step)
  }

  ghost predicate IsRun(c: Config, run: seq<State>) {
    && run != [] && run[0] == Init
    && forall k | 0 < k < |run| :: Next(c, run[k - 1], run[k])
  }

  // ---------------------------------------------------------------------------
  // Prompt runs: every settlement is an event of its own, and whatever reacts to it
  // is done before the next. An event loop has all of these runs, perhaps more.
  // ---------------------------------------------------------------------------

  /** No handler is waiting to run. */
  predicate Flushed(s: State) {
    forall j | j in s.hooked && j in s.settled :: j !in s.active
  }

  function Raced(control: Control): set<Job> {
    match control
    case RaceMain(_, raced) => raced
    case RaceBatch(_, raced) => raced
    case _ => {}
  }

  /** The script resumes after all handlers; a job settles when neither handler nor script has to react any more. */
  predicate Prompt(s: State, step: Step) {
    match step
    case DoWake(_) => Flushed(s)
    case DoJoin => s.control.JoinAll? ==> Flushed(s)
    case DoSettle(_) => Flushed(s) && Raced(s.control) !! s.settled
    case _ => true
  }

  ghost predicate PromptNext(c: Config, s: State, s': State) {
    exists step :: Takes(c, s, s', step) && Prompt(s, step)
  }

  ghost predicate IsPromptRun(c: Config, run: seq<State>) {
    && run != [] && run[0] == Init
    && forall k | 0 < k < |run| :: PromptNext(c, run[k - 1], run[k])
  }

  lemma PromptRunIsRun(c: Config, run: seq<State>)
    requires IsPromptRun(c, run)
    ensures IsRun(c, run)
  {
    forall k | 0 < k < |run|
      ensures Next(c, run[k - 1], run[k])
    {
      assert PromptNext(c, run[k - 1], run[k]);
    }
  }

  // ---------------------------------------------------------------------------
  // The jobs a configuration calls for
  // ---------------------------------------------------------------------------

  predicate Due(c: Config, j: Job) {
    j.index < |c.circuits| && Selected(c, j.index) && (j.batch ==> c.circuits[j.index].hasBatch)
  }

  function JobsOf(c: Config, i: nat): seq<Job>
    requires i < |c.circuits|
  {
    if !Selected(c, i) then []
    else if c.circuits[i].hasBatch then [Job(i, false), Job(i, true)]
    else [Job(i, false)]
  }

  function JobsBefore(c: Config, i: nat): seq<Job>
    requires i <= |c.circuits|
  {
    if i == 0 then [] else JobsBefore(c, i - 1) + JobsOf(c, i - 1)
  }

  lemma {:induction false} JobsBeforeAreDue(c: Config, i: nat, j: Job)
    requires i <= |c.circuits|
    ensures j in JobsBefore(c, i) <==> j.index < i && Due(c, j)
    decreases i
  {
    if i > 0 {
      JobsBeforeAreDue(c, i - 1, j);
      assert j in JobsBefore(c, i) <==> j in JobsBefore(c, i - 1) || j in JobsOf(c, i - 1);
    }
  }

  /** The position of a job in the order of the configuration. */
  function Rank(j: Job): nat {
    2 * j.index + if j.batch then 1 else 0
  }

  predicate Increasing(jobs: seq<Job>) {
    forall a, b | 0 <= a < b < |jobs| :: Rank(jobs[a]) < Rank(jobs[b])
  }

  lemma RanksConcat(a: seq<Job>, b: seq<Job>, bound: nat)
    requires Increasing(a) && Increasing(b)
    requires forall k | 0 <= k < |a| :: Rank(a[k]) < bound
    requires forall k | 0 <= k < |b| :: bound <= Rank(b[k])
    ensures Increasing(a + b)
  {
  }

  lemma {:induction false} JobsBeforeIncrease(c: Config, i: nat)
    requires i <= |c.circuits|
    ensures Increasing(JobsBefore(c, i))
    ensures forall a | 0 <= a < |JobsBefore(c, i)| :: Rank(JobsBefore(c, i)[a]) < 2 * i
    decreases i
  {
    if i > 0 {
      var before, jobs := JobsBefore(c, i - 1), JobsOf(c, i - 1);
      JobsBeforeIncrease(c, i - 1);
      assert forall a | 0 <= a < |jobs| :: 2 * i - 2 <= Rank(jobs[a]) < 2 * i;
      assert Increasing(jobs);
      RanksConcat(before, jobs, 2 * i - 2);
    }
  }

  // ---------------------------------------------------------------------------
  // The invariant
  // ---------------------------------------------------------------------------

  function Unsettled(s: State): set<Job> {
    (set j | j in s.started) - s.settled
  }

  /** The jobs of the current iteration: started, their handlers not attached yet. */
  function Current(s: State): seq<Job> {
    match s.control
    case RaceMain(i, _) => [Job(i, false)]
    case MainStarted(i) => [Job(i, false)]
    case RaceBatch(i, _) => [Job(i, false), Job(i, true)]
    case BatchStarted(i) => [Job(i, false), Job(i, true)]
    case _ => []
  }

  function Position(c: Config, s: State): nat {
    match s.control
    case Top(i) => i
    case RaceMain(i, _) => i
    case MainStarted(i) => i
    case RaceBatch(i, _) => i
    case BatchStarted(i) => i
    case _ => |c.circuits|
  }

  /** The script starts exactly the jobs of the iterations behind it and of the current one. */
  predicate Place(c: Config, s: State) {
    var i := Position(c, s);
    && i <= |c.circuits|
    && (Current(s) != [] ==> i < |c.circuits| && Selected(c, i) && (|Current(s)| == 2 ==> c.circuits[i].hasBatch))
    && s.started == JobsBefore(c, i) + Current(s)
  }

  /** Handlers are missing exactly for the current jobs; a job leaves the active set only after it settled. */
  predicate Sets(s: State) {
    && (forall j | j in s.started :: j in s.hooked <==> j !in Current(s))
    && (forall j | j in Current(s) :: j in s.active)
    && (forall j | j in s.active :: j in s.started)
    && (forall j | j in s.hooked :: j in s.started)
    && (forall j | j in s.settled :: j in s.started)
    && (forall j | j in s.started && j !in s.settled :: j in s.active)
    && (forall j | j in s.late :: j in s.settled)
    && (forall j | j in Current(s) && j in s.settled :: j in s.late)
  }

  predicate Bookkeeping(c: Config, s: State) {
    Place(c, s) && Sets(s)
  }

  function Cap(c: Config): nat {
    if c.parallelLimit < 1 then 1 else c.parallelLimit
  }

  /** How large the active set can be, each late job counted twice. A job of the current iteration that has
      already settled will wake the script without leaving the set, which has to be paid for in advance. */
  predicate Sizes(c: Config, s: State) {
    var room := Cap(c) + 2 * |s.late|;
    match s.control
    case Top(_) => |s.active| <= room - 1
    case RaceMain(i, raced) =>
      && s.active <= raced && |raced| <= room
      && (Job(i, false) in s.settled ==> |s.active| <= room - 2)
    case MainStarted(i) =>
      && |s.active| <= room - 1
      && (Job(i, false) in s.settled ==> |s.active| <= room - 2)
    case RaceBatch(i, raced) =>
      && s.active <= raced && |raced| <= room
      && (Job(i, false) in s.settled ==> |s.active| <= room - 1)
      && (Job(i, true) in s.settled ==> |s.active| <= room - 2)
    case BatchStarted(i) => |s.active| <= room - 1
    case JoinAll(joined) =>
      && s.active <= joined && |joined| <= room && Unsettled(s) <= joined
      && forall j | j in joined :: j in s.started
    case Returned => |s.active| <= room && Unsettled(s) == {}
  }

  predicate Inv(c: Config, s: State) {
    Bookkeeping(c, s) && Sizes(c, s)
  }

  lemma SubsetSize<T>(a: set<T>, b: set<T>)
    requires a <= b
    ensures |a| <= |b|
    ensures a != b ==> |a| < |b|
  {
    assert b == a + (b - a);
  }

  lemma NewJob(c: Config, s: State, j: Job)
    requires Bookkeeping(c, s) && j.index == Position(c, s) && j !in Current(s)
    ensures j !in s.started && j !in s.active && j !in s.settled && j !in s.hooked && j !in s.late
  {
    JobsBeforeAreDue(c, j.index, j);
  }

  lemma StartKeepsSets(s: State, s': State, j: Job, done: bool)
    requires Sets(s) && j !in s.started && Current(s') == Current(s) + [j]
    requires s'.(control := s.control) == Start(s, j, done)
    ensures Sets(s')
  {
    forall k
      ensures k in s'.started <==> k in s.started || k == j
      ensures k in Current(s') <==> k in Current(s) || k == j
    {
    }
  }

  lemma StartKeepsPlace(c: Config, s: State, s': State, done: bool)
    requires Place(c, s) && (StartMain(c, s, s', done) || StartBatch(c, s, s', done))
    ensures Place(c, s') && Current(s') == Current(s) + [Job(s.control.i, s.control.MainStarted?)]
  {
    var i, before := s.control.i, JobsBefore(c, s.control.i);
    if s.control.MainStarted? {
      assert before + [Job(i, false)] + [Job(i, true)] == before + [Job(i, false), Job(i, true)];
    } else {
      assert before + [] == before;
    }
  }

  lemma StartKeepsBooks(c: Config, s: State, s': State, done: bool)
    requires Bookkeeping(c, s) && (StartMain(c, s, s', done) || StartBatch(c, s, s', done))
    ensures Bookkeeping(c, s')
  {
    var j := Job(s.control.i, s.control.MainStarted?);
    NewJob(c, s, j);
    StartKeepsPlace(c, s, s', done);
    StartKeepsSets(s, s', j, done);
  }

  lemma StartMainKeepsSizes(c: Config, s: State, s': State, done: bool)
    requires Inv(c, s) && StartMain(c, s, s', done)
    ensures Sizes(c, s')
  {
    NewJob(c, s, Job(s.control.i, false));
  }

  lemma StartBatchKeepsSizes(c: Config, s: State, s': State, done: bool)
    requires Inv(c, s) && StartBatch(c, s, s', done)
    ensures Sizes(c, s')
  {
    NewJob(c, s, Job(s.control.i, true));
  }

  lemma HookKeepsInv(c: Config, s: State, s': State)
    requires Inv(c, s) && Hook(c, s, s')
    ensures Inv(c, s')
  {
    assert s'.started == JobsBefore(c, s.control.i + 1) + [];
  }

  lemma SkipKeepsInv(c: Config, s: State, s': State)
    requires Inv(c, s) && SkipCircuit(c, s, s')
    ensures Inv(c, s')
  {
    assert s'.started == JobsBefore(c, s.control.i + 1) + [];
  }

  lemma WakeKeepsInv(c: Config, s: State, s': State, winner: Job)
    requires Inv(c, s) && Wake(s, s', winner)
    ensures Inv(c, s')
  {
    if winner in s.hooked {
      SubsetSize(s.active, s.control.raced);
    }
  }

  lemma SettleKeepsInv(c: Config, s: State, s': State, j: Job)
    requires Inv(c, s) && Settle(s, s', j)
    ensures Inv(c, s')
  {
    if s.control.RaceMain? || s.control.RaceBatch? {
      SubsetSize(s.active, s.control.raced);
    }
  }

  lemma HandlerKeepsInv(c: Config, s: State, s': State, j: Job)
    requires Inv(c, s) && RunHandler(s, s', j)
    ensures Inv(c, s')
  {
  }

  lemma JoinKeepsInv(c: Config, s: State, s': State)
    requires Inv(c, s) && Join(c, s, s')
    ensures Inv(c, s')
  {
    if s.control.JoinAll? {
      SubsetSize(s.active, s.control.joined);
    }
  }

  /** Every step keeps the invariant. */
  lemma StepKeepsInv(c: Config, s: State, s': State, step: Step)
    requires Inv(c, s) && Takes(c, s, s', step)
    ensures Inv(c, s')
  {
    match step {
      case DoSkip => SkipKeepsInv(c, s, s');
      case DoStartMain(done) =>
        StartKeepsBooks(c, s, s', done);
        StartMainKeepsSizes(c, s, s', done);
      case DoStartBatch(done) =>
        StartKeepsBooks(c, s, s', done);
        StartBatchKeepsSizes(c, s, s', done);
      case DoHook => HookKeepsInv(c, s, s');
      case DoWake(winner) => WakeKeepsInv(c, s, s', winner);
      case DoSettle(job) => SettleKeepsInv(c, s, s', job);
      case DoRunHandler(job) => HandlerKeepsInv(c, s, s', job);
      case DoJoin => JoinKeepsInv(c, s, s');
    }
  }

  lemma {:induction false} RunKeepsInv(c: Config, run: seq<State>, k: nat)
    requires IsRun(c, run) && k < |run|
    ensures Inv(c, run[k])
    decreases k
  {
    if k == 0 {
      assert JobsBefore(c, 0) == [];
    } else {
      RunKeepsInv(c, run, k - 1);
      var step :| Takes(c, run[k - 1], run[k], step);
      StepKeepsInv(c, run[k - 1], run[k], step);
    }
  }

  // ---------------------------------------------------------------------------
  // What holds throughout a run
  // ---------------------------------------------------------------------------

  /** The number of jobs running at once exceeds the limit by at most two for every late job. */
  lemma ConcurrencyBound(c: Config, run: seq<State>, k: nat)
    requires IsRun(c, run) && k < |run|
    ensures |Unsettled(run[k])| <= Cap(c) + 2 * |run[k].late|
  {
    RunKeepsInv(c, run, k);
    var s := run[k];
    SubsetSize(Unsettled(s), s.active);
    if s.control.RaceMain? || s.control.RaceBatch? {
      SubsetSize(s.active, s.control.raced);
    } else if s.control.JoinAll? {
      SubsetSize(s.active, s.control.joined);
    }
  }

  /** Without late jobs a positive limit is kept. */
  lemma LimitKeptWithoutLateJobs(c: Config, run: seq<State>, k: nat)
    requires IsRun(c, run) && k < |run|
    requires c.parallelLimit >= 1 && run[k].late == {}
    ensures |Unsettled(run[k])| <= c.parallelLimit
  {
    ConcurrencyBound(c, run, k);
  }

  /** Every running job is in the active set, at every await and between them. */
  lemma RunningJobsAreActive(c: Config, run: seq<State>, k: nat)
    requires IsRun(c, run) && k < |run|
    ensures Unsettled(run[k]) <= run[k].active
  {
    RunKeepsInv(c, run, k);
  }

  /** When the script returns, the jobs the configuration calls for, and no others, were started, each of
      them once and in the order of the configuration, and none is still running. */
  lemma Completion(c: Config, run: seq<State>, k: nat, j: Job)
    requires IsRun(c, run) && k < |run| && run[k].control == Returned
    ensures j in run[k].started <==>
              && j.index < |c.circuits|
              && (c.only.None? || c.circuits[j.index].name in c.only.value)
              && (j.batch ==> c.circuits[j.index].hasBatch)
    ensures Increasing(run[k].started)
    ensures Unsettled(run[k]) == {}
  {
    RunKeepsInv(c, run, k);
    assert run[k].started == JobsBefore(c, |c.circuits|);
    JobsBeforeAreDue(c, |c.circuits|, j);
    JobsBeforeIncrease(c, |c.circuits|);
  }

  // ---------------------------------------------------------------------------
  // Progress
  // ---------------------------------------------------------------------------

  function AfterSettle(s: State, j: Job): State {
    s.(settled := s.settled + {j}, late := s.late + if j in s.hooked then {} else {j})
  }

  /** A handler that is waiting can run. */
  lemma HandlerGoesOn(c: Config, s: State) returns (s': State)
    requires Suspended(s.control) && !Flushed(s)
    ensures PromptNext(c, s, s')
  {
    var j :| j in s.hooked && j in s.settled && j in s.active;
    s' := s.(active := s.active - {j});
    assert Takes(c, s, s', DoRunHandler(j)) && Prompt(s, DoRunHandler(j));
  }

  /** A race can always go on: the job just started is in it, and it wakes the script once it has settled. */
  lemma RaceGoesOn(c: Config, s: State) returns (s': State)
    requires Inv(c, s) && (s.control.RaceMain? || s.control.RaceBatch?)
    ensures PromptNext(c, s, s')
  {
    var j := Job(s.control.i, false);
    assert j in Current(s);
    if !Flushed(s) {
      s' := HandlerGoesOn(c, s);
    } else if winner :| winner in s.control.raced && winner in s.settled {
      s' := s.(control := if s.control.RaceMain? then MainStarted(s.control.i) else BatchStarted(s.control.i));
      assert Takes(c, s, s', DoWake(winner)) && Prompt(s, DoWake(winner));
    } else {
      s' := AfterSettle(s, j);
      assert Takes(c, s, s', DoSettle(j)) && Prompt(s, DoSettle(j));
    }
  }

  lemma JoinGoesOn(c: Config, s: State) returns (s': State)
    requires Inv(c, s) && s.control.JoinAll?
    ensures PromptNext(c, s, s')
  {
    if !Flushed(s) {
      s' := HandlerGoesOn(c, s);
    } else if j :| j in Unsettled(s) {
      s' := AfterSettle(s, j);
      assert Takes(c, s, s', DoSettle(j)) && Prompt(s, DoSettle(j));
    } else {
      s' := s.(control := Returned);
      assert forall j | j in s.started :: j in s.settled || j in Unsettled(s);
      assert Takes(c, s, s', DoJoin) && Prompt(s, DoJoin);
    }
  }

  /** Until the script has returned, some prompt step is possible. */
  lemma NoDeadlock(c: Config, s: State) returns (s': State)
    requires Inv(c, s) && s.control != Returned
    ensures PromptNext(c, s, s')
  {
    match s.control {
      case Top(i) =>
        if i == |c.circuits| {
          s' := s.(control := JoinAll(s.active));
          assert Takes(c, s, s', DoJoin) && Prompt(s, DoJoin);
        } else if !Selected(c, i) {
          s' := s.(control := Top(i + 1));
          assert Takes(c, s, s', DoSkip) && Prompt(s, DoSkip);
        } else {
          var t := Start(s, Job(i, false), false);
          s' := t.(control := if |t.active| >= c.parallelLimit then RaceMain(i, t.active) else MainStarted(i));
          assert Takes(c, s, s', DoStartMain(false)) && Prompt(s, DoStartMain(false));
        }
      case MainStarted(i) =>
        assert Current(s) != [];
        if c.circuits[i].hasBatch {
          var t := Start(s, Job(i, true), false);
          s' := t.(control := if |t.active| >= c.parallelLimit then RaceBatch(i, t.active) else BatchStarted(i));
          assert Takes(c, s, s', DoStartBatch(false)) && Prompt(s, DoStartBatch(false));
        } else {
          s' := s.(control := Top(i + 1), hooked := s.hooked + {Job(i, false)});
          assert Takes(c, s, s', DoHook) && Prompt(s, DoHook);
        }
      case BatchStarted(i) =>
        s' := s.(control := Top(i + 1), hooked := s.hooked + {Job(i, true), Job(i, false)});
        assert Takes(c, s, s', DoHook) && Prompt(s, DoHook);
      case RaceMain(_, _) => s' := RaceGoesOn(c, s);
      case RaceBatch(_, _) => s' := RaceGoesOn(c, s);
      case JoinAll(_) => s' := JoinGoesOn(c, s);
    }
  }

  /** Statements of the script still ahead, with room for every iteration's two starts and awaits. */
  function StatementsLeft(n: nat, control: Control): int {
    match control
    case Top(i) => 2 + 6 * (n - i)
    case RaceMain(i, _) => 1 + 6 * (n - i)
    case MainStarted(i) => 6 * (n - i)
    case RaceBatch(i, _) => 6 * (n - i) - 1
    case BatchStarted(i) => 6 * (n - i) - 2
    case JoinAll(_) => 1
    case Returned => 0
  }

  /** What is left to do: statements of the script, jobs to settle, handlers to run. */
  function Work(c: Config, s: State): int {
    var n := |c.circuits|;
    StatementsLeft(n, s.control) + (2 * n - |s.settled|) + (2 * n - (|s.started| - |s.active|))
  }

  lemma {:induction false} SetOfSeq<T>(xs: seq<T>, s: set<T>)
    requires forall x | x in s :: x in xs
    ensures |s| <= |xs|
    decreases |xs|
  {
    if xs == [] {
      assert s == {};
    } else {
      SetOfSeq(xs[1..], s - {xs[0]});
      assert |s| <= |s - {xs[0]}| + 1 by {
        if xs[0] in s {
          assert s == (s - {xs[0]}) + {xs[0]};
        } else {
          assert s == s - {xs[0]};
        }
      }
    }
  }

  lemma {:induction false} JobsBeforeLength(c: Config, i: nat)
    requires i <= |c.circuits|
    ensures |JobsBefore(c, i)| <= 2 * i
    decreases i
  {
    if i > 0 {
      JobsBeforeLength(c, i - 1);
    }
  }

  lemma WorkNonnegative(c: Config, s: State)
    requires Inv(c, s)
    ensures Work(c, s) >= 0
  {
    JobsBeforeLength(c, Position(c, s));
    SetOfSeq(s.started, s.settled);
    SetOfSeq(s.started, s.active);
  }

  /** Work left falls when the script moves on and the sets account for themselves. */
  lemma WorkFalls(c: Config, s: State, s': State)
    requires |s'.settled| - |s.settled| + (|s'.started| - |s'.active|) - (|s.started| - |s.active|)
             + StatementsLeft(|c.circuits|, s.control) - StatementsLeft(|c.circuits|, s'.control) > 0
    ensures Work(c, s') < Work(c, s)
  {
  }

  lemma StartSizes(s: State, j: Job, done: bool)
    requires j !in s.active
    ensures var t := Start(s, j, done);
            |t.started| - |t.active| == |s.started| - |s.active| && |t.settled| >= |s.settled|
  {
    var t := Start(s, j, done);
    assert |t.active| == |s.active| + 1;
    SubsetSize(s.settled, t.settled);
  }

  lemma StartMovesOn(n: nat, i: nat, raced: set<Job>)
    ensures StatementsLeft(n, Top(i)) > StatementsLeft(n, RaceMain(i, raced)) > StatementsLeft(n, MainStarted(i))
    ensures StatementsLeft(n, MainStarted(i)) > StatementsLeft(n, RaceBatch(i, raced)) > StatementsLeft(n, BatchStarted(i))
  {
  }

  lemma StartKeepsJobs(c: Config, s: State, s': State, done: bool)
    requires StartMain(c, s, s', done) || StartBatch(c, s, s', done)
    ensures var t := Start(s, Job(s.control.i, s.control.MainStarted?), done);
            s'.active == t.active && s'.started == t.started && s'.settled == t.settled
  {
  }

  lemma StartShortens(c: Config, s: State, s': State, done: bool)
    requires StartMain(c, s, s', done) || StartBatch(c, s, s', done)
    ensures StatementsLeft(|c.circuits|, s.control) > StatementsLeft(|c.circuits|, s'.control)
  {
    StartMovesOn(|c.circuits|, s.control.i, s'.active);
  }

  lemma StartDoesWork(c: Config, s: State, s': State, done: bool)
    requires StartMain(c, s, s', done) || StartBatch(c, s, s', done)
    requires Job(s.control.i, s.control.MainStarted?) !in s.active
    ensures Work(c, s') < Work(c, s)
  {
    StartKeepsJobs(c, s, s', done);
    StartSizes(s, Job(s.control.i, s.control.MainStarted?), done);
    StartShortens(c, s, s', done);
    WorkFalls(c, s, s');
  }

  lemma OtherStepDoesWork(c: Config, s: State, s': State, step: Step)
    requires Takes(c, s, s', step) && !step.DoStartMain? && !step.DoStartBatch?
    requires s.control.MainStarted? || s.control.BatchStarted? ==> s.control.i < |c.circuits|
    ensures Work(c, s') < Work(c, s)
  {
    if step.DoSettle? {
      assert |s'.settled| == |s.settled| + 1;
    } else if step.DoRunHandler? {
      assert |s'.active| == |s.active| - 1;
    } else {
      assert s'.settled == s.settled && s'.active == s.active;
      assert StatementsLeft(|c.circuits|, s.control) > StatementsLeft(|c.circuits|, s'.control);
    }
    WorkFalls(c, s, s');
  }

  lemma StepDoesWork(c: Config, s: State, s': State, step: Step)
    requires Inv(c, s) && Takes(c, s, s', step)
    ensures Work(c, s') < Work(c, s)
  {
    if step.DoStartMain? || step.DoStartBatch? {
      NewJob(c, s, Job(s.control.i, s.control.MainStarted?));
      StartDoesWork(c, s, s', step.done);
    } else {
      OtherStepDoesWork(c, s, s', step);
    }
  }

  /** Every run is finite, so a run that cannot be continued has returned. */
  lemma {:induction false} RunsAreBounded(c: Config, run: seq<State>, k: nat)
    requires IsRun(c, run) && k < |run|
    ensures k + Work(c, run[k]) <= 10 * |c.circuits| + 2
    decreases k
  {
    if k > 0 {
      RunsAreBounded(c, run, k - 1);
      RunKeepsInv(c, run, k - 1);
      var step :| Takes(c, run[k - 1], run[k], step);
      StepDoesWork(c, run[k - 1], run[k], step);
    }
  }

  lemma RunExtends(c: Config, run: seq<State>, s': State)
    requires IsRun(c, run) && Next(c, run[|run| - 1], s')
    ensures IsRun(c, run + [s'])
  {
    var longer := run + [s'];
    forall k | 0 < k < |longer|
      ensures Next(c, longer[k - 1], longer[k])
    {
      if k < |run| {
        assert Next(c, run[k - 1], run[k]);
      }
    }
  }

  lemma PromptRunExtends(c: Config, run: seq<State>, s': State)
    requires IsPromptRun(c, run) && PromptNext(c, run[|run| - 1], s')
    ensures IsPromptRun(c, run + [s'])
  {
    var longer := run + [s'];
    forall k | 0 < k < |longer|
      ensures PromptNext(c, longer[k - 1], longer[k])
    {
      if k < |run| {
        assert PromptNext(c, run[k - 1], run[k]);
      }
    }
  }

  /** Every run has at most 10n + 3 states, and one that ends before the script has returned can be continued,
      promptly if it was prompt. */
  lemma EveryRunCanReturn(c: Config, run: seq<State>)
    requires IsRun(c, run)
    ensures |run| <= 10 * |c.circuits| + 3
    ensures run[|run| - 1].control != Returned ==>
              exists s' :: IsRun(c, run + [s']) && (IsPromptRun(c, run) ==> IsPromptRun(c, run + [s']))
  {
    var last := run[|run| - 1];
    RunKeepsInv(c, run, |run| - 1);
    RunsAreBounded(c, run, |run| - 1);
    WorkNonnegative(c, last);
    if last.control != Returned {
      var s' := NoDeadlock(c, last);
      RunExtends(c, run, s');
      if IsPromptRun(c, run) {
        PromptRunExtends(c, run, s');
      }
    }
  }

  // ---------------------------------------------------------------------------
  // The bound is reached
  // ---------------------------------------------------------------------------

  /** Some prompt run ends in `s`. */
  ghost predicate Reachable(c: Config, s: State) {
    exists run :: IsPromptRun(c, run) && run[|run| - 1] == s
  }

  lemma Reach(c: Config, s: State, s': State, step: Step)
    requires Reachable(c, s) && Takes(c, s, s', step) && Prompt(s, step)
    ensures Reachable(c, s')
  {
    var run :| IsPromptRun(c, run) && run[|run| - 1] == s;
    PromptRunExtends(c, run, s');
    assert (run + [s'])[|run|] == s';
  }

  lemma ReachableInv(c: Config, s: State)
    requires Reachable(c, s)
    ensures Inv(c, s)
  {
    var run :| IsPromptRun(c, run) && run[|run| - 1] == s;
    PromptRunIsRun(c, run);
    RunKeepsInv(c, run, |run| - 1);
  }

  /** Settled jobs in the active set whose handlers are not attached leave no handler waiting. */
  lemma OnlyStale(s: State, stale: set<Job>)
    requires s.active * s.settled <= stale && stale !! s.hooked
    ensures Flushed(s)
  {
    forall j | j in s.hooked && j in s.settled
      ensures j !in s.active
    {
      assert j in s.active ==> j in s.active * s.settled;
    }
  }

  /** A race the script has to enter, and the state it then waits in. */
  function Waiting(s: State, j: Job): State {
    var t := Start(s, j, false);
    t.(control := if j.batch then RaceBatch(j.index, t.active) else RaceMain(j.index, t.active))
  }

  lemma ReachWaiting(c: Config, s: State, j: Job)
    requires Reachable(c, s) && j.index < |c.circuits| && |s.active + {j}| >= c.parallelLimit
    requires if j.batch then s.control == MainStarted(j.index) && c.circuits[j.index].hasBatch
             else s.control == Top(j.index) && Selected(c, j.index)
    ensures Reachable(c, Waiting(s, j))
    ensures j !in s.active && j !in s.settled && j !in s.hooked && j !in s.late
  {
    ReachableInv(c, s);
    NewJob(c, s, j);
    Reach(c, s, Waiting(s, j), if j.batch then DoStartBatch(false) else DoStartMain(false));
  }

  lemma NewJobSize(c: Config, s: State, j: Job)
    requires Reachable(c, s) && j.index == Position(c, s) && j !in Current(s)
    ensures |s.active + {j}| == |s.active| + 1
  {
    ReachableInv(c, s);
    NewJob(c, s, j);
  }

  /** The script waits with `j` just started and every active job running. */
  ghost predicate WaitsWith(c: Config, s: State, j: Job) {
    && Reachable(c, s) && s.active * s.settled == {}
    && s.control == if j.batch then RaceBatch(j.index, s.active) else RaceMain(j.index, s.active)
  }

  lemma JustStarted(c: Config, s: State, j: Job)
    requires WaitsWith(c, s, j)
    ensures j in s.started && j in s.active && j !in s.hooked && j !in s.settled
  {
    ReachableInv(c, s);
    assert j in Current(s);
    assert j in s.settled ==> j in s.active * s.settled;
  }

  function AfterRace(s: State, j: Job): State {
    s.(control := if j.batch then BatchStarted(j.index) else MainStarted(j.index))
  }

  /** A job that settles during its own race ends that race but stays in the active set. */
  lemma LateRace(c: Config, s: State, j: Job)
    requires WaitsWith(c, s, j)
    ensures var t := AfterRace(AfterSettle(s, j), j);
            Reachable(c, t) && t.late == s.late + {j} && t.active * t.settled == {j} && j !in t.hooked
  {
    JustStarted(c, s, j);
    var r := AfterSettle(s, j);
    OnlyStale(s, {});
    Reach(c, s, r, DoSettle(j));
    assert r.active * r.settled == {j};
    OnlyStale(r, {j});
    Reach(c, r, AfterRace(r, j), DoWake(j));
  }

  lemma LateMain(c: Config, s: State, i: nat) returns (t: State)
    requires Reachable(c, s) && s.control == Top(i) && |s.active| >= c.parallelLimit - 1
    requires i < |c.circuits| && Selected(c, i) && s.active * s.settled == {}
    ensures var m := Job(i, false);
            && Reachable(c, t) && t.control == MainStarted(i)
            && t.active == s.active + {m} && t.settled == s.settled + {m} && t.late == s.late + {m}
            && t.hooked == s.hooked && m !in s.hooked && m !in s.active && m !in s.late
            && t.active * t.settled == {m}
  {
    var m := Job(i, false);
    NewJobSize(c, s, m);
    ReachWaiting(c, s, m);
    LateRace(c, Waiting(s, m), m);
    t := AfterRace(AfterSettle(Waiting(s, m), m), m);
  }

  /** It also ends the race for the batch job, and the iteration is over. */
  lemma StaleBatchRace(c: Config, s: State, i: nat) returns (t: State)
    requires Reachable(c, s) && s.control == MainStarted(i) && |s.active| >= c.parallelLimit
    requires i < |c.circuits| && c.circuits[i].hasBatch
    requires s.active * s.settled == {Job(i, false)} && Job(i, false) !in s.hooked
    ensures var m, b := Job(i, false), Job(i, true);
            && Reachable(c, t) && t.control == Top(i + 1)
            && t.active == s.active + {b} && t.settled == s.settled && t.late == s.late
            && t.hooked == s.hooked + {b, m} && b !in s.active && b !in s.settled
  {
    var m, b := Job(i, false), Job(i, true);
    assert m in s.active * s.settled;
    SubsetSize(s.active, s.active + {b});
    ReachWaiting(c, s, b);
    var s1 := Waiting(s, b);
    OnlyStale(s1, {m});
    var s2 := s1.(control := BatchStarted(i));
    Reach(c, s1, s2, DoWake(m));
    t := s2.(control := Top(i + 1), hooked := s2.hooked + {b, m});
    Reach(c, s2, t, DoHook);
  }

  /** So it is still in the active set when its iteration ends. */
  lemma LateIteration(c: Config, s: State, i: nat) returns (t: State)
    requires Reachable(c, s) && s.control == Top(i) && |s.active| >= c.parallelLimit - 1
    requires i < |c.circuits| && Selected(c, i) && c.circuits[i].hasBatch && s.active * s.settled == {}
    ensures var m, b := Job(i, false), Job(i, true);
            && Reachable(c, t) && t.control == Top(i + 1)
            && t.active == s.active + {m} + {b} && t.settled == s.settled + {m} && t.late == s.late + {m}
            && t.hooked == s.hooked + {b, m} && t.active * t.settled == {m}
            && m !in s.active && b !in s.active && m !in s.late && b !in t.settled
  {
    var r := LateMain(c, s, i);
    SubsetSize(s.active, r.active);
    t := StaleBatchRace(c, r, i);
  }

  /** A race that is over because of `stale`, which settled before it and leaves the set now. */
  lemma StaleRace(c: Config, s: State, stale: Job) returns (t: State)
    requires Reachable(c, s) && (s.control.RaceMain? || s.control.RaceBatch?) && s.control.raced == s.active
    requires s.active * s.settled == {stale} && stale in s.hooked
    ensures Reachable(c, t)
    ensures t.control == if s.control.RaceMain? then MainStarted(s.control.i) else BatchStarted(s.control.i)
    ensures t == s.(control := t.control, active := s.active - {stale}) && t.active * t.settled == {}
  {
    assert stale in s.active * s.settled;
    var r := s.(active := s.active - {stale});
    Reach(c, s, r, DoRunHandler(stale));
    assert r.active * r.settled == {};
    OnlyStale(r, {});
    t := r.(control := if s.control.RaceMain? then MainStarted(s.control.i) else BatchStarted(s.control.i));
    Reach(c, r, t, DoWake(stale));
  }

  /** The next iteration: the race for its main job is over because of `stale`, which leaves the set; then the
      script waits with the batch job started as well. */
  lemma CrowdedIteration(c: Config, s: State, i: nat, stale: Job) returns (t: State)
    requires Reachable(c, s) && s.control == Top(i) && |s.active| >= c.parallelLimit
    requires i < |c.circuits| && Selected(c, i) && c.circuits[i].hasBatch
    requires s.active * s.settled == {stale} && stale in s.hooked
    ensures var m, b := Job(i, false), Job(i, true);
            && Reachable(c, t) && t.control.RaceBatch? && t.control.i == i
            && t.active == s.active - {stale} + {m} + {b} && t.settled == s.settled && t.late == s.late
            && t.hooked == s.hooked && t.control.raced == t.active && t.active * t.settled == {}
            && m !in s.active && b !in s.active && m !in s.settled && b !in s.settled
  {
    var m, b := Job(i, false), Job(i, true);
    assert stale in s.active * s.settled;
    NewJobSize(c, s, m);
    ReachWaiting(c, s, m);
    var r := StaleRace(c, Waiting(s, m), stale);
    assert r.active == s.active - {stale} + {m};
    NewJobSize(c, r, b);
    ReachWaiting(c, r, b);
    t := Waiting(r, b);
  }

  /** A running job settles, is removed by its handler, and wakes the script. */
  lemma RaceEnds(c: Config, s: State, done: Job) returns (t: State)
    requires Reachable(c, s) && s.control.RaceBatch? && s.control.raced == s.active && s.active * s.settled == {}
    requires done in s.active && done in s.hooked
    ensures Reachable(c, t) && t.control == BatchStarted(s.control.i)
    ensures t.active == s.active - {done} && t.settled == s.settled + {done} && t.late == s.late
  {
    assert done !in s.settled by {
      assert done in s.settled ==> done in s.active * s.settled;
    }
    var r := AfterSettle(s, done);
    assert Reachable(c, r) by {
      ReachableInv(c, s);
      OnlyStale(s, {});
      Reach(c, s, r, DoSettle(done));
    }
    assert r.active * r.settled == {done};
    t := StaleRace(c, r, done);
  }

  lemma IterationEnds(c: Config, s: State, done: Job) returns (t: State)
    requires Reachable(c, s) && s.control.RaceBatch? && s.control.raced == s.active && s.active * s.settled == {}
    requires done in s.active && done in s.hooked
    ensures Reachable(c, t) && t.control == Top(s.control.i + 1)
    ensures t.active == s.active - {done} && t.settled == s.settled + {done} && t.late == s.late
  {
    var i := s.control.i;
    var r := RaceEnds(c, s, done);
    t := r.(control := Top(i + 1), hooked := r.hooked + {Job(i, true), Job(i, false)});
    Reach(c, r, t, DoHook);
  }

  /** `limit - 1` circuits without a batch job, then `2 * late + 1` with one. */
  function TightConfig(limit: nat, late: nat): Config
    requires limit >= 1
  {
    Config(seq(limit + 2 * late, i => Circuit([], i >= limit - 1)), None, limit)
  }

  /** The start of an iteration in which every job of the active set is running. */
  ghost predicate Level(c: Config, s: State, i: nat, size: nat, late: nat) {
    Reachable(c, s) && s.control == Top(i) && s.active * s.settled == {} && |s.active| == size && |s.late| == late
  }

  lemma {:induction false} FillUp(c: Config, limit: nat, late: nat, i: nat) returns (s: State)
    requires limit >= 1 && c == TightConfig(limit, late) && i < limit
    ensures Level(c, s, i, i, 0)
    decreases i
  {
    if i == 0 {
      s := Init;
      assert IsPromptRun(c, [Init]);
      assert [Init][|[Init]| - 1] == s;
    } else {
      var r := FillUp(c, limit, late, i - 1);
      var j := Job(i - 1, false);
      ReachableInv(c, r);
      NewJob(c, r, j);
      var s1 := Start(r, j, false).(control := MainStarted(i - 1));
      Reach(c, r, s1, DoStartMain(false));
      s := s1.(control := Top(i), hooked := s1.hooked + {j});
      Reach(c, s1, s, DoHook);
    }
  }

  lemma NotYetStarted(c: Config, s: State, i: nat, j: Job)
    requires Reachable(c, s) && s.control == Top(i) && j.index >= i
    ensures j !in s.active && j !in s.settled && j !in s.late
  {
    ReachableInv(c, s);
    JobsBeforeAreDue(c, i, j);
  }

  lemma LevelSets(c: Config, r: State, i: nat)
    requires Reachable(c, r) && r.control == Top(i) && r.active * r.settled == {}
    ensures var m, b, m', b' := Job(i, false), Job(i, true), Job(i + 1, false), Job(i + 1, true);
            && r.active + {m} + {b} - {m} + {m'} + {b'} - {b} == r.active + {m'} + {b'}
            && |r.active + {m'} + {b'}| == |r.active| + 2 && |r.active + {m} + {b}| == |r.active| + 2
            && (r.active + {m'} + {b'}) * (r.settled + {m} + {b}) == {}
            && m !in r.late
  {
    NotYetStarted(c, r, i, Job(i, false));
    NotYetStarted(c, r, i, Job(i, true));
    NotYetStarted(c, r, i, Job(i + 1, false));
    NotYetStarted(c, r, i, Job(i + 1, true));
  }

  /** Every two iterations one late job can raise the level by two. */
  lemma LevelUp(c: Config, r: State, i: nat, size: nat, late: nat) returns (s: State)
    requires Level(c, r, i, size, late) && size >= c.parallelLimit - 1
    requires i + 1 < |c.circuits| && Selected(c, i) && Selected(c, i + 1)
    requires c.circuits[i].hasBatch && c.circuits[i + 1].hasBatch
    ensures Level(c, s, i + 2, size + 2, late + 1)
  {
    LevelSets(c, r, i);
    var r1 := LateIteration(c, r, i);
    var r2 := CrowdedIteration(c, r1, i + 1, Job(i, false));
    s := IterationEnds(c, r2, Job(i, true));
  }

  lemma {:induction false} Climb(c: Config, limit: nat, total: nat, late: nat) returns (s: State)
    requires limit >= 1 && c == TightConfig(limit, total) && late <= total
    ensures Level(c, s, limit - 1 + 2 * late, limit - 1 + 2 * late, late)
    decreases late
  {
    if late == 0 {
      s := FillUp(c, limit, total, limit - 1);
    } else {
      var below := limit - 1 + 2 * (late - 1);
      s := Climb(c, limit, total, late - 1);
      s := LevelUp(c, s, below, below, late - 1);
    }
  }

  lemma ActiveAreRunning(c: Config, s: State)
    requires Reachable(c, s) && s.active * s.settled == {}
    ensures Unsettled(s) == s.active
  {
    ReachableInv(c, s);
    forall j | j in s.active
      ensures j in Unsettled(s)
    {
      assert j in s.settled ==> j in s.active * s.settled;
    }
  }

  /** For every positive limit and every number of late jobs, some prompt run of some configuration reaches the bound. */
  lemma BoundIsReached(limit: nat, late: nat) returns (c: Config, s: State)
    requires limit >= 1
    ensures c.parallelLimit == limit && Reachable(c, s) && |s.late| == late
    ensures |Unsettled(s)| == limit + 2 * late
  {
    c := TightConfig(limit, late);
    if late == 0 {
      var r := FillUp(c, limit, late, limit - 1);
      var j := Job(limit - 1, false);
      NewJobSize(c, r, j);
      ReachWaiting(c, r, j);
      s := Waiting(r, j);
      ActiveAreRunning(c, s);
    } else {
      var r := Climb(c, limit, late, late - 1);
      var i := limit - 1 + 2 * (late - 1);
      var r1 := LateIteration(c, r, i);
      s := CrowdedIteration(c, r1, i + 1, Job(i, false));
      ActiveAreRunning(c, s);
    }
  }

  // ---------------------------------------------------------------------------
  // When the limit is kept
  // ---------------------------------------------------------------------------

  /** How many jobs the configuration calls for. */
  function JobCount(c: Config): nat {
    |JobsBefore(c, |c.circuits|)|
  }

  ghost predicate KeepsLimit(c: Config, run: seq<State>) {
    forall k | 0 <= k < |run| :: |Unsettled(run[k])| <= Cap(c)
  }

  lemma {:induction false} JobsBeforeGrows(c: Config, i: nat, k: nat)
    requires i <= k <= |c.circuits|
    ensures |JobsBefore(c, i)| <= |JobsBefore(c, k)|
    decreases k
  {
    if i < k {
      JobsBeforeGrows(c, i, k - 1);
    }
  }

  lemma StartedCount(c: Config, s: State)
    requires Inv(c, s)
    ensures |s.started| <= JobCount(c)
  {
    var i := Position(c, s);
    if Current(s) != [] {
      assert |JobsBefore(c, i + 1)| == |JobsBefore(c, i)| + |JobsOf(c, i)|;
      JobsBeforeGrows(c, i + 1, |c.circuits|);
    } else {
      JobsBeforeGrows(c, i, |c.circuits|);
    }
  }

  /** With at most one job more than the limit, the limit is kept: an excess takes a late job, which has settled. */
  lemma FewJobsKeepLimit(c: Config, run: seq<State>)
    requires IsRun(c, run) && JobCount(c) <= Cap(c) + 1
    ensures KeepsLimit(c, run)
  {
    forall k | 0 <= k < |run|
      ensures |Unsettled(run[k])| <= Cap(c)
    {
      var s := run[k];
      RunKeepsInv(c, run, k);
      ConcurrencyBound(c, run, k);
      StartedCount(c, s);
      if j :| j in s.late {
        SetOfSeq(s.started, Unsettled(s) + {j});
        assert |Unsettled(s) + {j}| == |Unsettled(s)| + 1;
      } else {
        assert s.late == {};
      }
    }
  }

  predicate Idle(control: Control) {
    control.Top? || control.MainStarted? || control.BatchStarted?
  }

  /** The next thing the script does is start `j`. */
  predicate Ready(c: Config, s: State, j: Job) {
    && j.index < |c.circuits|
    && if j.batch then s.control == MainStarted(j.index) && c.circuits[j.index].hasBatch
       else s.control == Top(j.index) && Selected(c, j.index)
  }

  /** Circuits were skipped and handlers attached, nothing else. */
  predicate Onward(s: State, t: State) {
    t == s.(control := t.control, hooked := t.hooked)
  }

  lemma JobsAreLeft(c: Config, s: State)
    requires Inv(c, s) && Idle(s.control) && |s.started| < JobCount(c)
    ensures s.control.i < |c.circuits|
  {
    assert JobsBefore(c, s.control.i) + [] == JobsBefore(c, s.control.i);
  }

  /** The end of an iteration, or a circuit that is skipped. */
  lemma NextIteration(c: Config, s: State) returns (t: State)
    requires Reachable(c, s) && Idle(s.control) && s.control.i < |c.circuits|
    requires s.control.Top? ==> !Selected(c, s.control.i)
    requires s.control.MainStarted? ==> !c.circuits[s.control.i].hasBatch
    ensures Reachable(c, t) && Onward(s, t) && t.control == Top(s.control.i + 1)
  {
    var i := s.control.i;
    if s.control.Top? {
      t := s.(control := Top(i + 1));
      Reach(c, s, t, DoSkip);
    } else {
      var jobs := if s.control.MainStarted? then {Job(i, false)} else {Job(i, true), Job(i, false)};
      t := s.(control := Top(i + 1), hooked := s.hooked + jobs);
      Reach(c, s, t, DoHook);
    }
  }

  /** While jobs are left, the script comes to start one. */
  lemma {:induction false} Advance(c: Config, s: State) returns (t: State, j: Job)
    requires Reachable(c, s) && Idle(s.control) && |s.started| < JobCount(c)
    ensures Reachable(c, t) && Ready(c, t, j) && Onward(s, t)
    decreases |c.circuits| - s.control.i
  {
    ReachableInv(c, s);
    JobsAreLeft(c, s);
    var i := s.control.i;
    if s.control.Top? && Selected(c, i) {
      t, j := s, Job(i, false);
    } else if s.control.MainStarted? && c.circuits[i].hasBatch {
      t, j := s, Job(i, true);
    } else {
      var r := NextIteration(c, s);
      t, j := Advance(c, r);
    }
  }

  /** So many jobs have been started, so many of them are running. */
  ghost predicate Load(c: Config, s: State, started: nat, running: nat) {
    Reachable(c, s) && |s.started| == started && |Unsettled(s)| == running
  }

  lemma NewJobIsNew(c: Config, s: State, j: Job)
    requires Reachable(c, s) && Ready(c, s, j)
    ensures j !in s.started && j !in s.active && j !in s.settled
  {
    ReachableInv(c, s);
    NewJob(c, s, j);
  }

  lemma OneMoreRuns(s: State, t: State, j: Job)
    requires j !in s.started && j !in s.settled && t.started == s.started + [j] && t.settled == s.settled
    ensures |Unsettled(t)| == |Unsettled(s)| + 1
  {
    assert Unsettled(t) == Unsettled(s) + {j};
  }

  /** The script starts `j` and has to wait. */
  lemma StartsFull(c: Config, s: State, j: Job, started: nat, running: nat)
    requires Load(c, s, started, running) && Ready(c, s, j) && |s.active| + 1 >= c.parallelLimit
    ensures var w := Waiting(s, j);
            && Load(c, w, started + 1, running + 1)
            && |w.active| == |s.active| + 1 && w.active * w.settled == s.active * s.settled
  {
    NewJobIsNew(c, s, j);
    ReachWaiting(c, s, j);
    OneMoreRuns(s, Waiting(s, j), j);
  }

  /** The script starts `j` and goes on. */
  lemma StartsFree(c: Config, s: State, j: Job, started: nat, running: nat)
    requires Load(c, s, started, running) && Ready(c, s, j) && |s.active| + 1 < c.parallelLimit
    ensures var t := AfterRace(Start(s, j, false), j);
            Load(c, t, started + 1, running + 1) && |t.active| == |s.active| + 1 && t.settled == s.settled
  {
    NewJobIsNew(c, s, j);
    var t := AfterRace(Start(s, j, false), j);
    Reach(c, s, t, if j.batch then DoStartBatch(false) else DoStartMain(false));
    OneMoreRuns(s, t, j);
  }

  /** Below the limit jobs are started one after another. */
  lemma {:induction false} FillBelow(c: Config, k: nat) returns (s: State)
    requires k < Cap(c) && k <= JobCount(c)
    ensures Load(c, s, k, k) && Idle(s.control) && |s.active| == k && s.settled == {}
    decreases k
  {
    if k == 0 {
      s := Init;
      assert IsPromptRun(c, [Init]);
      assert [Init][|[Init]| - 1] == s;
      assert Unsettled(s) == {};
    } else {
      var r := FillBelow(c, k - 1);
      var t, j := Advance(c, r);
      assert Unsettled(t) == Unsettled(r);
      StartsFree(c, t, j, k - 1, k - 1);
      s := AfterRace(Start(t, j, false), j);
    }
  }

  lemma OneFewerRuns(s: State, t: State, j: Job)
    requires j in s.started && j !in s.settled && t.started == s.started && t.settled == s.settled + {j}
    ensures |Unsettled(t)| == |Unsettled(s)| - 1
  {
    assert Unsettled(t) == Unsettled(s) - {j};
  }

  lemma LateLoad(c: Config, w: State, j: Job, started: nat, running: nat)
    requires WaitsWith(c, w, j) && Load(c, w, started, running)
    ensures var t := AfterRace(AfterSettle(w, j), j);
            running >= 1 && Load(c, t, started, running - 1) && t.active == w.active && t.active * t.settled == {j}
  {
    LateRace(c, w, j);
    JustStarted(c, w, j);
    OneFewerRuns(w, AfterRace(AfterSettle(w, j), j), j);
  }

  /** The job that fills the limit settles late and lets the script go on. */
  lemma FirstIsLate(c: Config, s: State) returns (t: State, j: Job)
    requires Load(c, s, Cap(c) - 1, Cap(c) - 1) && Idle(s.control) && |s.active| == Cap(c) - 1 && s.settled == {}
    requires Cap(c) <= JobCount(c)
    ensures Load(c, t, Cap(c), Cap(c) - 1) && Idle(t.control) && |t.active| == Cap(c)
    ensures t.active * t.settled == {j}
  {
    var r;
    r, j := Advance(c, s);
    assert Unsettled(r) == Unsettled(s);
    StartsFull(c, r, j, Cap(c) - 1, Cap(c) - 1);
    var w := Waiting(r, j);
    LateLoad(c, w, j, Cap(c), Cap(c));
    t := AfterRace(AfterSettle(w, j), j);
  }

  /** The next race is over at once because of it, whether its handler is attached by then or not. */
  lemma PassesAtOnce(c: Config, s: State, j: Job, late: Job) returns (t: State)
    requires Reachable(c, s) && s.active * s.settled == {late}
    requires s.control == if j.batch then RaceBatch(j.index, s.active) else RaceMain(j.index, s.active)
    ensures Reachable(c, t) && Idle(t.control) && |t.active| >= |s.active| - 1
    ensures t.started == s.started && t.settled == s.settled
  {
    assert late in s.active * s.settled;
    if late in s.hooked {
      t := StaleRace(c, s, late);
    } else {
      OnlyStale(s, {late});
      t := AfterRace(s, j);
      Reach(c, s, t, DoWake(late));
    }
  }

  lemma SecondPasses(c: Config, s: State, late: Job) returns (t: State)
    requires Load(c, s, Cap(c), Cap(c) - 1) && Idle(s.control) && |s.active| == Cap(c)
    requires s.active * s.settled == {late} && Cap(c) < JobCount(c)
    ensures Load(c, t, Cap(c) + 1, Cap(c)) && Idle(t.control) && |t.active| >= Cap(c)
  {
    var r, j := Advance(c, s);
    assert Unsettled(r) == Unsettled(s);
    StartsFull(c, r, j, Cap(c), Cap(c) - 1);
    t := PassesAtOnce(c, Waiting(r, j), j, late);
    assert Unsettled(t) == Unsettled(Waiting(r, j));
  }

  /** With two jobs more than the limit, a prompt run starts one too many. */
  lemma ManyJobsExceedLimit(c: Config) returns (s: State)
    requires JobCount(c) >= Cap(c) + 2
    ensures Reachable(c, s) && |Unsettled(s)| == Cap(c) + 1
  {
    var below := FillBelow(c, Cap(c) - 1);
    var first, late := FirstIsLate(c, below);
    var second := SecondPasses(c, first, late);
    var r, j := Advance(c, second);
    assert Unsettled(r) == Unsettled(second);
    StartsFull(c, r, j, Cap(c) + 1, Cap(c));
    s := Waiting(r, j);
  }

  /** The limit is kept in every run, or in every prompt run, exactly when the configuration calls for at most one
      job more than it allows at once. */
  lemma LimitKeptExactly(c: Config)
    ensures (forall run | IsRun(c, run) :: KeepsLimit(c, run)) <==> JobCount(c) <= Cap(c) + 1
    ensures (forall run | IsPromptRun(c, run) :: KeepsLimit(c, run)) <==> JobCount(c) <= Cap(c) + 1
  {
    if JobCount(c) <= Cap(c) + 1 {
      forall run | IsRun(c, run)
        ensures KeepsLimit(c, run)
      {
        FewJobsKeepLimit(c, run);
      }
      forall run | IsPromptRun(c, run)
        ensures KeepsLimit(c, run)
      {
        PromptRunIsRun(c, run);
        FewJobsKeepLimit(c, run);
      }
    } else {
      var s := ManyJobsExceedLimit(c);
      var run :| IsPromptRun(c, run) && run[|run| - 1] == s;
      PromptRunIsRun(c, run);
      assert |Unsettled(run[|run| - 1])| > Cap(c);
      assert !KeepsLimit(c, run);
    }
  }

  // ---------------------------------------------------------------------------
  // The number of jobs, told from the configuration
  // ---------------------------------------------------------------------------

  /** The circuits before the `i`th that are asked for. */
  function Asked(c: Config, i: nat): set<nat>
    requires i <= |c.circuits|
  {
    set k: nat | k < i && (c.only.None? || c.circuits[k].name in c.only.value)
  }

  /** Those among them that have a batch variant. */
  function AskedTwice(c: Config, i: nat): set<nat>
    requires i <= |c.circuits|
  {
    set k: nat | k < i && (c.only.None? || c.circuits[k].name in c.only.value) && c.circuits[k].hasBatch
  }

  lemma AskedGrows(c: Config, i: nat)
    requires i < |c.circuits|
    ensures |Asked(c, i + 1)| == |Asked(c, i)| + if c.only.None? || c.circuits[i].name in c.only.value then 1 else 0
  {
    if c.only.None? || c.circuits[i].name in c.only.value {
      assert Asked(c, i + 1) == Asked(c, i) + {i};
    } else {
      assert Asked(c, i + 1) == Asked(c, i);
    }
  }

  lemma AskedTwiceGrows(c: Config, i: nat)
    requires i < |c.circuits|
    ensures |AskedTwice(c, i + 1)| == |AskedTwice(c, i)| +
              if (c.only.None? || c.circuits[i].name in c.only.value) && c.circuits[i].hasBatch then 1 else 0
  {
    if (c.only.None? || c.circuits[i].name in c.only.value) && c.circuits[i].hasBatch {
      assert AskedTwice(c, i + 1) == AskedTwice(c, i) + {i};
    } else {
      assert AskedTwice(c, i + 1) == AskedTwice(c, i);
    }
  }

  lemma {:induction false} JobsCounted(c: Config, i: nat)
    requires i <= |c.circuits|
    ensures |JobsBefore(c, i)| == |Asked(c, i)| + |AskedTwice(c, i)|
    decreases i
  {
    if i == 0 {
      assert Asked(c, 0) == {} && AskedTwice(c, 0) == {};
    } else {
      JobsCounted(c, i - 1);
      AskedGrows(c, i - 1);
      AskedTwiceGrows(c, i - 1);
      assert |JobsBefore(c, i)| == |JobsBefore(c, i - 1)| + |JobsOf(c, i - 1)|;
    }
  }

  /** The configuration calls for one job for every circuit asked for, and one more where it has a batch variant. */
  lemma JobCountIs(c: Config)
    ensures JobCount(c) == |Asked(c, |c.circuits|)| + |AskedTwice(c, |c.circuits|)|
  {
    JobsCounted(c, |c.circuits|);
  }
}
