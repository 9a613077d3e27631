/** Indexer workers: any number of replicas draining one shared job queue, as interleaved atomic steps. */
module Worker {
  import opened Wrappers

  type JobId = string

  datatype JobStatus = Pending | Running | Completed | Failed

  const MIN_PRIORITY := -32_768
  type i16 = x: int | MIN_PRIORITY <= x <= 32_767

  datatype Job = Job(status: JobStatus, error: Option<string>, priority: i16, createdAt: nat)

  /** What a job runner returns. */
  datatype Outcome = Succeeded | Errored(reason: string)

  /** Where a replica is in its poll loop. */
  datatype Phase =
    | Top                                          // about to test the cancellation token
    | Claiming                                     // token was clear, about to call claim_next
    | Executing(job: JobId)                        // claimed, runner not returned yet
    | Finishing(job: JobId, outcome: Outcome)      // runner returned, about to call finish
    | Sleeping
    | Exited

  datatype Event =
    | Enqueued(job: JobId)
    | Claimed(replica: nat, job: JobId)
    | Ran(replica: nat, job: JobId, outcome: Outcome)
    | Finished(replica: nat, job: JobId, written: bool)
    | Cancelled(replica: nat)

  /** Queue rows, replica phases and tokens, and everything that has happened so far. */
  datatype State = State(rows: map<JobId, Job>, phases: seq<Phase>, cancelled: seq<bool>, log: seq<Event>)

  datatype Action =
    | Enqueue(job: JobId, priority: i16, createdAt: nat)
    | CheckToken(replica: nat)
    | Claim(replica: nat, job: JobId)
    | ClaimNothing(replica: nat)
    | ClaimFails(replica: nat)
    | RunJob(replica: nat, outcome: Outcome)
    | Finish(replica: nat)
    | FinishFails(replica: nat)
    | WakeUp(replica: nat)
    | Cancel(replica: nat)

  function Init(replicas: nat): State {
    State(map[], seq(replicas, i => Top), seq(replicas, i => false), [])
  }

  predicate IsPending(s: State, j: JobId) {
    j in s.rows && s.rows[j].status == Pending
  }

  predicate Enabled(s: State, a: Action) {
    match a
    case Enqueue(j, _, _) => j !in s.rows
    case CheckToken(r) => r < |s.phases| && s.phases[r] == Top
    case Claim(r, j) => r < |s.phases| && s.phases[r] == Claiming && IsPending(s, j)
    case ClaimNothing(r) =>
      r < |s.phases| && s.phases[r] == Claiming && forall k :: k in s.rows ==> !IsPending(s, k)
    case ClaimFails(r) => r < |s.phases| && s.phases[r] == Claiming
    case RunJob(r, _) => r < |s.phases| && s.phases[r].Executing?
    case Finish(r) => r < |s.phases| && s.phases[r].Finishing? && s.phases[r].job in s.rows
    case FinishFails(r) => r < |s.phases| && s.phases[r].Finishing?
    case WakeUp(r) => r < |s.phases| && s.phases[r] == Sleeping
    case Cancel(r) => r < |s.phases| && r < |s.cancelled|
  }

  /** Terminal status and error message for a runner's outcome. */
  function Terminal(outcome: Outcome): (JobStatus, Option<string>) {
    match outcome
    case Succeeded => (Completed, None)
    case Errored(reason) => (Failed, Some(reason))
  }

  function Goto(s: State, r: nat, phase: Phase): State
    requires r < |s.phases|
  {
    s.(phases := s.phases[r := phase])
  }

  function Logged(s: State, e: Event): State {
    s.(log := s.log + [e])
  }

  function Apply(s: State, a: Action): State
    requires Enabled(s, a)
  {
    match a
    case Enqueue(j, priority, createdAt) =>
      Logged(s.(rows := s.rows[j := Job(Pending, None, priority, createdAt)]), Enqueued(j))
    case CheckToken(r) =>
      Goto(s, r, if r < |s.cancelled| && s.cancelled[r] then Exited else Claiming)
    case Claim(r, j) =>
      Logged(Goto(s.(rows := s.rows[j := s.rows[j].(status := Running)]), r, Executing(j)), Claimed(r, j))
    case ClaimNothing(r) => Goto(s, r, Sleeping)
    case ClaimFails(r) => Goto(s, r, Sleeping)
    case RunJob(r, outcome) =>
      var j := s.phases[r].job;
      Logged(Goto(s, r, Finishing(j, outcome)), Ran(r, j, outcome))
    case Finish(r) =>
      var Finishing(j, outcome) := s.phases[r];
      var (status, error) := Terminal(outcome);
      Logged(Goto(s.(rows := s.rows[j := s.rows[j].(status := status, error := error)]), r, Top),
             Finished(r, j, true))
    case FinishFails(r) =>
      Logged(Goto(s, r, Top), Finished(r, s.phases[r].job, false))
    case WakeUp(r) => Goto(s, r, Top)
    case Cancel(r) => Logged(s.(cancelled := s.cancelled[r := true]), Cancelled(r))
  }

  /** A scheduler may try any action; one that is not enabled has no effect. */
  function Step(s: State, a: Action): State {
    if Enabled(s, a) then Apply(s, a) else s
  }

  /** The state after any interleaving of actions. */
  function After(replicas: nat, actions: seq<Action>): State {
    if actions == [] then Init(replicas) else
      var last := |actions| - 1;
      Step(After(replicas, actions[..last]), actions[last])
  }

  // ---------------------------------------------------------------- views of the log

  /** What happened to one job, in order. */
  function JobEvents(log: seq<Event>, j: JobId): seq<Event> {
    if log == [] then [] else
      var e := log[|log| - 1];
      JobEvents(log[..|log| - 1], j) + if !e.Cancelled? && e.job == j then [e] else []
  }

  /** The claims, runs and finish attempts of one replica, in order. */
  function ReplicaEvents(log: seq<Event>, r: nat): seq<Event> {
    if log == [] then [] else
      var e := log[|log| - 1];
      ReplicaEvents(log[..|log| - 1], r) + if IsWork(e) && e.replica == r then [e] else []
  }

  predicate IsWork(e: Event) {
    e.Claimed? || e.Ran? || e.Finished?
  }

  lemma JobEventsAppend(log: seq<Event>, e: Event, j: JobId)
    ensures JobEvents(log + [e], j) == JobEvents(log, j) + if !e.Cancelled? && e.job == j then [e] else []
  {
    assert (log + [e])[..|log|] == log;
  }

  lemma ReplicaEventsAppend(log: seq<Event>, e: Event, r: nat)
    ensures ReplicaEvents(log + [e], r)
         == ReplicaEvents(log, r) + if IsWork(e) && e.replica == r then [e] else []
  {
    assert (log + [e])[..|log|] == log;
  }

  lemma {:induction false} JobEventsInLog(log: seq<Event>, j: JobId, e: Event)
    ensures e in JobEvents(log, j) <==> e in log && !e.Cancelled? && e.job == j
  {
    if log != [] {
      JobEventsInLog(log[..|log| - 1], j, e);
      assert log == log[..|log| - 1] + [log[|log| - 1]];
    }
  }

  // ---------------------------------------------------------------- the invariant

  /** A job is enqueued, then claimed, run and finished once, each by the replica that claimed it. */
  predicate LifeShape(p: seq<Event>, j: JobId) {
    && |p| <= 4
    && (|p| >= 1 ==> p[0] == Enqueued(j))
    && (|p| >= 2 ==> p[1].Claimed? && p[1].job == j)
    && (|p| >= 3 ==> p[2].Ran? && p[2].job == j && p[2].replica == p[1].replica)
    && (|p| >= 4 ==> p[3].Finished? && p[3].job == j && p[3].replica == p[1].replica)
  }

  /** The row of a job agrees with what happened to it. */
  predicate RowAgrees(s: State, j: JobId, p: seq<Event>)
    requires LifeShape(p, j)
  {
    && (j in s.rows <==> |p| >= 1)
    && (|p| == 1 ==> s.rows[j].status == Pending)
    && (|p| == 2 || |p| == 3 ==> s.rows[j].status == Running)
    && (|p| == 4 ==> if p[3].written
                     then (s.rows[j].status, s.rows[j].error) == Terminal(p[2].outcome)
                     else s.rows[j].status == Running)
    && (1 <= |p| < 4 || (|p| == 4 && !p[3].written) ==> s.rows[j].error == None)
  }

  /** A job in flight is held by exactly the replica that claimed it. */
  predicate HolderAgrees(s: State, j: JobId, p: seq<Event>)
    requires LifeShape(p, j)
  {
    && (|p| == 2 ==> p[1].replica < |s.phases| && s.phases[p[1].replica] == Executing(j))
    && (|p| == 3 ==> p[1].replica < |s.phases| && s.phases[p[1].replica] == Finishing(j, p[2].outcome))
  }

  predicate PhaseAgrees(s: State, r: nat)
    requires r < |s.phases|
  {
    match s.phases[r]
    case Executing(j) =>
      var p := JobEvents(s.log, j);
      |p| == 2 && p[1] == Claimed(r, j)
    case Finishing(j, outcome) =>
      var p := JobEvents(s.log, j);
      |p| == 3 && p[2] == Ran(r, j, outcome)
    case _ => true
  }

  ghost predicate JobInv(s: State, j: JobId) {
    var p := JobEvents(s.log, j);
    LifeShape(p, j) && RowAgrees(s, j, p) && HolderAgrees(s, j, p)
  }

  predicate InTurn(p: seq<Event>, i: nat)
    requires i < |p|
  {
    && IsWork(p[i])
    && (i % 3 == 0 ==> p[i].Claimed?)
    && (i % 3 == 1 ==> p[i].Ran? && IsWork(p[i - 1]) && p[i].job == p[i - 1].job)
    && (i % 3 == 2 ==> p[i].Finished? && IsWork(p[i - 1]) && p[i].job == p[i - 1].job)
  }

  /** A replica's work comes in triples: claim a job, run that job, finish that job. */
  predicate Serial(p: seq<Event>) {
    forall i: nat :: i < |p| ==> InTurn(p, i)
  }

  predicate SerialAt(s: State, r: nat)
    requires r < |s.phases|
  {
    var p := ReplicaEvents(s.log, r);
    && Serial(p)
    && match s.phases[r]
       case Executing(j) => |p| % 3 == 1 && IsWork(p[|p| - 1]) && p[|p| - 1].job == j
       case Finishing(j, _) => |p| % 3 == 2 && IsWork(p[|p| - 1]) && p[|p| - 1].job == j
       case _ => |p| % 3 == 0
  }

  ghost predicate Inv(s: State) {
    && |s.cancelled| == |s.phases|
    && (forall j :: JobInv(s, j))
    && (forall r: nat :: r < |s.phases| ==> PhaseAgrees(s, r))
    && (forall r: nat :: r < |s.phases| ==> SerialAt(s, r))
  }

  lemma InitInv(replicas: nat)
    ensures Inv(Init(replicas))
  {
  }

  /** Steps that touch neither rows nor log move one replica between phases that hold no job. */
  lemma QuietInv(s: State, r: nat, phase: Phase)
    requires Inv(s) && r < |s.phases|
    requires !s.phases[r].Executing? && !s.phases[r].Finishing? && !phase.Executing? && !phase.Finishing?
    ensures Inv(Goto(s, r, phase))
  {
    var t := Goto(s, r, phase);
    forall j ensures JobInv(t, j) {
      assert JobInv(s, j);
    }
    forall q: nat | q < |t.phases| ensures PhaseAgrees(t, q) && SerialAt(t, q) {
      assert PhaseAgrees(s, q) && SerialAt(s, q);
    }
  }

  /** How one step with event `e` changes the state, as the invariant sees it. */
  ghost predicate Transition(s: State, t: State, e: Event) {
    && t.log == s.log + [e] && |t.phases| == |s.phases| && |t.cancelled| == |t.phases|
    && (forall j :: e.Cancelled? || e.job != j ==> (j in t.rows <==> j in s.rows))
    && (forall j :: j in s.rows && j in t.rows && (e.Cancelled? || e.job != j) ==> t.rows[j] == s.rows[j])
    && (forall q: nat :: q < |s.phases| && !(IsWork(e) && e.replica == q) ==> t.phases[q] == s.phases[q])
  }

  /** Jobs the event is not about keep their part of the invariant. */
  lemma OtherJobs(s: State, t: State, e: Event, j: JobId)
    requires Inv(s) && Transition(s, t, e) && (e.Cancelled? || e.job != j)
    requires IsWork(e) ==> e.replica < |s.phases| && !(s.phases[e.replica].Executing? && s.phases[e.replica].job == j)
                           && !(s.phases[e.replica].Finishing? && s.phases[e.replica].job == j)
    ensures JobInv(t, j)
  {
    JobEventsAppend(s.log, e, j);
    assert JobInv(s, j);
  }

  /** Replicas the event is not about keep their part of the invariant. */
  lemma OtherReplicas(s: State, t: State, e: Event, q: nat)
    requires Inv(s) && Transition(s, t, e) && q < |s.phases| && !(IsWork(e) && e.replica == q)
    requires e.Cancelled? || !((s.phases[q].Executing? || s.phases[q].Finishing?) && s.phases[q].job == e.job)
    ensures PhaseAgrees(t, q) && SerialAt(t, q)
  {
    assert PhaseAgrees(s, q) && SerialAt(s, q);
    ReplicaEventsAppend(s.log, e, q);
    assert ReplicaEvents(t.log, q) == ReplicaEvents(s.log, q);
    if s.phases[q].Executing? || s.phases[q].Finishing? {
      JobEventsAppend(s.log, e, s.phases[q].job);
    }
  }

  lemma EnqueueInv(s: State, a: Action)
    requires Inv(s) && Enabled(s, a) && a.Enqueue?
    ensures Inv(Apply(s, a))
  {
    var t, e := Apply(s, a), Enqueued(a.job);
    JobEventsAppend(s.log, e, a.job);
    assert JobInv(s, a.job);
    forall j ensures JobInv(t, j) {
      if j != a.job { OtherJobs(s, t, e, j); }
    }
    forall q: nat | q < |t.phases| ensures PhaseAgrees(t, q) && SerialAt(t, q) {
      assert PhaseAgrees(s, q);
      OtherReplicas(s, t, e, q);
    }
  }

  lemma CancelInv(s: State, a: Action)
    requires Inv(s) && Enabled(s, a) && a.Cancel?
    ensures Inv(Apply(s, a))
  {
    var t, e := Apply(s, a), Cancelled(a.replica);
    forall j ensures JobInv(t, j) {
      OtherJobs(s, t, e, j);
    }
    forall q: nat | q < |t.phases| ensures PhaseAgrees(t, q) && SerialAt(t, q) {
      OtherReplicas(s, t, e, q);
    }
  }

  /** Appending the right kind of event keeps the triples. */
  lemma SerialAppend(p: seq<Event>, e: Event)
    requires Serial(p) && InTurn(p + [e], |p|)
    ensures Serial(p + [e])
  {
    forall i: nat | i < |p| + 1 ensures InTurn(p + [e], i) {
      if i < |p| {
        assert InTurn(p, i);
      }
    }
  }

  /** The phases around a unit of work. */
  predicate Moves(s: State, t: State, e: Event)
    requires IsWork(e) && e.replica < |s.phases| == |t.phases|
  {
    var before, after := s.phases[e.replica], t.phases[e.replica];
    && (e.Claimed? ==> before == Claiming && after == Executing(e.job))
    && (e.Ran? ==> before == Executing(e.job) && after == Finishing(e.job, e.outcome))
    && (e.Finished? ==> before.Finishing? && before.job == e.job && after == Top)
  }

  lemma WorkingReplica(s: State, t: State, e: Event)
    requires Inv(s) && Transition(s, t, e) && IsWork(e) && e.replica < |s.phases| && Moves(s, t, e)
    ensures SerialAt(t, e.replica)
  {
    var r, p := e.replica, ReplicaEvents(s.log, e.replica);
    assert SerialAt(s, r);
    ReplicaEventsAppend(s.log, e, r);
    assert p + [e] == ReplicaEvents(t.log, r);
    SerialAppend(p, e);
  }

  lemma WorkInv(s: State, t: State, e: Event)
    requires Inv(s) && Transition(s, t, e) && IsWork(e) && e.replica < |s.phases| && Moves(s, t, e)
    requires JobInv(t, e.job) && PhaseAgrees(t, e.replica)
    requires e.Claimed? ==> |JobEvents(s.log, e.job)| == 1
    ensures Inv(t)
  {
    var r := e.replica;
    WorkingReplica(s, t, e);
    forall j ensures JobInv(t, j) {
      if j != e.job { OtherJobs(s, t, e, j); }
    }
    forall q: nat | q < |t.phases| ensures PhaseAgrees(t, q) && SerialAt(t, q) {
      if q != r {
        assert PhaseAgrees(s, q) && PhaseAgrees(s, r);
        OtherReplicas(s, t, e, q);
      }
    }
  }

  lemma ClaimInv(s: State, a: Action)
    requires Inv(s) && Enabled(s, a) && a.Claim?
    ensures Inv(Apply(s, a))
  {
    var e := Claimed(a.replica, a.job);
    assert JobInv(s, a.job);
    JobEventsAppend(s.log, e, a.job);
    WorkInv(s, Apply(s, a), e);
  }

  lemma RanJob(s: State, a: Action)
    requires Enabled(s, a) && a.RunJob? && JobInv(s, s.phases[a.replica].job) && PhaseAgrees(s, a.replica)
    ensures JobInv(Apply(s, a), s.phases[a.replica].job) && PhaseAgrees(Apply(s, a), a.replica)
  {
    var j := s.phases[a.replica].job;
    JobEventsAppend(s.log, Ran(a.replica, j, a.outcome), j);
  }

  lemma RunJobInv(s: State, a: Action)
    requires Inv(s) && Enabled(s, a) && a.RunJob?
    ensures Inv(Apply(s, a))
  {
    var j := s.phases[a.replica].job;
    assert JobInv(s, j) && PhaseAgrees(s, a.replica);
    RanJob(s, a);
    WorkInv(s, Apply(s, a), Ran(a.replica, j, a.outcome));
  }

  lemma FinishedJob(s: State, a: Action)
    requires Enabled(s, a) && (a.Finish? || a.FinishFails?)
    requires JobInv(s, s.phases[a.replica].job) && PhaseAgrees(s, a.replica)
    ensures JobInv(Apply(s, a), s.phases[a.replica].job)
  {
    var j := s.phases[a.replica].job;
    JobEventsAppend(s.log, Finished(a.replica, j, a.Finish?), j);
  }

  lemma FinishInv(s: State, a: Action)
    requires Inv(s) && Enabled(s, a) && (a.Finish? || a.FinishFails?)
    ensures Inv(Apply(s, a))
  {
    var j := s.phases[a.replica].job;
    assert JobInv(s, j) && PhaseAgrees(s, a.replica);
    FinishedJob(s, a);
    WorkInv(s, Apply(s, a), Finished(a.replica, j, a.Finish?));
  }

  lemma StepInv(s: State, a: Action)
    requires Inv(s)
    ensures Inv(Step(s, a))
  {
    if Enabled(s, a) {
      match a
      case Enqueue(_, _, _) => EnqueueInv(s, a);
      case CheckToken(r) => QuietInv(s, r, if s.cancelled[r] then Exited else Claiming);
      case Claim(_, _) => ClaimInv(s, a);
      case ClaimNothing(r) => QuietInv(s, r, Sleeping);
      case ClaimFails(r) => QuietInv(s, r, Sleeping);
      case RunJob(_, _) => RunJobInv(s, a);
      case Finish(_) => FinishInv(s, a);
      case FinishFails(_) => FinishInv(s, a);
      case WakeUp(r) => QuietInv(s, r, Top);
      case Cancel(_) => CancelInv(s, a);
    }
  }

  /** Every interleaving keeps the invariant. */
  lemma {:induction false} AfterInv(replicas: nat, actions: seq<Action>)
    ensures Inv(After(replicas, actions))
  {
    if actions == [] {
      InitInv(replicas);
    } else {
      var last := |actions| - 1;
      AfterInv(replicas, actions[..last]);
      StepInv(After(replicas, actions[..last]), actions[last]);
    }
  }

  // ---------------------------------------------------------------- what every interleaving guarantees

  predicate Holds(s: State, r: nat, j: JobId) {
    r < |s.phases| && (s.phases[r].Executing? || s.phases[r].Finishing?) && s.phases[r].job == j
  }

  /** No job is in flight on two replicas. */
  lemma NoJobHeldTwice(replicas: nat, actions: seq<Action>, q: nat, r: nat, j: JobId)
    requires Holds(After(replicas, actions), q, j) && Holds(After(replicas, actions), r, j)
    ensures q == r
  {
    var s := After(replicas, actions);
    AfterInv(replicas, actions);
    assert PhaseAgrees(s, q) && PhaseAgrees(s, r) && JobInv(s, j);
  }

  /** Each claim of a replica gets exactly one run and one finish attempt before its next claim. */
  lemma ClaimRunFinish(replicas: nat, actions: seq<Action>, r: nat)
    requires r < |After(replicas, actions).phases|
    ensures Serial(ReplicaEvents(After(replicas, actions).log, r))
    ensures |ReplicaEvents(After(replicas, actions).log, r)| % 3 == 0
            <==> !exists j :: Holds(After(replicas, actions), r, j)
  {
    var s := After(replicas, actions);
    AfterInv(replicas, actions);
    assert SerialAt(s, r);
    if s.phases[r].Executing? || s.phases[r].Finishing? {
      assert Holds(s, r, s.phases[r].job);
    }
  }

  ghost predicate RanAndWritten(s: State, r: nat, j: JobId, outcome: Outcome) {
    Ran(r, j, outcome) in s.log && Finished(r, j, true) in s.log
  }

  lemma RowToLog(s: State, j: JobId) returns (r: nat, outcome: Outcome)
    requires JobInv(s, j) && j in s.rows && (s.rows[j].status == Completed || s.rows[j].status == Failed)
    ensures RanAndWritten(s, r, j, outcome) && (s.rows[j].status, s.rows[j].error) == Terminal(outcome)
  {
    var p := JobEvents(s.log, j);
    assert |p| == 4;
    r, outcome := p[1].replica, p[2].outcome;
    assert p[2] == Ran(r, j, outcome) && p[3] == Finished(r, j, true);
    JobEventsInLog(s.log, j, p[2]);
    JobEventsInLog(s.log, j, p[3]);
  }

  lemma LogToRow(s: State, j: JobId, r: nat, outcome: Outcome)
    requires JobInv(s, j) && RanAndWritten(s, r, j, outcome)
    ensures j in s.rows && (s.rows[j].status, s.rows[j].error) == Terminal(outcome)
  {
    var p := JobEvents(s.log, j);
    JobEventsInLog(s.log, j, Ran(r, j, outcome));
    JobEventsInLog(s.log, j, Finished(r, j, true));
    var i :| 0 <= i < |p| && p[i] == Ran(r, j, outcome);
    var k :| 0 <= k < |p| && p[k] == Finished(r, j, true);
    assert i == 2 && k == 3;
  }

  /** A row is Completed exactly when its runner returned Ok and that result was written. */
  lemma CompletedIffSucceeded(replicas: nat, actions: seq<Action>, j: JobId)
    ensures var s := After(replicas, actions);
            j in s.rows && s.rows[j].status == Completed <==> exists r :: RanAndWritten(s, r, j, Succeeded)
  {
    AfterInv(replicas, actions);
    CompletedRow(After(replicas, actions), j);
  }

  lemma CompletedRow(s: State, j: JobId)
    requires JobInv(s, j)
    ensures j in s.rows && s.rows[j].status == Completed <==> exists r :: RanAndWritten(s, r, j, Succeeded)
  {
    if j in s.rows && s.rows[j].status == Completed {
      var r, outcome := RowToLog(s, j);
    }
    if r :| RanAndWritten(s, r, j, Succeeded) {
      LogToRow(s, j, r, Succeeded);
    }
  }

  /** A row is Failed exactly when its runner returned an error that was written, and it carries that error. */
  lemma FailedIffErrored(replicas: nat, actions: seq<Action>, j: JobId, reason: string)
    ensures var s := After(replicas, actions);
            j in s.rows && s.rows[j].status == Failed && s.rows[j].error == Some(reason)
            <==> exists r :: RanAndWritten(s, r, j, Errored(reason))
  {
    AfterInv(replicas, actions);
    FailedRow(After(replicas, actions), j, reason);
  }

  lemma FailedRow(s: State, j: JobId, reason: string)
    requires JobInv(s, j)
    ensures j in s.rows && s.rows[j].status == Failed && s.rows[j].error == Some(reason)
            <==> exists r :: RanAndWritten(s, r, j, Errored(reason))
  {
    if j in s.rows && s.rows[j].status == Failed && s.rows[j].error == Some(reason) {
      var r, outcome := RowToLog(s, j);
    }
    if r :| RanAndWritten(s, r, j, Errored(reason)) {
      LogToRow(s, j, r, Errored(reason));
    }
  }

  /** A row carries an error message exactly when it is Failed. */
  lemma ErrorIffFailed(replicas: nat, actions: seq<Action>, j: JobId)
    ensures var s := After(replicas, actions);
            j in s.rows ==> (s.rows[j].error.Some? <==> s.rows[j].status == Failed)
  {
    AfterInv(replicas, actions);
    assert JobInv(After(replicas, actions), j);
  }

  // ---------------------------------------------------------------- what can always happen

  /** A new job can always be enqueued; it waits with the priority and age it was given. */
  lemma EnqueueWorks(replicas: nat, actions: seq<Action>, j: JobId, priority: i16, createdAt: nat)
    requires j !in After(replicas, actions).rows
    ensures var t := After(replicas, actions + [Enqueue(j, priority, createdAt)]);
            j in t.rows && t.rows[j] == Job(Pending, None, priority, createdAt)
  {
    AfterAppend(replicas, actions, Enqueue(j, priority, createdAt));
  }

  /** And keeps them for good. */
  lemma {:induction false} RankIsForGood(replicas: nat, actions: seq<Action>, more: seq<Action>, j: JobId)
    requires j in After(replicas, actions).rows
    ensures var s, t := After(replicas, actions), After(replicas, actions + more);
            j in t.rows && t.rows[j].priority == s.rows[j].priority && t.rows[j].createdAt == s.rows[j].createdAt
  {
    if more == [] {
      assert actions + more == actions;
    } else {
      var init, a := more[..|more| - 1], more[|more| - 1];
      RankIsForGood(replicas, actions, init, j);
      assert actions + more == (actions + init) + [a];
      AfterAppend(replicas, actions + init, a);
      StepKeepsRanks(After(replicas, actions + init), a);
    }
  }

  /** A replica that executes a job can end it with any outcome, which is then what the row says. */
  lemma OutcomeIsWritten(replicas: nat, actions: seq<Action>, r: nat, j: JobId, outcome: Outcome)
    requires r < |After(replicas, actions).phases| && After(replicas, actions).phases[r] == Executing(j)
    ensures var t := After(replicas, actions + [RunJob(r, outcome)] + [Finish(r)]);
            && j in t.rows
            && t.rows[j].status == (if outcome == Succeeded then Completed else Failed)
            && t.rows[j].error == (if outcome.Errored? then Some(outcome.reason) else None)
            && r < |t.phases| && t.phases[r] == Top
  {
    var s := After(replicas, actions);
    AfterInv(replicas, actions);
    assert PhaseAgrees(s, r) && JobInv(s, j);
    AfterAppend(replicas, actions, RunJob(r, outcome));
    AfterAppend(replicas, actions + [RunJob(r, outcome)], Finish(r));
  }

  /** Or the write is lost, and the row stays Running. */
  lemma OutcomeIsLost(replicas: nat, actions: seq<Action>, r: nat, j: JobId, outcome: Outcome)
    requires r < |After(replicas, actions).phases| && After(replicas, actions).phases[r] == Executing(j)
    ensures var t := After(replicas, actions + [RunJob(r, outcome)] + [FinishFails(r)]);
            && j in t.rows && t.rows[j].status == Running && t.rows[j].error == None
            && r < |t.phases| && t.phases[r] == Top
  {
    var s := After(replicas, actions);
    AfterInv(replicas, actions);
    assert PhaseAgrees(s, r) && JobInv(s, j);
    AfterAppend(replicas, actions, RunJob(r, outcome));
    AfterAppend(replicas, actions + [RunJob(r, outcome)], FinishFails(r));
  }

  /** A token can be fired at any time. */
  lemma CancelWorks(replicas: nat, actions: seq<Action>, r: nat)
    requires r < replicas
    ensures Cancelled(r) in After(replicas, actions + [Cancel(r)]).log
  {
    AfterShutdown(replicas, actions, r);
    AfterAppend(replicas, actions, Cancel(r));
  }

  // ---------------------------------------------------------------- nothing is lost or repeated

  function Stage(e: Event): nat {
    match e
    case Enqueued(_) => 0
    case Claimed(_, _) => 1
    case Ran(_, _, _) => 2
    case Finished(_, _, _) => 3
    case Cancelled(_) => 4
  }

  lemma {:induction false} JobEventsPosition(log: seq<Event>, i: nat, j: JobId)
    requires i < |log| && !log[i].Cancelled? && log[i].job == j
    ensures var k := |JobEvents(log[..i], j)|;
            k < |JobEvents(log, j)| && JobEvents(log, j)[k] == log[i]
            && k < |JobEvents(log[..i + 1], j)|
  {
    assert log[..i + 1] == log[..i] + [log[i]];
    JobEventsAppend(log[..i], log[i], j);
    if i + 1 == |log| {
      assert log[..i + 1] == log;
    } else {
      var init := log[..|log| - 1];
      JobEventsPosition(init, i, j);
      assert init[..i] == log[..i];
    }
  }

  lemma {:induction false} JobEventsGrow(log: seq<Event>, i: nat, k: nat, j: JobId)
    requires i <= k <= |log|
    ensures |JobEvents(log[..i], j)| <= |JobEvents(log[..k], j)|
    decreases k
  {
    if i < k {
      JobEventsGrow(log, i, k - 1, j);
      assert log[..k] == log[..k - 1] + [log[k - 1]];
      JobEventsAppend(log[..k - 1], log[k - 1], j);
    }
  }

  /** In a well-shaped life the position of an event is its stage. */
  lemma StageIsPosition(p: seq<Event>, j: JobId, x: nat)
    requires LifeShape(p, j) && x < |p|
    ensures Stage(p[x]) == x && (x > 0 ==> IsWork(p[x]) && p[x].replica == p[1].replica)
  {
    assert x == 0 || x == 1 || x == 2 || x == 3;
  }

  lemma StagesByPosition(s: State, j: JobId, i: nat, k: nat)
    requires JobInv(s, j) && i < k < |s.log|
    requires !s.log[i].Cancelled? && !s.log[k].Cancelled? && s.log[i].job == j && s.log[k].job == j
    ensures Stage(s.log[i]) < Stage(s.log[k])
    ensures s.log[i].Enqueued? || (!s.log[k].Enqueued? && s.log[i].replica == s.log[k].replica)
  {
    JobEventsPosition(s.log, i, j);
    JobEventsPosition(s.log, k, j);
    JobEventsGrow(s.log, i + 1, k, j);
    var p, x, y := JobEvents(s.log, j), |JobEvents(s.log[..i], j)|, |JobEvents(s.log[..k], j)|;
    assert x < y < |p| && p[x] == s.log[i] && p[y] == s.log[k];
    StageIsPosition(p, j, x);
    StageIsPosition(p, j, y);
  }

  /** Anything that happens to a job later is a later stage: no job is claimed, run or finished twice,
      and every stage after the claim belongs to the claiming replica. */
  lemma StagesInOrder(replicas: nat, actions: seq<Action>, i: nat, k: nat)
    requires i < k < |After(replicas, actions).log|
    requires var log := After(replicas, actions).log;
             !log[i].Cancelled? && !log[k].Cancelled? && log[i].job == log[k].job
    ensures var log := After(replicas, actions).log;
            && Stage(log[i]) < Stage(log[k])
            && (log[i].Enqueued? || (!log[k].Enqueued? && log[i].replica == log[k].replica))
  {
    var s := After(replicas, actions);
    assert JobInv(s, s.log[i].job) by { AfterInv(replicas, actions); }
    StagesByPosition(s, s.log[i].job, i, k);
  }

  function PendingJobs(s: State): set<JobId> {
    set j | j in s.rows && s.rows[j].status == Pending
  }

  ghost function HeldJobs(s: State): set<JobId> {
    set j | j in s.rows && exists r :: Holds(s, r, j)
  }

  /** Jobs that ran but whose finish could not be written. */
  ghost function OrphanedJobs(s: State): set<JobId> {
    set j | j in s.rows && exists r :: Finished(r, j, false) in s.log
  }

  function ClosedJobs(s: State): set<JobId> {
    set j | j in s.rows && (s.rows[j].status == Completed || s.rows[j].status == Failed)
  }

  /** Where a job is, from what happened to it. */
  lemma WhereIs(s: State, j: JobId)
    requires Inv(s)
    ensures var p := JobEvents(s.log, j);
            && (j in PendingJobs(s) <==> |p| == 1)
            && (j in HeldJobs(s) <==> |p| == 2 || |p| == 3)
            && (j in OrphanedJobs(s) <==> |p| == 4 && p[3].Finished? && !p[3].written)
            && (j in ClosedJobs(s) <==> |p| == 4 && p[3].Finished? && p[3].written)
            && (j in s.rows <==> |p| >= 1)
  {
    var p := JobEvents(s.log, j);
    assert JobInv(s, j);
    if |p| == 2 || |p| == 3 {
      assert Holds(s, p[1].replica, j);
    }
    if r :| Holds(s, r, j) {
      assert PhaseAgrees(s, r);
    }
    if r :| Finished(r, j, false) in s.log {
      JobEventsInLog(s.log, j, Finished(r, j, false));
    }
    if |p| == 4 {
      assert p[3] in p;
      JobEventsInLog(s.log, j, p[3]);
      assert p[3] == Finished(p[3].replica, j, p[3].written);
    }
  }

  lemma Partition(s: State)
    requires Inv(s)
    ensures PendingJobs(s) !! HeldJobs(s) !! OrphanedJobs(s) !! ClosedJobs(s)
  {
    forall j: JobId
      ensures !(j in PendingJobs(s) && j in HeldJobs(s))
      ensures !(j in PendingJobs(s) + HeldJobs(s) && j in OrphanedJobs(s))
      ensures !(j in PendingJobs(s) + HeldJobs(s) + OrphanedJobs(s) && j in ClosedJobs(s))
    {
      WhereIs(s, j);
    }
  }

  /** Conservation: every job ever enqueued is pending, held by one replica, orphaned by a lost finish,
      or closed, and in exactly one of these. */
  lemma NoJobLost(replicas: nat, actions: seq<Action>)
    ensures var s := After(replicas, actions);
            && s.rows.Keys == PendingJobs(s) + HeldJobs(s) + OrphanedJobs(s) + ClosedJobs(s)
            && PendingJobs(s) !! HeldJobs(s) !! OrphanedJobs(s) !! ClosedJobs(s)
            && |s.rows| == |PendingJobs(s)| + |HeldJobs(s)| + |OrphanedJobs(s)| + |ClosedJobs(s)|
            && forall j :: j in s.rows <==> Enqueued(j) in s.log
  {
    var s := After(replicas, actions);
    AfterInv(replicas, actions);
    forall j
      ensures j in s.rows.Keys <==> j in PendingJobs(s) + HeldJobs(s) + OrphanedJobs(s) + ClosedJobs(s)
      ensures j in s.rows <==> Enqueued(j) in s.log
    {
      WhereIs(s, j);
      JobEventsInLog(s.log, j, Enqueued(j));
      assert JobInv(s, j);
    }
    Partition(s);
    PartSizes(s.rows.Keys, PendingJobs(s), HeldJobs(s), OrphanedJobs(s), ClosedJobs(s));
  }

  lemma PartSizes<T>(whole: set<T>, a: set<T>, b: set<T>, c: set<T>, d: set<T>)
    requires whole == a + b + c + d && a !! b !! c !! d
    ensures |whole| == |a| + |b| + |c| + |d|
  {
  }

  // ---------------------------------------------------------------- shutdown

  /** Claims a replica makes once its cancellation token has fired. */
  function ClaimsAfterCancel(log: seq<Event>, r: nat): nat {
    if log == [] then 0 else
      var init, e := log[..|log| - 1], log[|log| - 1];
      ClaimsAfterCancel(init, r) + if e.Claimed? && e.replica == r && Cancelled(r) in init then 1 else 0
  }

  predicate ShutdownInv(s: State, r: nat) {
    r < |s.phases| == |s.cancelled| ==>
      && ClaimsAfterCancel(s.log, r) <= 1
      && (!s.cancelled[r] ==> ClaimsAfterCancel(s.log, r) == 0 && Cancelled(r) !in s.log)
      && (s.phases[r] == Claiming ==> ClaimsAfterCancel(s.log, r) == 0)
  }

  lemma StepShutdown(s: State, a: Action, r: nat)
    requires |s.phases| == |s.cancelled| && ShutdownInv(s, r)
    ensures ShutdownInv(Step(s, a), r)
    ensures |Step(s, a).phases| == |s.phases| && |Step(s, a).cancelled| == |s.cancelled|
  {
    var t := Step(s, a);
    if |t.log| == |s.log| + 1 {
      assert t.log[..|s.log|] == s.log;
      assert t.log == s.log + [t.log[|s.log|]];
    }
  }

  lemma {:induction false} AfterShutdown(replicas: nat, actions: seq<Action>, r: nat)
    ensures |After(replicas, actions).phases| == replicas && |After(replicas, actions).cancelled| == replicas
    ensures ShutdownInv(After(replicas, actions), r)
  {
    if actions != [] {
      var last := |actions| - 1;
      var s := After(replicas, actions[..last]);
      AfterShutdown(replicas, actions[..last], r);
      StepShutdown(s, actions[last], r);
      assert After(replicas, actions) == Step(s, actions[last]);
    }
  }

  /** After its token fires a replica starts at most one more job. */
  lemma AtMostOneClaimAfterCancel(replicas: nat, actions: seq<Action>, r: nat)
    requires r < replicas
    ensures ClaimsAfterCancel(After(replicas, actions).log, r) <= 1
  {
    AfterShutdown(replicas, actions, r);
  }

  // ---------------------------------------------------------------- leaving and staying in the loop

  ghost predicate ExitInv(s: State, r: nat) {
    r < |s.phases| == |s.cancelled| ==>
      (s.cancelled[r] <==> Cancelled(r) in s.log) && (s.phases[r] == Exited ==> s.cancelled[r])
  }

  lemma StepExit(s: State, a: Action, r: nat)
    requires |s.phases| == |s.cancelled| && ExitInv(s, r)
    ensures ExitInv(Step(s, a), r)
  {
  }

  lemma {:induction false} AfterExit(replicas: nat, actions: seq<Action>, r: nat)
    ensures ExitInv(After(replicas, actions), r)
  {
    if actions != [] {
      var last := |actions| - 1;
      AfterExit(replicas, actions[..last], r);
      AfterShutdown(replicas, actions[..last], r);
      StepExit(After(replicas, actions[..last]), actions[last], r);
    }
  }

  /** In every run a replica has left its loop only if its token was fired. */
  lemma ExitsOnlyWhenCancelled(replicas: nat, actions: seq<Action>, r: nat)
    requires r < replicas
    ensures var s := After(replicas, actions);
            r < |s.phases| && (s.phases[r] == Exited ==> Cancelled(r) in s.log)
  {
    AfterExit(replicas, actions, r);
    AfterShutdown(replicas, actions, r);
  }

  /** What a replica does by itself, as opposed to enqueues and cancels. */
  predicate OwnAction(a: Action, r: nat) {
    !a.Enqueue? && !a.Cancel? && a.replica == r
  }

  /** How many of its own actions separate a replica from a claim. */
  function Distance(phase: Phase): nat {
    match phase
    case Claiming => 0
    case Top => 1
    case Sleeping => 2
    case Finishing(_, _) => 2
    case Executing(_) => 3
    case Exited => 4
  }

  /** One own action of a replica that is not about to claim brings it closer to it. */
  lemma Approach(s: State, r: nat, j: JobId) returns (a: Action)
    requires Inv(s) && r < |s.phases| && !s.cancelled[r] && s.phases[r] != Exited && s.phases[r] != Claiming
    requires IsPending(s, j)
    ensures OwnAction(a, r) && Enabled(s, a)
    ensures var t := Step(s, a);
            && |t.phases| == |s.phases| && |t.cancelled| == |s.cancelled| && !t.cancelled[r] && IsPending(t, j)
            && t.phases[r] != Exited && Distance(t.phases[r]) < Distance(s.phases[r])
  {
    assert PhaseAgrees(s, r) && JobInv(s, j);
    match s.phases[r]
    case Top => a := CheckToken(r);
    case Sleeping => a := WakeUp(r);
    case Executing(k) => a := RunJob(r, Succeeded);
    case Finishing(k, _) =>
      assert JobInv(s, k);
      a := Finish(r);
  }

  lemma AfterAppend(replicas: nat, actions: seq<Action>, a: Action)
    ensures After(replicas, actions + [a]) == Step(After(replicas, actions), a)
  {
    assert (actions + [a])[..|actions|] == actions;
  }

  /** Progress: from every reachable state, a replica whose token has not fired can, by its own actions alone, go on
      to claim any pending job. */
  lemma {:induction false} ReachesClaim(replicas: nat, actions: seq<Action>, r: nat, j: JobId)
    returns (more: seq<Action>)
    requires r < replicas && Cancelled(r) !in After(replicas, actions).log && IsPending(After(replicas, actions), j)
    ensures forall a :: a in more ==> OwnAction(a, r)
    ensures var t := After(replicas, actions + more);
            r < |t.phases| && t.phases[r] == Executing(j) && t.log != [] && t.log[|t.log| - 1] == Claimed(r, j)
    decreases var s := After(replicas, actions); if r < |s.phases| then Distance(s.phases[r]) else 0
  {
    var s := After(replicas, actions);
    AfterInv(replicas, actions);
    AfterExit(replicas, actions, r);
    AfterShutdown(replicas, actions, r);
    if s.phases[r] == Claiming {
      more := [Claim(r, j)];
      AfterAppend(replicas, actions, Claim(r, j));
    } else {
      var a := Approach(s, r, j);
      AfterAppend(replicas, actions, a);
      AfterExit(replicas, actions + [a], r);
      AfterShutdown(replicas, actions + [a], r);
      var rest := ReachesClaim(replicas, actions + [a], r, j);
      more := [a] + rest;
      assert actions + more == (actions + [a]) + rest;
    }
  }

  /** How many of its own actions separate a cancelled replica from leaving. */
  function ExitDistance(phase: Phase): nat {
    match phase
    case Exited => 0
    case Top => 1
    case Sleeping => 2
    case Finishing(_, _) => 2
    case Claiming => 3
    case Executing(_) => 3
  }

  lemma ApproachExit(s: State, r: nat) returns (a: Action)
    requires Inv(s) && r < |s.phases| && s.cancelled[r] && s.phases[r] != Exited
    ensures OwnAction(a, r) && Enabled(s, a) && !a.Claim?
    ensures var t := Step(s, a);
            r < |t.phases| && ExitDistance(t.phases[r]) < ExitDistance(s.phases[r]) && s.log <= t.log
  {
    assert PhaseAgrees(s, r);
    match s.phases[r]
    case Top => a := CheckToken(r);
    case Claiming => a := ClaimFails(r);
    case Sleeping => a := WakeUp(r);
    case Executing(_) => a := RunJob(r, Succeeded);
    case Finishing(k, _) =>
      assert JobInv(s, k);
      a := Finish(r);
  }

  lemma ExitStep(replicas: nat, actions: seq<Action>, r: nat) returns (a: Action)
    requires r < replicas && Cancelled(r) in After(replicas, actions).log
    requires r < |After(replicas, actions).phases| && After(replicas, actions).phases[r] != Exited
    ensures OwnAction(a, r) && !a.Claim?
    ensures var s, t := After(replicas, actions), After(replicas, actions + [a]);
            r < |t.phases| && ExitDistance(t.phases[r]) < ExitDistance(s.phases[r]) && Cancelled(r) in t.log
  {
    AfterInv(replicas, actions);
    AfterExit(replicas, actions, r);
    AfterShutdown(replicas, actions, r);
    a := ApproachExit(After(replicas, actions), r);
    AfterAppend(replicas, actions, a);
  }

  /** Shutdown: from every reachable state, a replica whose token has fired can leave by its own actions, without
      claiming another job. */
  lemma {:induction false} ReachesExit(replicas: nat, actions: seq<Action>, r: nat) returns (more: seq<Action>)
    requires r < replicas && Cancelled(r) in After(replicas, actions).log
    ensures forall a :: a in more ==> OwnAction(a, r) && !a.Claim?
    ensures var t := After(replicas, actions + more); r < |t.phases| && t.phases[r] == Exited
    decreases var s := After(replicas, actions); if r < |s.phases| then ExitDistance(s.phases[r]) else 0
  {
    AfterShutdown(replicas, actions, r);
    if After(replicas, actions).phases[r] == Exited {
      more := [];
      assert actions + more == actions;
    } else {
      var a := ExitStep(replicas, actions, r);
      var rest := ReachesExit(replicas, actions + [a], r);
      more := [a] + rest;
      assert actions + more == (actions + [a]) + rest;
    }
  }

  /** The n-th action of a run takes effect. */
  ghost predicate Effective(replicas: nat, actions: seq<Action>, n: nat) {
    n < |actions| && Enabled(After(replicas, actions[..n]), actions[n])
  }

  /** Whether a replica finished a job or slept through a poll interval at this point of a run. */
  ghost predicate EndsTurn(replicas: nat, actions: seq<Action>, n: nat, r: nat) {
    Effective(replicas, actions, n) && actions[n] in {WakeUp(r), Finish(r), FinishFails(r)}
  }

  lemma {:induction false} AwayFromTop(replicas: nat, actions: seq<Action>, i: nat, k: nat, r: nat)
    requires r < replicas && i < k <= |actions| && Effective(replicas, actions, i) && actions[i] == CheckToken(r)
    requires forall n: nat :: i < n < k ==> !EndsTurn(replicas, actions, n, r)
    ensures r < |After(replicas, actions[..k]).phases|
    ensures After(replicas, actions[..k]).phases[r] != Top
    decreases k
  {
    var s := After(replicas, actions[..k - 1]);
    assert actions[..k] == actions[..k - 1] + [actions[k - 1]];
    AfterAppend(replicas, actions[..k - 1], actions[k - 1]);
    AfterShutdown(replicas, actions[..k - 1], r);
    if i < k - 1 {
      AwayFromTop(replicas, actions, i, k - 1, r);
      assert !EndsTurn(replicas, actions, k - 1, r);
      StaysAway(s, actions[k - 1], r);
    } else {
      LeavesTop(s, r);
    }
  }

  lemma LeavesTop(s: State, r: nat)
    requires Enabled(s, CheckToken(r))
    ensures r < |Step(s, CheckToken(r)).phases| && Step(s, CheckToken(r)).phases[r] != Top
  {
  }

  lemma StaysAway(s: State, a: Action, r: nat)
    requires r < |s.phases| && s.phases[r] != Top
    requires !(Enabled(s, a) && a in {WakeUp(r), Finish(r), FinishFails(r)})
    ensures r < |Step(s, a).phases| && Step(s, a).phases[r] != Top
  {
  }

  /** No spinning: between two tests of its token a replica has finished a job or slept. */
  lemma TurnsAreSeparated(replicas: nat, actions: seq<Action>, i: nat, k: nat, r: nat)
    requires r < replicas && i < k && Effective(replicas, actions, i) && Effective(replicas, actions, k)
    requires actions[i] == CheckToken(r) && actions[k] == CheckToken(r)
    ensures exists n: nat :: i < n < k && EndsTurn(replicas, actions, n, r)
  {
    if forall n: nat :: i < n < k ==> !EndsTurn(replicas, actions, n, r) {
      AwayFromTop(replicas, actions, i, k, r);
    }
  }

  // ---------------------------------------------------------------- drain order

  /** What a queue may sort by; it never changes once the job is enqueued. */
  datatype Rank = Rank(priority: i16, createdAt: nat)

  function RankOf(job: Job): Rank {
    Rank(job.priority, job.createdAt)
  }

  /** When the first job must be claimed before the second. */
  type Order = (Rank, Rank) -> bool

  /** Priority first, then age. */
  predicate ByPriority(a: Rank, b: Rank) {
    a.priority > b.priority || (a.priority == b.priority && a.createdAt < b.createdAt)
  }

  /** Negation of an `i16` that wraps: the least value has no opposite. */
  function Negated(x: i16): i16 {
    if x == MIN_PRIORITY then MIN_PRIORITY else -x
  }

  /** Smallest negated priority first, then age, as the in-memory queue claims. */
  predicate ByNegatedPriority(a: Rank, b: Rank) {
    || Negated(a.priority) < Negated(b.priority)
    || (Negated(a.priority) == Negated(b.priority) && a.createdAt < b.createdAt)
  }

  /** A claim takes a pending job that no other pending job must precede. */
  ghost predicate InOrder(order: Order, s: State, a: Action) {
    Enabled(s, a) && a.Claim? ==>
      forall k :: IsPending(s, k) ==> !order(RankOf(s.rows[k]), RankOf(s.rows[a.job]))
  }

  /** Every claim of a run is in order. */
  ghost predicate ClaimsInOrder(order: Order, replicas: nat, actions: seq<Action>) {
    forall n: nat {:trigger actions[..n]} :: n < |actions| ==> InOrder(order, After(replicas, actions[..n]), actions[n])
  }

  /** If job `a` precedes the job claimed at position i and was enqueued before, it was claimed before too. */
  ghost predicate DrainOrder(order: Order, s: State, i: nat, a: JobId)
    requires i < |s.log|
  {
    (s.log[i].Claimed? && s.log[i].job in s.rows && a in s.rows
     && order(RankOf(s.rows[a]), RankOf(s.rows[s.log[i].job])) && Enqueued(a) in s.log[..i])
    ==> exists q :: Claimed(q, a) in s.log[..i]
  }

  /** A step keeps the rank of every row and only extends the log. */
  lemma StepKeepsRanks(s: State, a: Action)
    ensures s.log <= Step(s, a).log && |Step(s, a).log| <= |s.log| + 1
    ensures forall j :: j in s.rows ==> (j in Step(s, a).rows && RankOf(Step(s, a).rows[j]) == RankOf(s.rows[j]))
    ensures forall j :: j in Step(s, a).rows && j !in s.rows ==> Step(s, a).log == s.log + [Enqueued(j)]
    ensures |Step(s, a).log| > |s.log| && Step(s, a).log[|s.log|].Claimed? ==> a.Claim? && Enabled(s, a)
  {
  }

  lemma ClaimDrains(order: Order, s: State, a: Action, k: JobId)
    requires Inv(s) && Enabled(s, a) && a.Claim? && InOrder(order, s, a)
    ensures DrainOrder(order, Apply(s, a), |s.log|, k)
  {
    var t := Apply(s, a);
    assert t.log[..|s.log|] == s.log;
    if k in s.rows && order(RankOf(s.rows[k]), RankOf(s.rows[a.job])) {
      assert JobInv(s, k) && !IsPending(s, k);
      var p := JobEvents(s.log, k);
      assert |p| >= 2;
      JobEventsInLog(s.log, k, p[1]);
      assert p[1] == Claimed(p[1].replica, k);
    }
  }

  lemma OrderSoFar(order: Order, replicas: nat, actions: seq<Action>)
    requires actions != [] && ClaimsInOrder(order, replicas, actions)
    ensures var last := |actions| - 1;
            && ClaimsInOrder(order, replicas, actions[..last])
            && InOrder(order, After(replicas, actions[..last]), actions[last])
  {
    var init := actions[..|actions| - 1];
    forall n: nat {:trigger init[..n]} | n < |init| ensures InOrder(order, After(replicas, init[..n]), init[n]) {
      assert init[..n] == actions[..n] && init[n] == actions[n];
    }
  }

  /** Whatever the order, a queue that claims by it drains by it: in every run, a claim follows the claims
      of all jobs enqueued before it that must precede its own. */
  lemma {:induction false} OrderIsKept(order: Order, replicas: nat, actions: seq<Action>, i: nat, a: JobId)
    requires ClaimsInOrder(order, replicas, actions) && i < |After(replicas, actions).log|
    ensures DrainOrder(order, After(replicas, actions), i, a)
  {
    var last := |actions| - 1;
    var s, t := After(replicas, actions[..last]), After(replicas, actions);
    OrderSoFar(order, replicas, actions);
    AfterInv(replicas, actions[..last]);
    StepKeepsRanks(s, actions[last]);
    if i < |s.log| {
      OrderIsKept(order, replicas, actions[..last], i, a);
      EarlierDrains(order, s, t, i, a);
    } else if t.log[i].Claimed? {
      ClaimDrains(order, s, actions[last], a);
    }
  }

  lemma EarlierDrains(order: Order, s: State, t: State, i: nat, a: JobId)
    requires Inv(s) && s.log <= t.log && i < |s.log| && DrainOrder(order, s, i, a)
    requires forall j :: j in s.rows ==> (j in t.rows && RankOf(t.rows[j]) == RankOf(s.rows[j]))
    ensures DrainOrder(order, t, i, a)
  {
    assert t.log[..i] == s.log[..i] && t.log[i] == s.log[i];
    assert JobInv(s, a) && (!s.log[i].Cancelled? ==> JobInv(s, s.log[i].job));
    if Enqueued(a) in s.log[..i] {
      JobEventsInLog(s.log, a, Enqueued(a));
    }
    if s.log[i].Claimed? {
      JobEventsInLog(s.log, s.log[i].job, s.log[i]);
    }
  }

  /** The in-memory order is priority order for a pair of jobs exactly when both or neither have the least
      priority, whose negation wraps. */
  lemma NegationExact(a: Rank, b: Rank)
    ensures (a.priority == MIN_PRIORITY <==> b.priority == MIN_PRIORITY)
            <==> (ByNegatedPriority(a, b) <==> ByPriority(a, b)) && (ByNegatedPriority(b, a) <==> ByPriority(b, a))
  {
  }

  /** Jobs of higher priority first, what the in-memory queue promises: it holds against every claim of a job above
      the least priority, and among jobs of the least priority. */
  lemma HigherPriorityFirst(replicas: nat, actions: seq<Action>, i: nat, a: JobId)
    requires ClaimsInOrder(ByNegatedPriority, replicas, actions) && i < |After(replicas, actions).log|
    requires var s := After(replicas, actions);
             s.log[i].Claimed? && a in s.rows && s.log[i].job in s.rows ==>
               (s.rows[s.log[i].job].priority == MIN_PRIORITY ==> s.rows[a].priority == MIN_PRIORITY)
    ensures DrainOrder(ByPriority, After(replicas, actions), i, a)
  {
    OrderIsKept(ByNegatedPriority, replicas, actions, i, a);
  }

  /** A run of the in-memory order in which the least priority jumps ahead of another. */
  function LeastFirst(other: i16): seq<Action> {
    [Enqueue("low", MIN_PRIORITY, 0), Enqueue("other", other, 0), CheckToken(0), Claim(0, "low")]
  }

  lemma LeastFirstStates(other: i16)
    ensures var acts := LeastFirst(other);
            var low, high := Job(Pending, None, MIN_PRIORITY, 0), Job(Pending, None, other, 0);
            var s2 := State(map["low" := low, "other" := high], [Top], [false], [Enqueued("low"), Enqueued("other")]);
            && After(1, acts[..2]) == s2 && After(1, acts[..3]) == s2.(phases := [Claiming])
            && After(1, acts) == Step(After(1, acts[..3]), acts[3])
  {
    var acts := LeastFirst(other);
    assert acts[..4] == acts && acts[..4][..3] == acts[..3] && acts[..3][..2] == acts[..2];
    assert acts[..2][..1] == acts[..1] && acts[..1][..0] == [];
    assert After(1, acts[..1])
        == State(map["low" := Job(Pending, None, MIN_PRIORITY, 0)], [Top], [false], [Enqueued("low")]);
  }

  lemma LeastFirstInOrder(other: i16)
    ensures ClaimsInOrder(ByNegatedPriority, 1, LeastFirst(other))
  {
    var acts := LeastFirst(other);
    LeastFirstStates(other);
    forall n: nat {:trigger acts[..n]} | n < |acts| ensures InOrder(ByNegatedPriority, After(1, acts[..n]), acts[n]) {
      if n == 3 {
        assert forall k :: IsPending(After(1, acts[..3]), k) ==> k == "low" || k == "other";
      }
    }
  }

  /** The exception is exact: in that run priority order is broken against every other priority. */
  lemma LeastPriorityWraps(other: i16)
    ensures ClaimsInOrder(ByNegatedPriority, 1, LeastFirst(other))
    ensures After(1, LeastFirst(other)).log == [Enqueued("low"), Enqueued("other"), Claimed(0, "low")]
    ensures DrainOrder(ByPriority, After(1, LeastFirst(other)), 2, "other") <==> other == MIN_PRIORITY
  {
    LeastFirstInOrder(other);
    LeastFirstStates(other);
    var t := After(1, LeastFirst(other));
    assert t.log[..2] == [Enqueued("low"), Enqueued("other")];
  }

  /** In a run of the in-memory queue, a job of priority `p` goes before the claim at position i of a job of
      priority `q` when it should. */
  ghost predicate GoesFirst(p: i16, q: i16, replicas: nat, actions: seq<Action>, i: nat, a: JobId) {
    var s := After(replicas, actions);
    ClaimsInOrder(ByNegatedPriority, replicas, actions) && i < |s.log| && s.log[i].Claimed?
      && a in s.rows && s.rows[a].priority == p && s.log[i].job in s.rows && s.rows[s.log[i].job].priority == q
    ==> DrainOrder(ByPriority, s, i, a)
  }

  /** Exact condition on two priorities: every run puts the one before the other when it should if and only if the
      claimed one is not the least, or both are. */
  lemma PriorityOrderExact(p: i16, q: i16)
    ensures (forall replicas: nat, actions, i: nat, a :: GoesFirst(p, q, replicas, actions, i, a))
            <==> (q == MIN_PRIORITY ==> p == MIN_PRIORITY)
  {
    if q == MIN_PRIORITY ==> p == MIN_PRIORITY {
      forall replicas: nat, actions, i: nat, a ensures GoesFirst(p, q, replicas, actions, i, a) {
        var s := After(replicas, actions);
        if ClaimsInOrder(ByNegatedPriority, replicas, actions) && i < |s.log| && s.log[i].Claimed?
           && a in s.rows && s.rows[a].priority == p && s.log[i].job in s.rows && s.rows[s.log[i].job].priority == q {
          HigherPriorityFirst(replicas, actions, i, a);
        }
      }
    } else {
      LeastPriorityWraps(p);
      LeastFirstStates(p);
      assert !GoesFirst(p, q, 1, LeastFirst(p), 2, "other");
    }
  }
}
