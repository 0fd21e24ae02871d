/** The `Job` of one sync run: a status, an append-only log, and `start`,
    which runs the collaborators in order (obtain the client, build the
    source tree, build the target tree, construct the dump, run the dump).
    The collaborators are foreign code; each is a step that either returns
    or raises, given here as its outcome. */
module Jobs {
  import opened Outcomes

  datatype Status = Pending | Running | Completed | Failed

  datatype Job = Job(name: string, status: Status, logs: seq<string>)

  const StartedMessage: string := "Job started."
  const CompletedMessage: string := "Job completed."
  const FailedPrefix: string := "Job failed: "

  /** The outcomes of the collaborator steps `start` performs, in order. */
  datatype Collaborators = Collaborators(
    getClient: Outcome,
    sourceTree: Outcome,
    targetTree: Outcome,
    makeDump: Outcome,
    runDump: Outcome)

  /** The job after `start`, and whether `start` returned or raised. */
  datatype Started = Started(job: Job, outcome: Outcome)

  /** `Job(name)`: pending, with nothing logged. */
  function NewJob(name: string): (j: Job)
    ensures j.name == name && j.status == Pending && j.logs == []
    ensures Consistent(j)
  {
    Job(name, Pending, [])
  }

  /** `complete()`: no check of the current status. */
  function Complete(j: Job): (r: Job)
    ensures r.status == Completed
    ensures r.logs == j.logs + [CompletedMessage]
    ensures r.name == j.name
    ensures StatusOfLog(r.logs) == r.status
  {
    j.(status := Completed, logs := j.logs + [CompletedMessage])
  }

  /** `fail(reason)`: no check of the current status. */
  function Fail(j: Job, reason: string): (r: Job)
    ensures r.status == Failed
    ensures r.logs == j.logs + [FailedPrefix + reason]
    ensures r.name == j.name
    ensures StatusOfLog(r.logs) == r.status
  {
    FailedEntryIsDistinct(reason);
    j.(status := Failed, logs := j.logs + [FailedPrefix + reason])
  }

  /** The first failure among the steps taken before the job is marked
      running, if any. */
  function BeforeRunning(c: Collaborators): Outcome
  {
    if c.getClient.Raised? then c.getClient
    else if c.sourceTree.Raised? then c.sourceTree
    else if c.targetTree.Raised? then c.targetTree
    else c.makeDump
  }

  /** `start()`. A failure before the job is marked running leaves it
      untouched and propagates; otherwise the job is marked running and
      "Job started." is logged BEFORE the dump runs, so a failing dump
      leaves it running with that entry; a dump that returns is followed by
      `complete()`. `fail` is never called. */
  function Start(j: Job, c: Collaborators): (r: Started)
    ensures BeforeRunning(c).Raised? ==> r == Started(j, BeforeRunning(c))
    ensures BeforeRunning(c).Pass? && c.runDump.Raised? ==>
              r.job == j.(status := Running, logs := j.logs + [StartedMessage]) && r.outcome == c.runDump
    ensures BeforeRunning(c).Pass? && c.runDump.Pass? ==>
              r.job == j.(status := Completed, logs := j.logs + [StartedMessage, CompletedMessage])
              && r.outcome == Pass
    ensures r.job.status != Failed || r.job == j
  {
    var pre := BeforeRunning(c);
    if pre.Raised? then Started(j, pre)
    else
      var running := j.(status := Running, logs := j.logs + [StartedMessage]);
      if c.runDump.Raised? then Started(running, c.runDump)
      else Started(Complete(running), Pass)
  }

  // ---------------------------------------------------------------------
  // Sequences of operations on one job

  datatype Op = DoStart(c: Collaborators) | DoComplete | DoFail(reason: string)

  function Apply(j: Job, op: Op): Job
  {
    match op
    case DoStart(c) => Start(j, c).job
    case DoComplete => Complete(j)
    case DoFail(reason) => Fail(j, reason)
  }

  function Replay(j: Job, ops: seq<Op>): Job
    decreases |ops|
  {
    if |ops| == 0 then j else Replay(Apply(j, ops[0]), ops[1..])
  }

  /** The log is append-only: whatever operations run, the earlier log is a
      prefix of the later one, and the name never changes. */
  lemma {:induction false} LogAppendOnly(j: Job, ops: seq<Op>)
    ensures j.logs <= Replay(j, ops).logs
    ensures Replay(j, ops).name == j.name
    decreases |ops|
  {
    if |ops| > 0 {
      var next := Apply(j, ops[0]);
      assert j.logs <= next.logs;
      LogAppendOnly(next, ops[1..]);
    }
  }

  /** The status a log implies on its own: nothing logged means pending,
      and otherwise the last entry tells. */
  function StatusOfLog(logs: seq<string>): Status
  {
    if |logs| == 0 then Pending
    else if logs[|logs| - 1] == StartedMessage then Running
    else if logs[|logs| - 1] == CompletedMessage then Completed
    else Failed
  }

  /** Every entry a job ever logs is one of the three kinds. */
  predicate WellFormedLog(logs: seq<string>)
  {
    forall i :: 0 <= i < |logs| ==>
      logs[i] == StartedMessage || logs[i] == CompletedMessage
      || (|logs[i]| >= |FailedPrefix| && logs[i][..|FailedPrefix|] == FailedPrefix)
  }

  /** A job's status agrees with what its log implies. */
  predicate Consistent(j: Job)
  {
    WellFormedLog(j.logs) && j.status == StatusOfLog(j.logs)
  }

  lemma FailedEntryIsDistinct(reason: string)
    ensures FailedPrefix + reason != StartedMessage
    ensures FailedPrefix + reason != CompletedMessage
  {
    assert (FailedPrefix + reason)[4] == 'f';
    assert StartedMessage[4] == 's';
    assert CompletedMessage[4] == 'c';
  }

  /** Every operation keeps the status in agreement with the log. */
  lemma ApplyConsistent(j: Job, op: Op)
    requires Consistent(j)
    ensures Consistent(Apply(j, op))
  {
  }

  /** For every job that starts out with `NewJob` and then undergoes any
      sequence of operations, the status is exactly what the log implies. */
  lemma {:induction false} ReplayConsistent(j: Job, ops: seq<Op>)
    requires Consistent(j)
    ensures Consistent(Replay(j, ops))
    decreases |ops|
  {
    if |ops| > 0 {
      ApplyConsistent(j, ops[0]);
      ReplayConsistent(Apply(j, ops[0]), ops[1..]);
    }
  }

  lemma ReachableConsistent(name: string, ops: seq<Op>)
    ensures Replay(NewJob(name), ops).status == StatusOfLog(Replay(NewJob(name), ops).logs)
  {
    ReplayConsistent(NewJob(name), ops);
  }

  /** There is no terminal state: failing a completed job overwrites its
      status, keeping both entries in the log. */
  lemma FailAfterComplete(j: Job, reason: string)
    ensures Fail(Complete(j), reason).status == Failed
    ensures Fail(Complete(j), reason).logs == j.logs + [CompletedMessage, FailedPrefix + reason]
  {
  }

  /** A whole successful run of a new job. */
  lemma SuccessfulRun(name: string, c: Collaborators)
    requires BeforeRunning(c).Pass? && c.runDump.Pass?
    ensures Start(NewJob(name), c) == Started(Job(name, Completed, [StartedMessage, CompletedMessage]), Pass)
  {
  }
}
