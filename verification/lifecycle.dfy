/** A backup job's life on the runtime (garrison/containers.py): submitting
    it and waiting for it to start, reading its exit status, removing it.
    The runtime's answers are values: the reply to a run request, the
    statuses polled after it, and a map from container id to state. */
module Lifecycle {
  import opened Wrappers
  import opened Constants
  import opened Containers

  // ---------------------------------------------------------------------------
  // Launch and start-wait (run_backup_container)

  /** One poll of a new job: seconds since it was created, and its status. */
  datatype Poll = Poll(elapsed: int, status: string)

  /** The daemon's answer to a run request: an API error with its HTTP
      status, or the created container's id and the polls that follow. */
  datatype RunReply = Refused(status: int) | Created(id: string, polls: seq<Poll>)

  /** The clock moves on by at least one second between polls (the loop
      sleeps one second), and the trace runs long enough for the timeout to
      be reached. */
  ghost predicate ClockAdvances(polls: seq<Poll>) {
    && |polls| > StartTimeout + 1
    && forall k :: 0 <= k < |polls| ==> polls[k].elapsed >= k
  }

  /** The job leaves `created` at some poll before any earlier poll saw the
      timeout exceeded. */
  ghost predicate StartsInTime(polls: seq<Poll>, from: nat) {
    exists j :: from <= j < |polls| && polls[j].status != "created"
      && forall l :: from <= l < j ==> polls[l].elapsed <= StartTimeout
  }

  /** The start-wait loop from poll `from` on: true once the status is no
      longer `created`, false once a `created` poll is past the timeout. */
  function AwaitStart(polls: seq<Poll>, from: nat): (started: bool)
    requires ClockAdvances(polls)
    requires from < |polls|
    requires forall j :: 0 <= j < from ==> polls[j].status == "created" && polls[j].elapsed <= StartTimeout
    ensures started <==> StartsInTime(polls, from)
    decreases |polls| - from
  {
    if polls[from].status != "created" then true
    else if polls[from].elapsed > StartTimeout then false
    else AwaitStart(polls, from + 1)
  }

  /** A job that stays `created` throughout is given up on. */
  lemma NeverLeavingCreatedTimesOut(polls: seq<Poll>)
    requires ClockAdvances(polls)
    requires forall j :: 0 <= j < |polls| ==> polls[j].status == "created"
    ensures !AwaitStart(polls, 0)
  {
  }

  /** The outcome of launching the job `name`: a name conflict returns no id
      and raises nothing, any other API error is raised again, a job still
      `created` past the timeout raises ContainerNotStartedException (the job
      is not removed), and otherwise the new id is returned. */
  function RunBackupContainer(name: string, reply: RunReply): (r: Result<Option<string>, Fault>)
    requires reply.Created? ==> ClockAdvances(reply.polls)
    ensures r == Success(None) <==> reply == Refused(ConflictStatus)
    ensures (r.Failure? && r.error.ApiFailure?) <==> (reply.Refused? && reply.status != ConflictStatus)
    ensures r.Failure? && r.error.ApiFailure? ==> r.error.status == reply.status
    ensures r == Failure(NotStarted(name)) <==> (reply.Created? && !StartsInTime(reply.polls, 0))
    ensures (r.Success? && r.value.Some?) <==> (reply.Created? && StartsInTime(reply.polls, 0))
    ensures r.Success? && r.value.Some? ==> r.value.value == reply.id
  {
    match reply
    case Refused(status) =>
      if status == ConflictStatus then Success(None) else Failure(ApiFailure(status))
    case Created(id, polls) =>
      if AwaitStart(polls, 0) then Success(Some(id)) else Failure(NotStarted(name))
  }

  // ---------------------------------------------------------------------------
  // Exit status and removal

  /** A container's state as the runtime reports it. */
  datatype JobState = JobState(status: string, exitCode: int)

  /** The exit status of a job: -1 while it has not exited, its exit code
      once it has. Looking up None or an unknown id raises. */
  function ExitStatus(jobs: map<string, JobState>, id: Option<string>): (r: Result<int, Fault>)
    ensures r.Failure? <==> id.None? || id.value !in jobs
    ensures r.Success? && jobs[id.value].status != "exited" ==> r.value == StillRunning
    ensures r.Success? && jobs[id.value].status == "exited" ==> r.value == jobs[id.value].exitCode
  {
    if id.None? || id.value !in jobs then Failure(NoSuchContainer(id))
    else if jobs[id.value].status != "exited" then Success(StillRunning)
    else Success(jobs[id.value].exitCode)
  }

  /** Removing a job takes exactly its id out of the runtime; an id that is
      not there leaves the runtime as it was, and nothing is raised. */
  function RemoveContainer(jobs: map<string, JobState>, id: string): (r: map<string, JobState>)
    ensures r.Keys == jobs.Keys - {id}
    ensures forall x :: x in r ==> r[x] == jobs[x]
    ensures id !in jobs ==> r == jobs
  {
    if id in jobs then jobs - {id} else jobs
  }
}
