/** One backup run (`main` in garrison/__main__.py): launch a job for every
    selected volume of every eligible container, wait until none of them
    reports -1, then remove the jobs that exited with 0. The runtime is a
    `Host` value: what it lists, each container's mounts, its replies to the
    run requests in order, and the states it shows at each completion poll. */
module Orchestrator {
  import opened Wrappers
  import opened Collections
  import opened Constants
  import opened Containers
  import opened Lifecycle
  import opened Jobs

  // ---------------------------------------------------------------------------
  // Which volumes a run visits

  /** A container's bind mounts are included only when its label says exactly `"true"`. */
  function BindMountsEnabled(c: ContainerInfo): (on: bool)
    ensures on <==> Label(c.labels, BindMountsLabel) == Some("true")
  {
    LabelOr(c.labels, BindMountsLabel, "false") == "true"
  }

  /** The volumes a run backs up for `c`. */
  function Volumes(c: ContainerInfo, mountsOf: string -> seq<Mount>): seq<VolumeInfo> {
    SelectVolumes(c, mountsOf(c.id), BindMountsEnabled(c))
  }

  /** The inner loop for one container: the container with each of `vs`, in order. */
  function Visits(c: ContainerInfo, vs: seq<VolumeInfo>): (ps: seq<(ContainerInfo, VolumeInfo)>)
    ensures |ps| == |vs|
    ensures forall k :: 0 <= k < |vs| ==> ps[k] == (c, vs[k])
  {
    seq(|vs|, k requires 0 <= k < |vs| => (c, vs[k]))
  }

  /** Every (container, volume) pair the launch loop visits, container by
      container and volume by volume. */
  function Pairs(cs: seq<ContainerInfo>, mountsOf: string -> seq<Mount>): (ps: seq<(ContainerInfo, VolumeInfo)>)
    ensures forall k :: 0 <= k < |ps| ==> ps[k].1 in Volumes(ps[k].0, mountsOf)
  {
    if |cs| == 0 then []
    else
      var c := cs[|cs| - 1];
      Pairs(cs[..|cs| - 1], mountsOf) + Visits(c, Volumes(c, mountsOf))
  }

  /** One container's pairs are its volumes, each once, in selection order. */
  lemma PairsOfOne(c: ContainerInfo, mountsOf: string -> seq<Mount>)
    ensures var vs := Volumes(c, mountsOf);
      && |Pairs([c], mountsOf)| == |vs|
      && forall k :: 0 <= k < |vs| ==> Pairs([c], mountsOf)[k] == (c, vs[k])
  {
    assert [c][..0] == [];
  }

  /** The pairs of two runs of containers are the first run's pairs followed
      by the second's: containers are visited in order, each once. */
  lemma {:induction false} PairsAppend(cs1: seq<ContainerInfo>, cs2: seq<ContainerInfo>, mountsOf: string -> seq<Mount>)
    ensures Pairs(cs1 + cs2, mountsOf) == Pairs(cs1, mountsOf) + Pairs(cs2, mountsOf)
  {
    if |cs2| == 0 {
      assert cs1 + cs2 == cs1;
    } else {
      var n := |cs2| - 1;
      PairsAppend(cs1, cs2[..n], mountsOf);
      var all := cs1 + cs2;
      assert all[..|all| - 1] == cs1 + cs2[..n];
      assert all[|all| - 1] == cs2[n];
      PairsUnfold(all, mountsOf);
      PairsUnfold(cs2, mountsOf);
      var last := Visits(cs2[n], Volumes(cs2[n], mountsOf));
      Regroup(Pairs(cs1, mountsOf), Pairs(cs2[..n], mountsOf), last);
    }
  }

  /** The pairs of the containers are those of all but the last, followed by the last one's. */
  lemma PairsUnfold(cs: seq<ContainerInfo>, mountsOf: string -> seq<Mount>)
    requires |cs| > 0
    ensures Pairs(cs, mountsOf)
      == Pairs(cs[..|cs| - 1], mountsOf) + Visits(cs[|cs| - 1], Volumes(cs[|cs| - 1], mountsOf))
  {
  }

  /** The pairs of one container's volumes hold exactly that container with one of them. */
  lemma PairedWith(c: ContainerInfo, vs: seq<VolumeInfo>, p: (ContainerInfo, VolumeInfo))
    ensures p in Visits(c, vs) <==> p.0 == c && p.1 in vs
  {
    var tail := Visits(c, vs);
    if p.0 == c && p.1 in vs {
      var k :| 0 <= k < |vs| && vs[k] == p.1;
      assert tail[k] == p;
    }
  }

  /** The loop visits a pair exactly when its volume is selected for its container. */
  lemma {:induction false} PairsVisitEverySelectedVolume(cs: seq<ContainerInfo>, mountsOf: string -> seq<Mount>,
                                                         p: (ContainerInfo, VolumeInfo))
    ensures p in Pairs(cs, mountsOf) <==> p.0 in cs && p.1 in Volumes(p.0, mountsOf)
  {
    if |cs| > 0 {
      var n := |cs| - 1;
      var c := cs[n];
      PairsVisitEverySelectedVolume(cs[..n], mountsOf, p);
      PairedWith(c, Volumes(c, mountsOf), p);
      assert cs == cs[..n] + [c];
    }
  }

  // ---------------------------------------------------------------------------
  // Launch loop

  /** Every reply that creates a job comes with a well-behaved clock. */
  ghost predicate RepliesClocked(replies: nat -> RunReply) {
    forall k: nat :: replies(k).Created? ==> ClockAdvances(replies(k).polls)
  }

  /** Launching the job for one pair, answered by `reply`. */
  function Attempt(cfg: Config, server: string, hash: string -> string,
                   pair: (ContainerInfo, VolumeInfo), reply: RunReply): (r: Result<Option<string>, Fault>)
    requires reply.Created? ==> ClockAdvances(reply.polls)
    ensures ExtraVolumes(cfg.extraVolumes).Failure? ==> r.Failure? && r.error.MalformedVolumeSpec?
    ensures ExtraVolumes(cfg.extraVolumes).Success? ==> r == RunBackupContainer(JobName(pair.0.id, pair.1.source, hash), reply)
  {
    var request :- Trigger(cfg, server, pair.0, pair.1, hash);
    RunBackupContainer(request.name, reply)
  }

  /** The one exception the launch loop swallows. */
  predicate Absorbed(r: Result<Option<string>, Fault>) {
    r.Failure? && r.error.NotStarted?
  }

  /** An exception the launch loop lets through, ending the run. */
  predicate Fatal(r: Result<Option<string>, Fault>) {
    r.Failure? && !r.error.NotStarted?
  }

  /** The launch results of the pairs, in order: the `k`-th pair is
      answered by `replies(k)`. */
  function Launches(cfg: Config, server: string, hash: string -> string,
                    pairs: seq<(ContainerInfo, VolumeInfo)>, replies: nat -> RunReply)
    : (outcomes: seq<Result<Option<string>, Fault>>)
    requires RepliesClocked(replies)
    ensures |outcomes| == |pairs|
  {
    seq(|pairs|, k requires 0 <= k < |pairs| => Attempt(cfg, server, hash, pairs[k], replies(k)))
  }

  /** The launch loop's bookkeeping (`with suppress(...): ids.append(...)`):
      a job that never starts is skipped, every other result (an id, or
      None after a name conflict) is appended in order, and any other
      exception ends the run. */
  function Track(outcomes: seq<Result<Option<string>, Fault>>): (r: Result<seq<Option<string>>, Fault>)
    ensures r.Failure? <==> exists i :: 0 <= i < |outcomes| && Fatal(outcomes[i])
    ensures r.Success? ==> |r.value| <= |outcomes|
  {
    if |outcomes| == 0 then Success([])
    else
      var n := |outcomes| - 1;
      var init := outcomes[..n];
      assert forall i :: 0 <= i < n ==> init[i] == outcomes[i];
      var prior :- Track(init);
      if Absorbed(outcomes[n]) then Success(prior)
      else
        var id :- outcomes[n];
        Success(prior + [id])
  }

  /** The tracked list holds, in order, the value of exactly the launches
      that did not time out; `ps` are their positions among the pairs. */
  lemma {:induction false} TrackExact(outcomes: seq<Result<Option<string>, Fault>>) returns (ps: seq<nat>)
    requires Track(outcomes).Success?
    ensures var ids := Track(outcomes).value;
      && |ps| == |ids|
      && Increasing(ps)
      && (forall k :: 0 <= k < |ps| ==> ps[k] < |outcomes| && outcomes[ps[k]] == Success(ids[k]))
      && (forall i :: 0 <= i < |outcomes| ==> (i in ps <==> !Absorbed(outcomes[i])))
  {
    if |outcomes| == 0 {
      ps := [];
    } else {
      var n := |outcomes| - 1;
      var init := outcomes[..n];
      assert forall i :: 0 <= i < n ==> init[i] == outcomes[i];
      var ids := Track(outcomes).value;
      var prior := Track(init).value;
      var qs := TrackExact(init);
      if Absorbed(outcomes[n]) {
        assert ids == prior;
        ps := qs;
      } else {
        assert ids == prior + [outcomes[n].value];
        ps := qs + [n];
      }
      forall k | 0 <= k < |ps| ensures ps[k] < |outcomes| && outcomes[ps[k]] == Success(ids[k]) {
        if k < |qs| {
          assert ids[k] == prior[k];
        }
      }
      forall i | 0 <= i < |outcomes| ensures i in ps <==> !Absorbed(outcomes[i]) {
        if i < n {
          assert i in ps <==> i in qs;
        } else {
          assert n !in qs by {
            forall k | 0 <= k < |qs| ensures qs[k] != n { }
          }
        }
      }
    }
  }

  /** What the launch loop raises is the exception of the first launch the
      suppress block does not swallow, passed through unchanged. */
  lemma {:induction false} TrackRaisesFirstFatal(outcomes: seq<Result<Option<string>, Fault>>) returns (i: nat)
    requires Track(outcomes).Failure?
    ensures i < |outcomes| && Fatal(outcomes[i])
    ensures Track(outcomes).error == outcomes[i].error
    ensures forall j :: 0 <= j < i ==> !Fatal(outcomes[j])
  {
    var n := |outcomes| - 1;
    var init := outcomes[..n];
    assert forall j :: 0 <= j < n ==> init[j] == outcomes[j];
    if Track(init).Failure? {
      i := TrackRaisesFirstFatal(init);
    } else {
      assert !exists j :: 0 <= j < n && Fatal(init[j]);
      i := n;
    }
  }

  /** The launch loop over all pairs. */
  function LaunchAll(cfg: Config, server: string, hash: string -> string,
                     pairs: seq<(ContainerInfo, VolumeInfo)>, replies: nat -> RunReply)
    : (r: Result<seq<Option<string>>, Fault>)
    requires RepliesClocked(replies)
    ensures r.Success? ==> |r.value| <= |pairs|
  {
    Track(Launches(cfg, server, hash, pairs, replies))
  }

  /** The launch loop raises exactly when some pair's launch raises
      something other than ContainerNotStartedException. */
  lemma LaunchAllFailsIff(cfg: Config, server: string, hash: string -> string,
                          pairs: seq<(ContainerInfo, VolumeInfo)>, replies: nat -> RunReply)
    requires RepliesClocked(replies)
    ensures LaunchAll(cfg, server, hash, pairs, replies).Failure?
      <==> (exists i :: 0 <= i < |pairs| && Fatal(Attempt(cfg, server, hash, pairs[i], replies(i))))
  {
    var outcomes := Launches(cfg, server, hash, pairs, replies);
    assert forall i :: 0 <= i < |pairs| ==> outcomes[i] == Attempt(cfg, server, hash, pairs[i], replies(i));
  }

  /** The launch loop raises the exception of the first pair whose launch
      is fatal, unchanged. */
  lemma LaunchAllRaisesFirstFatal(cfg: Config, server: string, hash: string -> string,
                                  pairs: seq<(ContainerInfo, VolumeInfo)>, replies: nat -> RunReply)
    returns (i: nat)
    requires RepliesClocked(replies)
    requires LaunchAll(cfg, server, hash, pairs, replies).Failure?
    ensures i < |pairs| && Fatal(Attempt(cfg, server, hash, pairs[i], replies(i)))
    ensures LaunchAll(cfg, server, hash, pairs, replies).error == Attempt(cfg, server, hash, pairs[i], replies(i)).error
    ensures forall j :: 0 <= j < i ==> !Fatal(Attempt(cfg, server, hash, pairs[j], replies(j)))
  {
    var outcomes := Launches(cfg, server, hash, pairs, replies);
    assert forall j :: 0 <= j < |pairs| ==> outcomes[j] == Attempt(cfg, server, hash, pairs[j], replies(j));
    i := TrackRaisesFirstFatal(outcomes);
  }

  /** A name conflict is not skipped: it puts a None into the tracked list. */
  lemma ConflictIsTrackedAsNone(cfg: Config, server: string, hash: string -> string,
                                pairs: seq<(ContainerInfo, VolumeInfo)>, replies: nat -> RunReply, i: nat)
    requires RepliesClocked(replies)
    requires i < |pairs| && replies(i) == Refused(ConflictStatus)
    ensures LaunchAll(cfg, server, hash, pairs, replies).Success? ==>
      None in LaunchAll(cfg, server, hash, pairs, replies).value
  {
    if LaunchAll(cfg, server, hash, pairs, replies).Success? {
      var outcomes := Launches(cfg, server, hash, pairs, replies);
      var ps := TrackExact(outcomes);
      assert outcomes[i] == Success(None);
      assert i in ps;
      var k :| 0 <= k < |ps| && ps[k] == i;
    }
  }

  /** A job that times out stops neither the loop nor the launches after it. */
  lemma TimeoutDoesNotStopLaunches(cfg: Config, server: string, hash: string -> string,
                                   pairs: seq<(ContainerInfo, VolumeInfo)>, replies: nat -> RunReply, i: nat, j: nat)
    requires RepliesClocked(replies)
    requires i < j < |pairs|
    requires replies(i).Created? && !StartsInTime(replies(i).polls, 0)
    requires replies(j).Created? && StartsInTime(replies(j).polls, 0)
    ensures LaunchAll(cfg, server, hash, pairs, replies).Success? ==>
      Some(replies(j).id) in LaunchAll(cfg, server, hash, pairs, replies).value
  {
    if LaunchAll(cfg, server, hash, pairs, replies).Success? {
      var outcomes := Launches(cfg, server, hash, pairs, replies);
      var ps := TrackExact(outcomes);
      assert outcomes[j] == Success(Some(replies(j).id));
      assert j in ps;
      var k :| 0 <= k < |ps| && ps[k] == j;
    }
  }

  // ---------------------------------------------------------------------------
  // Completion wait

  /** The job reports an exit status other than -1. */
  predicate Terminal(jobs: map<string, JobState>, id: Option<string>) {
    ExitStatus(jobs, id).Success? && ExitStatus(jobs, id).value != StillRunning
  }

  /** `all(get_container_exit_status(id) != -1 for id in ids)`, evaluated
      left to right and stopping at the first -1; a lookup it reaches that
      fails is raised. */
  function AllExited(jobs: map<string, JobState>, ids: seq<Option<string>>): (r: Result<bool, Fault>)
    ensures r == Success(true) <==> forall k :: 0 <= k < |ids| ==> Terminal(jobs, ids[k])
    ensures r == Success(false) <==>
      exists k :: (0 <= k < |ids| && ExitStatus(jobs, ids[k]) == Success(StillRunning)
                   && forall l :: 0 <= l < k ==> Terminal(jobs, ids[l]))
  {
    if |ids| == 0 then Success(true)
    else
      var status :- ExitStatus(jobs, ids[0]);
      if status == StillRunning then Success(false)
      else
        var rest := AllExited(jobs, ids[1..]);
        assert forall k :: 1 <= k < |ids| ==> ids[1..][k - 1] == ids[k];
        rest
  }

  /** What the check raises is the lookup fault of the first id it reaches
      that the runtime cannot find: every earlier job had exited. */
  lemma {:induction false} AllExitedRaisesLookup(jobs: map<string, JobState>, ids: seq<Option<string>>) returns (k: nat)
    requires AllExited(jobs, ids).Failure?
    ensures k < |ids| && ExitStatus(jobs, ids[k]).Failure?
    ensures AllExited(jobs, ids).error == NoSuchContainer(ids[k])
    ensures forall l :: 0 <= l < k ==> Terminal(jobs, ids[l])
  {
    if ExitStatus(jobs, ids[0]).Failure? {
      k := 0;
    } else {
      assert forall l :: 1 <= l < |ids| ==> ids[1..][l - 1] == ids[l];
      var k' := AllExitedRaisesLookup(jobs, ids[1..]);
      k := k' + 1;
    }
  }

  /** The runtime as seen at one completion poll. */
  datatype Snapshot = Snapshot(elapsed: int, jobs: map<string, JobState>)

  /** Where the wait loop stands at the end of the observed polls. */
  datatype WaitEnd = ExitedAt(index: nat) | StillWaiting

  /** The completion wait from poll `from` on. Past the deadline the loop
      does nothing different: both branches go on polling. */
  function WaitForJobs(snaps: seq<Snapshot>, ids: seq<Option<string>>, from: nat): (r: Result<WaitEnd, Fault>)
    requires from <= |snaps|
    ensures r.Success? && r.value.ExitedAt? ==>
      && from <= r.value.index < |snaps|
      && (forall k :: 0 <= k < |ids| ==> Terminal(snaps[r.value.index].jobs, ids[k]))
      && (forall j :: from <= j < r.value.index ==> AllExited(snaps[j].jobs, ids) == Success(false))
    ensures r == Success(StillWaiting) <==>
      forall j :: from <= j < |snaps| ==> AllExited(snaps[j].jobs, ids) == Success(false)
    decreases |snaps| - from
  {
    if from == |snaps| then Success(StillWaiting)
    else
      var done :- AllExited(snaps[from].jobs, ids);
      if done then Success(ExitedAt(from))
      else if snaps[from].elapsed > CompletionDeadline then WaitForJobs(snaps, ids, from + 1)
      else WaitForJobs(snaps, ids, from + 1)
  }

  /** The wait raises exactly when some poll's lookup raises before any
      poll finds every job exited, and it raises that poll's error. */
  lemma {:induction false} WaitForJobsFails(snaps: seq<Snapshot>, ids: seq<Option<string>>, from: nat)
    requires from <= |snaps|
    ensures WaitForJobs(snaps, ids, from).Failure? <==>
      exists j :: && from <= j < |snaps| && AllExited(snaps[j].jobs, ids).Failure?
                  && forall l :: from <= l < j ==> AllExited(snaps[l].jobs, ids) == Success(false)
    ensures WaitForJobs(snaps, ids, from).Failure? ==>
      exists j :: && from <= j < |snaps| && AllExited(snaps[j].jobs, ids).Failure?
                  && WaitForJobs(snaps, ids, from).error == AllExited(snaps[j].jobs, ids).error
    decreases |snaps| - from
  {
    if from < |snaps| {
      var here := AllExited(snaps[from].jobs, ids);
      if here.Failure? {
        assert WaitForJobs(snaps, ids, from) == Failure(here.error);
      } else if here == Success(true) {
        assert WaitForJobs(snaps, ids, from) == Success(ExitedAt(from));
      } else {
        WaitForJobsFails(snaps, ids, from + 1);
        assert WaitForJobs(snaps, ids, from) == WaitForJobs(snaps, ids, from + 1);
        if WaitForJobs(snaps, ids, from).Failure? {
          var j :| && from + 1 <= j < |snaps| && AllExited(snaps[j].jobs, ids).Failure?
                   && forall l :: from + 1 <= l < j ==> AllExited(snaps[l].jobs, ids) == Success(false);
          assert forall l :: from <= l < j ==> AllExited(snaps[l].jobs, ids) == Success(false);
        } else {
          forall j | from <= j < |snaps| && AllExited(snaps[j].jobs, ids).Failure?
            ensures exists l :: from <= l < j && AllExited(snaps[l].jobs, ids) != Success(false)
          {
            assert j != from;
            var l :| from + 1 <= l < j && AllExited(snaps[l].jobs, ids) != Success(false);
          }
        }
      }
    }
  }

  /** The deadline changes nothing: the wait depends only on the job states. */
  lemma {:induction false} WaitIgnoresDeadline(snaps: seq<Snapshot>, snaps': seq<Snapshot>,
                                               ids: seq<Option<string>>, from: nat)
    requires from <= |snaps| == |snaps'|
    requires forall j :: 0 <= j < |snaps| ==> snaps[j].jobs == snaps'[j].jobs
    ensures WaitForJobs(snaps, ids, from) == WaitForJobs(snaps', ids, from)
    decreases |snaps| - from
  {
    if from < |snaps| {
      var here := AllExited(snaps[from].jobs, ids);
      assert AllExited(snaps'[from].jobs, ids) == here;
      if here.Failure? {
        assert WaitForJobs(snaps, ids, from) == Failure(here.error) == WaitForJobs(snaps', ids, from);
      } else if here == Success(true) {
        assert WaitForJobs(snaps, ids, from) == Success(ExitedAt(from)) == WaitForJobs(snaps', ids, from);
      } else {
        WaitIgnoresDeadline(snaps, snaps', ids, from + 1);
        assert WaitForJobs(snaps, ids, from) == WaitForJobs(snaps, ids, from + 1);
        assert WaitForJobs(snaps', ids, from) == WaitForJobs(snaps', ids, from + 1);
      }
    }
  }

  /** A job that never exits keeps the loop waiting, however long it runs. */
  lemma HungJobBlocksCompletion(snaps: seq<Snapshot>, ids: seq<Option<string>>, k: int)
    requires 0 <= k < |ids|
    requires forall j :: 0 <= j < |snaps| ==> ExitStatus(snaps[j].jobs, ids[k]) == Success(StillRunning)
    ensures !(WaitForJobs(snaps, ids, 0).Success? && WaitForJobs(snaps, ids, 0).value.ExitedAt?)
  {
  }

  // ---------------------------------------------------------------------------
  // Cleanup

  /** The cleanup loop: a job whose exit status is not 0 is left in place, a
      job with 0 is removed; a lookup that fails is raised. */
  function Cleanup(jobs: map<string, JobState>, ids: seq<Option<string>>): (r: Result<map<string, JobState>, Fault>)
    ensures r.Success? ==> r.value.Keys <= jobs.Keys && forall x :: x in r.value ==> r.value[x] == jobs[x]
    ensures r.Success? ==> forall x :: x in jobs && Some(x) !in ids ==> x in r.value
    ensures r.Success? ==> forall k ::
      (0 <= k < |ids| && ExitStatus(jobs, ids[k]).Success? && ExitStatus(jobs, ids[k]).value != 0)
      ==> ids[k].value in r.value
    decreases |ids|
  {
    if |ids| == 0 then Success(jobs)
    else
      var status :- ExitStatus(jobs, ids[0]);
      var next := if status != 0 then jobs else RemoveContainer(jobs, ids[0].value);
      assert forall k :: 1 <= k < |ids| ==> ids[1..][k - 1] == ids[k];
      Cleanup(next, ids[1..])
  }

  /** What cleanup raises is the lookup fault of one of the tracked ids, and
      a tracked None or an id the runtime never knew always raises. */
  lemma {:induction false} CleanupRaisesLookup(jobs: map<string, JobState>, ids: seq<Option<string>>) returns (k: nat)
    requires Cleanup(jobs, ids).Failure?
    ensures k < |ids| && Cleanup(jobs, ids).error == NoSuchContainer(ids[k])
    decreases |ids|
  {
    var status := ExitStatus(jobs, ids[0]);
    if status.Failure? {
      k := 0;
    } else {
      var next := if status.value != 0 then jobs else RemoveContainer(jobs, ids[0].value);
      assert forall l :: 1 <= l < |ids| ==> ids[1..][l - 1] == ids[l];
      var k' := CleanupRaisesLookup(next, ids[1..]);
      k := k' + 1;
    }
  }

  /** Cleanup raises whenever a tracked id is None or unknown to the runtime:
      removals only shrink the set of known ids. */
  lemma {:induction false} CleanupRaisesOnUnknown(jobs: map<string, JobState>, ids: seq<Option<string>>, k: nat)
    requires k < |ids| && (ids[k].None? || ids[k].value !in jobs)
    ensures Cleanup(jobs, ids).Failure?
    decreases |ids|
  {
    var status := ExitStatus(jobs, ids[0]);
    if status.Success? {
      var next := if status.value != 0 then jobs else RemoveContainer(jobs, ids[0].value);
      assert ids[1..][k - 1] == ids[k];
      CleanupRaisesOnUnknown(next, ids[1..], k - 1);
    }
  }

  /** The tracked ids whose job exited with 0. */
  ghost function Succeeded(jobs: map<string, JobState>, ids: seq<Option<string>>): set<string> {
    set k | 0 <= k < |ids| && ExitStatus(jobs, ids[k]) == Success(0) :: ids[k].value
  }

  /** Succeeded, peeled by its first id. */
  lemma SucceededFirst(jobs: map<string, JobState>, ids: seq<Option<string>>)
    requires |ids| > 0 && ids[0].Some?
    ensures Succeeded(jobs, ids)
      == (if ExitStatus(jobs, ids[0]) == Success(0) then {ids[0].value} else {}) + Succeeded(jobs, ids[1..])
  {
  }

  /** Removing a job no later id names does not change what the later ids report. */
  lemma SucceededFrame(jobs: map<string, JobState>, x: string, ids: seq<Option<string>>)
    requires forall k :: 0 <= k < |ids| ==> ids[k] != Some(x)
    ensures Succeeded(RemoveContainer(jobs, x), ids) == Succeeded(jobs, ids)
  {
  }

  /** With distinct known ids, cleanup removes exactly the jobs that exited
      with 0 and leaves everything else as it was. */
  lemma {:induction false} CleanupRemovesExactlySucceeded(jobs: map<string, JobState>, ids: seq<Option<string>>)
    requires forall k :: 0 <= k < |ids| ==> ids[k].Some? && ids[k].value in jobs
    requires forall k, l :: 0 <= k < l < |ids| ==> ids[k] != ids[l]
    ensures Cleanup(jobs, ids) == Success(jobs - Succeeded(jobs, ids))
    decreases |ids|
  {
    if |ids| == 0 {
      assert Succeeded(jobs, ids) == {};
      assert jobs - {} == jobs;
      assert Cleanup(jobs, ids) == Success(jobs);
    } else {
      var x := ids[0].value;
      var rest := ids[1..];
      assert forall k :: 0 <= k < |rest| ==> rest[k] == ids[k + 1];
      var status := ExitStatus(jobs, ids[0]).value;
      SucceededFirst(jobs, ids);
      if status == 0 {
        var next := RemoveContainer(jobs, x);
        assert Cleanup(jobs, ids) == Cleanup(next, rest);
        CleanupRemovesExactlySucceeded(next, rest);
        SucceededFrame(jobs, x, rest);
        assert next == jobs - {x};
        assert jobs - {x} - Succeeded(jobs, rest) == jobs - Succeeded(jobs, ids);
      } else {
        assert Cleanup(jobs, ids) == Cleanup(jobs, rest);
        CleanupRemovesExactlySucceeded(jobs, rest);
        assert Succeeded(jobs, ids) == Succeeded(jobs, rest);
      }
    }
  }

  /** Exit code 0 is removed, exit code 137 is left for inspection, and a
      job the run does not track is not touched. */
  lemma CleanupScenario()
    ensures
      var jobs := map["a" := JobState("exited", 0), "b" := JobState("exited", 137),
                      "c" := JobState("created", 0)];
      Cleanup(jobs, [Some("a"), Some("b")]) == Success(map["b" := jobs["b"], "c" := jobs["c"]])
  {
    var jobs := map["a" := JobState("exited", 0), "b" := JobState("exited", 137),
                    "c" := JobState("created", 0)];
    assert [Some("a"), Some("b")][1..] == [Some("b")];
    assert RemoveContainer(jobs, "a") == map["b" := jobs["b"], "c" := jobs["c"]];
  }

  // ---------------------------------------------------------------------------
  // One run

  /** The runtime a run talks to. */
  datatype Host = Host(
    serverName: string,
    listed: seq<Listed>,
    selfId: Option<string>,
    mountsOf: string -> seq<Mount>,
    replies: nat -> RunReply,
    snapshots: seq<Snapshot>)

  /** How a run ends: nothing eligible; still waiting when the observed
      polls run out; or done waiting at poll `exitAt` and cleaned up. */
  datatype RunOutcome =
    | NothingToBackUp
    | Waiting(tracked: seq<Option<string>>)
    | Finished(tracked: seq<Option<string>>, exitAt: nat, remaining: map<string, JobState>)

  function Run(cfg: Config, host: Host, hash: string -> string): (r: Result<RunOutcome, Fault>)
    requires RepliesClocked(host.replies)
    ensures r == Success(NothingToBackUp)
      <==> EnabledContainers(host.listed, host.selfId, cfg.requireEnable) == Success([])
    ensures r.Success? && r.value.Finished? ==>
      && r.value.exitAt < |host.snapshots|
      && (forall k :: 0 <= k < |r.value.tracked| ==> Terminal(host.snapshots[r.value.exitAt].jobs, r.value.tracked[k]))
      && None !in r.value.tracked
      && r.value.remaining.Keys <= host.snapshots[r.value.exitAt].jobs.Keys
      && (forall x :: x in host.snapshots[r.value.exitAt].jobs && Some(x) !in r.value.tracked
            ==> x in r.value.remaining)
  {
    var containers :- EnabledContainers(host.listed, host.selfId, cfg.requireEnable);
    if containers == [] then Success(NothingToBackUp)
    else
      var tracked :- LaunchAll(cfg, host.serverName, hash, Pairs(containers, host.mountsOf), host.replies);
      var end :- WaitForJobs(host.snapshots, tracked, 0);
      match end
      case StillWaiting => Success(Waiting(tracked))
      case ExitedAt(i) =>
        var remaining :- Cleanup(host.snapshots[i].jobs, tracked);
        Success(Finished(tracked, i, remaining))
  }

  /** A run with something to back up launches, waits and, when every job
      has exited at poll `i` and cleanup goes through, finishes there with
      the tracked ids and what cleanup left. */
  lemma RunFinishes(cfg: Config, host: Host, hash: string -> string, i: nat)
    requires RepliesClocked(host.replies)
    requires EnabledContainers(host.listed, host.selfId, cfg.requireEnable).Success?
    requires EnabledContainers(host.listed, host.selfId, cfg.requireEnable).value != []
    requires var containers := EnabledContainers(host.listed, host.selfId, cfg.requireEnable).value;
      LaunchAll(cfg, host.serverName, hash, Pairs(containers, host.mountsOf), host.replies).Success?
    requires var containers := EnabledContainers(host.listed, host.selfId, cfg.requireEnable).value;
      var tracked := LaunchAll(cfg, host.serverName, hash, Pairs(containers, host.mountsOf), host.replies).value;
      && WaitForJobs(host.snapshots, tracked, 0) == Success(ExitedAt(i))
      && Cleanup(host.snapshots[i].jobs, tracked).Success?
    ensures var containers := EnabledContainers(host.listed, host.selfId, cfg.requireEnable).value;
      var tracked := LaunchAll(cfg, host.serverName, hash, Pairs(containers, host.mountsOf), host.replies).value;
      Run(cfg, host, hash) == Success(Finished(tracked, i, Cleanup(host.snapshots[i].jobs, tracked).value))
  {
  }

  /** A run with something to back up whose wait outlasts the observed polls
      ends waiting on the tracked ids, without cleanup. */
  lemma RunWaits(cfg: Config, host: Host, hash: string -> string)
    requires RepliesClocked(host.replies)
    requires EnabledContainers(host.listed, host.selfId, cfg.requireEnable).Success?
    requires EnabledContainers(host.listed, host.selfId, cfg.requireEnable).value != []
    requires var containers := EnabledContainers(host.listed, host.selfId, cfg.requireEnable).value;
      LaunchAll(cfg, host.serverName, hash, Pairs(containers, host.mountsOf), host.replies).Success?
    requires var containers := EnabledContainers(host.listed, host.selfId, cfg.requireEnable).value;
      var tracked := LaunchAll(cfg, host.serverName, hash, Pairs(containers, host.mountsOf), host.replies).value;
      forall j :: 0 <= j < |host.snapshots| ==> AllExited(host.snapshots[j].jobs, tracked) == Success(false)
    ensures var containers := EnabledContainers(host.listed, host.selfId, cfg.requireEnable).value;
      var tracked := LaunchAll(cfg, host.serverName, hash, Pairs(containers, host.mountsOf), host.replies).value;
      Run(cfg, host, hash) == Success(Waiting(tracked))
  {
  }

  /** An exception in any stage ends the run with that exception: listing
      the containers, the launch loop, the completion wait, and cleanup. */
  lemma RunFails(cfg: Config, host: Host, hash: string -> string)
    requires RepliesClocked(host.replies)
    ensures var found := EnabledContainers(host.listed, host.selfId, cfg.requireEnable);
      found.Failure? ==> Run(cfg, host, hash) == Failure(found.error)
    ensures var found := EnabledContainers(host.listed, host.selfId, cfg.requireEnable);
      found.Success? && found.value != [] ==>
        var launched := LaunchAll(cfg, host.serverName, hash, Pairs(found.value, host.mountsOf), host.replies);
        launched.Failure? ==> Run(cfg, host, hash) == Failure(launched.error)
    ensures var found := EnabledContainers(host.listed, host.selfId, cfg.requireEnable);
      found.Success? && found.value != [] ==>
        var launched := LaunchAll(cfg, host.serverName, hash, Pairs(found.value, host.mountsOf), host.replies);
        launched.Success? ==>
          var end := WaitForJobs(host.snapshots, launched.value, 0);
          end.Failure? ==> Run(cfg, host, hash) == Failure(end.error)
    ensures var found := EnabledContainers(host.listed, host.selfId, cfg.requireEnable);
      found.Success? && found.value != [] ==>
        var launched := LaunchAll(cfg, host.serverName, hash, Pairs(found.value, host.mountsOf), host.replies);
        launched.Success? ==>
          var end := WaitForJobs(host.snapshots, launched.value, 0);
          end.Success? && end.value.ExitedAt? ==>
            var cleaned := Cleanup(host.snapshots[end.value.index].jobs, launched.value);
            cleaned.Failure? ==> Run(cfg, host, hash) == Failure(cleaned.error)
  {
  }

  /** A finished run has removed exactly the jobs that exited with 0, given
      that the runtime never hands out one id twice. */
  lemma RunRemovesExactlySucceeded(cfg: Config, host: Host, hash: string -> string)
    requires RepliesClocked(host.replies)
    requires Run(cfg, host, hash).Success? && Run(cfg, host, hash).value.Finished?
    requires var t := Run(cfg, host, hash).value.tracked;
      forall k, l :: 0 <= k < l < |t| ==> t[k] != t[l]
    ensures var o := Run(cfg, host, hash).value;
      o.remaining == host.snapshots[o.exitAt].jobs - Succeeded(host.snapshots[o.exitAt].jobs, o.tracked)
  {
    var o := Run(cfg, host, hash).value;
    var containers := EnabledContainers(host.listed, host.selfId, cfg.requireEnable).value;
    var tracked := LaunchAll(cfg, host.serverName, hash, Pairs(containers, host.mountsOf), host.replies).value;
    assert WaitForJobs(host.snapshots, tracked, 0) == Success(ExitedAt(o.exitAt));
    assert o.tracked == tracked;
    var jobs := host.snapshots[o.exitAt].jobs;
    assert o.remaining == Cleanup(jobs, tracked).value;
    CleanupRemovesExactlySucceeded(jobs, tracked);
  }

  /** A name conflict on any launch keeps the run from ever reaching
      cleanup: the None it tracks can never report an exit status, so the
      run either raises when the wait loop looks it up or is still waiting. */
  lemma ConflictPreventsCleanup(cfg: Config, host: Host, hash: string -> string, i: nat)
    requires RepliesClocked(host.replies)
    requires EnabledContainers(host.listed, host.selfId, cfg.requireEnable).Success?
    requires i < |Pairs(EnabledContainers(host.listed, host.selfId, cfg.requireEnable).value, host.mountsOf)|
    requires host.replies(i) == Refused(ConflictStatus)
    ensures Run(cfg, host, hash).Failure? || Run(cfg, host, hash).value.Waiting?
  {
    var containers := EnabledContainers(host.listed, host.selfId, cfg.requireEnable).value;
    var pairs := Pairs(containers, host.mountsOf);
    assert containers != [];
    if LaunchAll(cfg, host.serverName, hash, pairs, host.replies).Success? {
      var tracked := LaunchAll(cfg, host.serverName, hash, pairs, host.replies).value;
      ConflictIsTrackedAsNone(cfg, host.serverName, hash, pairs, host.replies, i);
      var k :| 0 <= k < |tracked| && tracked[k] == None;
      var end := WaitForJobs(host.snapshots, tracked, 0);
      if end.Success? {
        assert !end.value.ExitedAt?;
        assert Run(cfg, host, hash) == Success(Waiting(tracked));
      }
    }
  }
}
