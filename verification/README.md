# garrison backup orchestration, modelled in Dafny

garrison backs up the volumes of running Docker containers. One run:

1. lists the running containers and keeps the eligible ones. It skips its own container, leftover backup jobs (name prefix `garrison_`), containers labelled disabled and, when explicit enabling is required, containers not labelled enabled;
2. picks each container's volumes by its include and exclude labels, with bind mounts only when the container opts in;
3. launches one backup job container per volume, named `garrison_<container id>_<md5 of the source>`, and waits up to 30 seconds for it to leave the `created` state;
4. polls all launched jobs until none reports exit status -1;
5. removes the jobs that exited with 0 and leaves the others for inspection.

The model is functional: every loop of the program is a recursive function, and the Docker daemon is replaced by plain values. Those values are the container list, each container's mounts, the reply to each run request, the statuses polled while a job starts, and a map from container id to state at each completion poll. Python exceptions that a run does not catch are `Failure` values of `Result`.

Files:

- `wrappers.dfy`: `Option` and `Result`.
- `text.dfy`: Python's `str.split`, `str.join`, `startswith` and `removeprefix`.
- `collections.dfy`: building a dict by repeated assignment, and order-preserving filters.
- `constants.dfy`: labels, prefix, timeouts and sentinels.
- `containers.dfy`: eligibility and volume selection (`get_enabled_containers`, `get_included_container_volumes`).
- `lifecycle.dfy`: launching, start-wait, exit status and removal of one job (`run_backup_container`, `get_container_exit_status`, `remove_container`).
- `jobs.dfy`: extra volumes, job name, command fields and volume mapping (`_get_extra_volumes_for_backup_container`, `_trigger_backup`).
- `orchestrator.dfy`: the run itself (`main`).

Behaviours of the code worth knowing, each proved about the model:

- **Returned volume names.** The project prefix is stripped only for matching against the include and exclude labels. The returned volume keeps the runtime's Name, so a compose volume `shop_data` is returned as `shop_data`, not `data` (`Containers.ComposeVolumeScenario`).
- **Mounts without a Name.** Such a mount is matched by its Source path, so an include label can pick out a bind mount by its path (`Containers.BindMountMatchedBySource`).
- **Name collisions.** A name collision (HTTP 409) is not retried. `run_backup_container` returns None, and the launch loop tracks that None. The wait loop then looks up None and raises the lookup fault for it, so such a run never reaches cleanup (`Orchestrator.ConflictPreventsCleanup`, `Orchestrator.AllExitedRaisesLookup`). The TODO about 409 at garrison/containers.py:193 is stale, because the code below it returns None for 409. What stays unhandled is the None the loop then tracks.
- **Completion deadline.** The 120-second deadline of the completion wait does nothing. A job that never exits keeps the run waiting (`Orchestrator.WaitIgnoresDeadline`, `Orchestrator.HungJobBlocksCompletion`). The code marks the overdue case as unhandled (garrison/__main__.py:116).
- **Exclude over include.** A name on both lists is excluded (`Containers.ExcludeWinsOverInclude`).
- **Stray commas in the extra volumes.** An empty item, from a leading, trailing or doubled comma, is skipped, and an item's fourth and later ':' fields are ignored (`Jobs.ExtraCommaIsSkipped`, `Jobs.ExtraVolumeItemIgnoresExtraFields`).
- **An empty include label.** The label is present but holds the empty string. It is kept as a string rather than split, so Python's `name in ""` admits only the empty name (`Containers.EmptyIncludeLabelRejectsNamed`).

## Model

| member | source | states |
|---|---|---|
| Text.Split | garrison/__main__.py:41-44 | `str.split` with a one-character separator gives at least one piece, exactly one iff the separator does not occur, and no piece contains it |
| Text.SplitJoin | garrison/__main__.py:41-44 | splitting the join of separator-free pieces gives the pieces back |
| Text.JoinSplit | garrison/containers.py:123-128 | joining the pieces of a split gives the text back |
| Text.StartsWith | garrison/containers.py:86 | `str.startswith`: the text begins with the prefix |
| Text.RemovePrefix | garrison/containers.py:136 | `str.removeprefix`: with the prefix, prefix plus result is the text; without it, the text is unchanged |
| Collections.Collect | garrison/__main__.py:40-50 | a dict built by assignment has exactly the keys of the pairs, and each key maps to the value of its last pair |
| Containers.EnvEntry | garrison/containers.py:81-84 | an environment entry raises iff it has no '='; the key and value contain no '=' |
| Containers.EnvEntryReadsFirstTwoFields | garrison/containers.py:82 | `A=b` and `A=b=c` both read as key `A`, value `b`: text after a second '=' is dropped |
| Containers.EnvPairs | garrison/containers.py:81-84 | reading the entries succeeds iff every entry has a '=', and the k-th pair is the k-th entry read |
| Containers.EnvPairsRaisesFirstBadEntry | garrison/containers.py:81-84 | a malformed environment raises the IndexError of its first entry without '=', naming that entry, with every earlier entry well formed |
| Containers.Environment | garrison/containers.py:81-84 | building the environment dict fails exactly when some entry has no '=' |
| Containers.EnvironmentKeys | garrison/containers.py:81-84 | the keys of the environment are exactly the keys of its entries |
| Containers.EnvironmentLastEntryWins | garrison/containers.py:81-84 | a key maps to the value of its last entry |
| Containers.Label | garrison/containers.py:79 | `labels.get(key)`: the value when the label is set, None otherwise |
| Containers.LabelOr | garrison/containers.py:91 | `labels.get(key, default)`: the value when the label is set, even when empty, the default otherwise |
| Containers.IsSelf | garrison/containers.py:72 | a container is skipped as the process's own only when the own container was found and the ids agree |
| Containers.Describe | garrison/containers.py:75-85 | describing a container succeeds iff its environment is well formed; it carries over id, name, labels and image, and takes the project from the compose label |
| Containers.DescribeEnvironment | garrison/containers.py:81-84 | a described container's environment is its parsed environment, keyed by exactly the keys of its entries |
| Containers.Admitted | garrison/containers.py:86-104 | the checks after the self check: no job prefix, enable label not `false`, and `true` when enabling is required |
| Containers.AdmittedByEnableLabel | garrison/containers.py:86-104 | admitted iff no job prefix, the enable label is not set to `false`, and, when required, it is set to exactly `true`; a missing label admits only when enabling is not required |
| Containers.Survives | garrison/containers.py:71-105 | a listed container ends up in the result iff it is not the process's own, its environment is well formed and it is admitted |
| Containers.EnabledContainers | garrison/containers.py:66-106 | the run fails iff a container other than its own has a malformed environment; every kept container is not its own, has no job prefix, is not labelled `false`, and is labelled `true` when required |
| Containers.EnabledContainersExact | garrison/containers.py:70-106 | the result is the in-order subsequence of exactly the listed containers that are not its own, describe, and pass the label and prefix tests |
| Containers.EnabledContainersRaisesEnvEntry | garrison/containers.py:70-84 | a failing filter raises the environment error of the first listed container, other than its own, whose environment is malformed; that error is the malformed-entry IndexError |
| Containers.MissingEnableLabelKeeps | garrison/containers.py:91-105 | without required enabling, an unlabelled container that is neither its own nor a job is backed up |
| Containers.EnabledLabelKeeps | garrison/containers.py:96-105 | with required enabling, a container labelled `true` that is neither its own nor a job is backed up |
| Containers.NameListLabel | garrison/containers.py:123-128 | a list label is unset iff absent, kept as text iff empty, and otherwise split at commas into comma-free pieces that join back to the label |
| Containers.Lists | garrison/containers.py:143-149 | `name in l`: list membership, or for the empty text the substring test only the empty name passes |
| Containers.MatchName | garrison/containers.py:133-136 | the match name is the Name, or the Source without one; with a non-empty project, a leading `<project>_` is removed, and a name without that prefix is kept as it is |
| Containers.MatchNameStripsProject | garrison/containers.py:134-136 | `shop_data` in project `shop` is matched as `data` |
| Containers.Selected | garrison/containers.py:137-154 | a mount passes when it is not a bind mount (unless bind mounts are on), is listed by a set include label, and is not listed by a set exclude label |
| Containers.Record | garrison/containers.py:155-162 | a selected mount is returned with its raw Type, Name, Source and Destination |
| Containers.SelectVolumes | garrison/containers.py:131-163 | no more volumes than mounts, and no bind mount unless bind mounts are on |
| Containers.SelectVolumesExact | garrison/containers.py:132-163 | the result is the in-order subsequence of the records of exactly the mounts that pass the bind, include and exclude tests |
| Containers.SelectedIff | garrison/containers.py:137-162 | a mount's record is returned iff the mount passes all three tests |
| Containers.ExcludeWinsOverInclude | garrison/containers.py:143-154 | a name on both the include and the exclude list is not backed up |
| Containers.EmptyIncludeLabelRejectsNamed | garrison/containers.py:123-148 | an empty include label rejects every mount with a non-empty match name |
| Containers.BindMountMatchedBySource | garrison/containers.py:133-148 | a mount without a Name is included by listing its Source path |
| Containers.ComposeVolumeScenario | garrison/containers.py:123-163 | a compose volume and a bind mount, bind mounts off: only the volume is returned, under its unstripped name |
| Lifecycle.AwaitStart | garrison/containers.py:213-222 | the start-wait reports started iff the job leaves `created` before a poll past the 30-second timeout |
| Lifecycle.NeverLeavingCreatedTimesOut | garrison/containers.py:215-221 | a job that stays `created` is given up on |
| Lifecycle.RunBackupContainer | garrison/containers.py:194-224 | 409 returns None, another API error is raised with its status, a job that does not start in time raises ContainerNotStartedException with its name, and otherwise the new id is returned; each case iff its reply |
| Lifecycle.ExitStatus | garrison/containers.py:236-240 | an exit status fails iff the id is None or unknown; it is -1 unless the job has exited, and then its exit code |
| Lifecycle.RemoveContainer | garrison/containers.py:252-259 | removal takes exactly the id out and changes no other job; an unknown id raises nothing and changes nothing |
| Jobs.ExtraVolumeItem | garrison/__main__.py:42-50 | an empty item is skipped, an item without ':' raises, and source and target contain no ':' |
| Jobs.ExtraVolumeItemIgnoresExtraFields | garrison/__main__.py:44-50 | `src:dst:mode:more` reads as source `src`, target `dst`, mode `mode`: fields after the third are ignored |
| Jobs.ExtraVolumePairs | garrison/__main__.py:41-50 | reading the items fails iff some non-empty item has no ':', and the failure is the malformed-spec error |
| Jobs.ExtraVolumePairsExact | garrison/__main__.py:41-50 | the entries are, in order, the readings of exactly the non-empty items |
| Jobs.EmptyItemIsSkipped | garrison/__main__.py:42-43 | an empty item anywhere among the items changes nothing |
| Jobs.ExtraCommaIsSkipped | garrison/__main__.py:41-43 | a leading, trailing or doubled comma in the setting changes nothing |
| Jobs.ExtraVolumes | garrison/__main__.py:39-51 | the extra volumes fail iff some comma-separated item is non-empty and has no ':' |
| Jobs.EmptySpecYieldsNothing | garrison/__main__.py:35-43 | the default empty setting gives no extra volumes |
| Jobs.EmptyItemsYieldNothing | garrison/__main__.py:41-43 | items that are all empty give no entries |
| Jobs.RenderedItemParses | garrison/__main__.py:44-50 | `src:dst` parses to target `dst` with mode `rw`, and `src:dst:mode` to its mode |
| Jobs.RenderedItemsParse | garrison/__main__.py:41-50 | rendered items parse back to their bindings, in order |
| Jobs.ExtraVolumesRoundTrip | garrison/__main__.py:39-51 | parsing the comma-joined rendering of volume specs gives the dict of their bindings |
| Jobs.ExtraVolumesLastItemWins | garrison/__main__.py:47-50 | a source listed more than once keeps the target and mode of its last item |
| Jobs.JobName | garrison/__main__.py:68 | every job name carries the prefix that eligibility rejects |
| Jobs.JobNameIdentifiesJob | garrison/__main__.py:56-68 | two job names agree iff the container ids agree and the sources hash alike |
| Jobs.JobsAreNeverBackedUp | garrison/containers.py:86-90 | no eligible container has a job's name |
| Jobs.Template | garrison/__main__.py:56-64 | the command gets the server, the project, the container name, the volume's destination, and the volume's Name or, when it is missing or empty, the source hash |
| Jobs.UnnamedVolumeSharesJobHash | garrison/__main__.py:56-68 | an unnamed volume is called by the same hash in the command as in the job name |
| Jobs.VolumeMapping | garrison/__main__.py:70-73 | the mapping holds the volume's Name and every extra source; extra entries win; otherwise the volume is mounted read-only at its destination |
| Jobs.Trigger | garrison/__main__.py:54-74 | building a job fails iff the extra-volume setting is malformed, with that error; otherwise the job has the configured image and command, the template fields, the job name and the volume mapping |
| Orchestrator.BindMountsEnabled | garrison/__main__.py:92-94 | bind mounts are included iff the label is exactly `true` |
| Orchestrator.Volumes | garrison/__main__.py:92-98 | a container's volumes are those selected from its mounts, with bind mounts iff its label says `true` |
| Orchestrator.Pairs | garrison/__main__.py:88-99 | every visited pair's volume is one selected for its container |
| Orchestrator.PairsOfOne | garrison/__main__.py:95-107 | a single container's pairs are its selected volumes, each once, in selection order |
| Orchestrator.PairsAppend | garrison/__main__.py:88-107 | the pairs of consecutive runs of containers are the first run's pairs followed by the second's, so containers are visited in listing order, each once |
| Orchestrator.PairsVisitEverySelectedVolume | garrison/__main__.py:88-99 | a pair is visited iff its container is eligible and its volume selected |
| Orchestrator.Attempt | garrison/__main__.py:99-107 | launching one pair raises the malformed-spec error if the extra volumes are malformed, and otherwise is the launch of the job's name |
| Orchestrator.Absorbed | garrison/__main__.py:104 | the one exception the launch loop swallows is ContainerNotStartedException |
| Orchestrator.Fatal | garrison/__main__.py:104-107 | any other exception from a launch ends the run |
| Orchestrator.Launches | garrison/__main__.py:99-107 | there is one launch result per pair |
| Orchestrator.Track | garrison/__main__.py:104-107 | tracking raises iff some launch raised something other than ContainerNotStartedException, and never tracks more ids than launches |
| Orchestrator.TrackExact | garrison/__main__.py:104-107 | the tracked ids are, in order, the results of exactly the launches that were not swallowed |
| Orchestrator.TrackRaisesFirstFatal | garrison/__main__.py:104-107 | tracking raises, unchanged, the exception of the first launch that is not ContainerNotStartedException |
| Orchestrator.LaunchAll | garrison/__main__.py:88-107 | the launch loop never tracks more ids than pairs |
| Orchestrator.LaunchAllFailsIff | garrison/__main__.py:99-107 | the launch loop raises iff some pair's launch raises something other than ContainerNotStartedException |
| Orchestrator.LaunchAllRaisesFirstFatal | garrison/__main__.py:99-107 | the launch loop raises, unchanged, the exception of the first pair whose launch is fatal, so a failing API call ends the run as that same error |
| Orchestrator.ConflictIsTrackedAsNone | garrison/__main__.py:104-107 | a 409 on any launch puts None into the tracked ids |
| Orchestrator.TimeoutDoesNotStopLaunches | garrison/__main__.py:104-107 | a job that does not start stops neither the loop nor later launches, whose ids are tracked |
| Orchestrator.Terminal | garrison/__main__.py:112 | a job is done when its exit status can be read and is not -1 |
| Orchestrator.AllExited | garrison/__main__.py:111-114 | the all-exited test is true iff every tracked job reports a status other than -1, and false iff it reaches a -1 with every job before it terminal |
| Orchestrator.AllExitedRaisesLookup | garrison/__main__.py:111-114 | the all-exited test raises the lookup fault of the first id it reaches that the runtime cannot find, None included, with every earlier job terminal |
| Orchestrator.WaitForJobs | garrison/__main__.py:110-118 | the wait ends at the first poll where every tracked job is terminal; it runs out of polls iff each one saw a job still running |
| Orchestrator.WaitForJobsFails | garrison/__main__.py:110-118 | the wait raises iff some poll's lookup raises before any poll saw every job terminal, and it raises that poll's error |
| Orchestrator.WaitIgnoresDeadline | garrison/__main__.py:115-117 | the wait's outcome depends only on the job states, not on elapsed time |
| Orchestrator.HungJobBlocksCompletion | garrison/__main__.py:111-118 | a job that reports -1 at every poll keeps the wait from ending |
| Orchestrator.Cleanup | garrison/__main__.py:119-126 | cleanup only removes jobs, changes none, keeps every untracked job, and keeps every job with a non-zero exit status |
| Orchestrator.CleanupRaisesLookup | garrison/__main__.py:119-120 | cleanup raises only the lookup fault of one of the tracked ids |
| Orchestrator.CleanupRaisesOnUnknown | garrison/__main__.py:119-120 | cleanup raises whenever a tracked id is None or unknown to the runtime |
| Orchestrator.CleanupRemovesExactlySucceeded | garrison/__main__.py:119-126 | with distinct known ids, cleanup removes exactly the jobs that exited with 0 |
| Orchestrator.CleanupScenario | garrison/__main__.py:119-126 | exit code 0 is removed, 137 is left, and an untracked job is kept |
| Orchestrator.Run | garrison/__main__.py:77-126 | a run does nothing iff no container is eligible; a finished run saw every tracked job terminal, tracked no None, and kept every untracked job |
| Orchestrator.RunFails | garrison/__main__.py:77-126 | an exception while listing containers, in the launch loop, in the completion wait, or in cleanup ends the run with that same exception |
| Orchestrator.RunFinishes | garrison/__main__.py:77-126 | with something to back up, launches that go through, a wait ending at poll i and a cleanup that goes through, the run finishes at i with the tracked ids and what cleanup left |
| Orchestrator.RunWaits | garrison/__main__.py:77-118 | with something to back up and launches that go through, a wait that sees a job running at every poll leaves the run waiting on the tracked ids |
| Orchestrator.RunRemovesExactlySucceeded | garrison/__main__.py:77-126 | a finished run with distinct ids removes exactly the tracked jobs that exited with 0 |
| Orchestrator.ConflictPreventsCleanup | garrison/__main__.py:104-118 | after a 409 on any pair, the run either raises or is still waiting: it never cleans up |

## Left out

- Docker SDK calls are not modelled. The daemon's answers are parameters: the container list, the own container's id, each container's mounts, the run replies and the polled states.
- `get_server_name` is not modelled. The server name is a field of `Host`.
- An APIError other than NotFound while looking up the own container is not modelled.
- The image name is not modelled. `container.image.tags[0]`, and the IndexError it raises for an untagged image, are replaced by a plain `image` field.
- The clocks are not modelled. `time.time()` and `time.sleep` become integer elapsed times carried by each poll, with the requirement that the start-wait clock advances by at least one second per poll. The requirement also asks for at least 32 observed polls (numbered from 0). This costs nothing: poll 31 has seen at least 31 seconds, past the 30-second timeout, so the start-wait never reads a poll after it.
- MD5 is not modelled. It is the parameter `hash`: only its being a function of the source path matters.
- The backup command's text is not rendered. `str.format` and its KeyError on unknown placeholders are left out, and the model keeps the template fields instead.
- Configuration is not read from `os.environ`. It is a `Config` value, and the environment passed through to jobs and `CRON_SCHEDULE` are left out.
- Logging is not modelled.
- The label names live in a constants file that is not part of this model. `constants.dfy` uses stand-in values, and only their being distinct matters.
- A container that disappears between listing and the mount lookup is not modelled. Its NotFound would end the run.
- Orchestrator.WaitForJobs: an unbounded wait is cut to the observed polls. Running out of polls is reported as `StillWaiting`, not as looping forever.
- Orchestrator.Run: cleanup reads the runtime state of the poll at which the wait ended, not a fresh state.
- Lifecycle.ExitStatus: the SDK's NullResource (for None) and NotFound (for an unknown id) are both the single fault `NoSuchContainer`.
- Lifecycle.RemoveContainer: only the NotFound that `remove_container` swallows is modelled. Other API errors during removal are left out.
- Orchestrator.Attempt: when the extra-volume setting is malformed, the contract says only that a malformed-spec error is raised, not which item.
