/** Discovery and selection (garrison/containers.py): which listed containers
    are backed up, and which of their mounts. The runtime's answers are
    plain values: the container list, the id of the container this process
    runs in (if any), and each container's mount list. */
module Containers {
  import opened Wrappers
  import opened Text
  import opened Collections
  import opened Constants

  /** What a run raises, either itself or through the runtime, and does not catch. */
  datatype Fault =
    | MalformedEnvEntry(entry: string)      // IndexError: an environment entry without '='
    | MalformedVolumeSpec(item: string)     // IndexError: an extra-volume item without ':'
    | ApiFailure(status: int)               // an API error other than a name conflict
    | NotStarted(name: string)              // ContainerNotStartedException
    | NoSuchContainer(id: Option<string>)   // lookup of an id the runtime does not know, or of None

  /** A container as the runtime lists it; `env` holds the raw `K=V` entries. */
  datatype Listed = Listed(
    id: string,
    name: string,
    labels: map<string, string>,
    image: string,
    env: seq<string>)

  /** The snapshot a run keeps of an eligible container (ContainerInfo). */
  datatype ContainerInfo = ContainerInfo(
    id: string,
    name: string,
    labels: map<string, string>,
    project: Option<string>,
    image: string,
    environment: map<string, string>)

  /** `labels.get(key)`: the label's value, or `None` when it is not set. */
  function Label(labels: map<string, string>, key: string): (r: Option<string>)
  {
    if key in labels then Some(labels[key]) else None
  }

  /** `labels.get(key, default)`: a set label wins even when it is empty. */
  function LabelOr(labels: map<string, string>, key: string, default: string): (r: string)
  {
    if key in labels then labels[key] else default
  }

  // ---------------------------------------------------------------------------
  // Environment entries

  /** One `K=V` entry read as `item.split("=")[0]: item.split("=")[1]`: the key
      is the text before the first '=', the value the text between the first
      and the second; an entry without '=' raises. */
  function EnvEntry(entry: string): (r: Result<(string, string), Fault>)
    ensures r.Failure? <==> '=' !in entry
    ensures r.Success? ==> '=' !in r.value.0 && '=' !in r.value.1
  {
    var parts := Split(entry, '=');
    if |parts| < 2 then Failure(MalformedEnvEntry(entry)) else Success((parts[0], parts[1]))
  }

  /** Every entry has a '=' to split at. */
  ghost predicate WellFormedEnv(entries: seq<string>) {
    forall i :: 0 <= i < |entries| ==> '=' in entries[i]
  }

  /** The key/value pairs of the entries, in order; the first bad entry raises. */
  function EnvPairs(entries: seq<string>): (r: Result<seq<(string, string)>, Fault>)
    ensures r.Success? <==> WellFormedEnv(entries)
    ensures r.Success? ==> |r.value| == |entries|
    ensures r.Success? ==> forall i :: 0 <= i < |entries| ==> Success(r.value[i]) == EnvEntry(entries[i])
  {
    if |entries| == 0 then Success([])
    else
      var init := entries[..|entries| - 1];
      assert forall i :: 0 <= i < |init| ==> init[i] == entries[i];
      var prior :- EnvPairs(init);
      var last :- EnvEntry(entries[|entries| - 1]);
      Success(prior + [last])
  }

  /** The environment dictionary of a container: a later entry with the same
      key overwrites an earlier one. */
  function Environment(entries: seq<string>): (r: Result<map<string, string>, Fault>)
    ensures r.Success? <==> WellFormedEnv(entries)
  {
    var pairs :- EnvPairs(entries);
    Success(Collect(pairs))
  }

  /** The keys of the environment are exactly the keys of its entries. */
  lemma EnvironmentKeys(entries: seq<string>)
    requires WellFormedEnv(entries)
    ensures Environment(entries).value.Keys == set i | 0 <= i < |entries| :: EnvEntry(entries[i]).value.0
  {
    var pairs := EnvPairs(entries).value;
    assert forall i :: 0 <= i < |entries| ==> pairs[i] == EnvEntry(entries[i]).value;
  }

  /** `A=b` reads as `A: b`, and `A=b=c` also reads as `A: b`. */
  lemma EnvEntryReadsFirstTwoFields(key: string, value: string, tail: string)
    requires '=' !in key && '=' !in value
    ensures EnvEntry(key + "=" + value) == Success((key, value))
    ensures EnvEntry(key + "=" + value + "=" + tail) == Success((key, value))
  {
    assert key + "=" + value == key + ['='] + value;
    SplitAtFirst(key, '=', value);
    SplitWithoutSeparator(value, '=');
    var rest := value + ['='] + tail;
    assert key + "=" + value + "=" + tail == key + ['='] + rest;
    SplitAtFirst(key, '=', rest);
    SplitAtFirst(value, '=', tail);
  }

  /** A key of the environment maps to the value of its last entry. */
  lemma EnvironmentLastEntryWins(entries: seq<string>, i: int)
    requires 0 <= i < |entries|
    requires WellFormedEnv(entries)
    requires forall j :: i < j < |entries| ==> EnvEntry(entries[j]).value.0 != EnvEntry(entries[i]).value.0
    ensures EnvEntry(entries[i]).value.0 in Environment(entries).value
    ensures Environment(entries).value[EnvEntry(entries[i]).value.0] == EnvEntry(entries[i]).value.1
  {
  }

  // ---------------------------------------------------------------------------
  // Eligibility (get_enabled_containers)

  /** The container this process runs in, which a run skips. */
  predicate IsSelf(c: Listed, selfId: Option<string>) {
    selfId.Some? && c.id == selfId.value
  }

  /** The snapshot of a listed container: its compose project and parsed environment. */
  function Describe(c: Listed): (r: Result<ContainerInfo, Fault>)
    ensures r.Success? <==> WellFormedEnv(c.env)
    ensures r.Success? ==> r.value.id == c.id && r.value.name == c.name && r.value.labels == c.labels
    ensures r.Success? ==> r.value.project == Label(c.labels, ProjectLabel) && r.value.image == c.image
  {
    var environment :- Environment(c.env);
    Success(ContainerInfo(c.id, c.name, c.labels, Label(c.labels, ProjectLabel), c.image, environment))
  }

  /** The snapshot's environment is the container's parsed environment. */
  lemma DescribeEnvironment(c: Listed)
    requires WellFormedEnv(c.env)
    ensures Describe(c).value.environment == Environment(c.env).value
    ensures Describe(c).value.environment.Keys == set i | 0 <= i < |c.env| :: EnvEntry(c.env[i]).value.0
  {
    EnvironmentKeys(c.env);
  }

  /** The checks applied after the self check: no left-over backup job, not
      switched off, and switched on when that is required. */
  predicate Admitted(name: string, labels: map<string, string>, requireEnabled: bool) {
    && !StartsWith(name, JobPrefix)
    && LabelOr(labels, EnableLabel, "true") != "false"
    && (!requireEnabled || LabelOr(labels, EnableLabel, "false") == "true")
  }

  /** In terms of the enable label: a container is admitted unless it is a
      left-over job or its label says `false`; when enabling is required,
      only a label saying `true` admits it, and a missing label does not. */
  lemma AdmittedByEnableLabel(name: string, labels: map<string, string>, requireEnabled: bool)
    ensures Admitted(name, labels, requireEnabled) <==>
      && !StartsWith(name, JobPrefix)
      && Label(labels, EnableLabel) != Some("false")
      && (requireEnabled ==> Label(labels, EnableLabel) == Some("true"))
  {
  }

  /** The containers a run backs up, in listing order. Describing a container
      (other than the process's own) whose environment has an entry without
      '=' raises, whatever its labels. */
  function EnabledContainers(listed: seq<Listed>, selfId: Option<string>, requireEnabled: bool)
    : (r: Result<seq<ContainerInfo>, Fault>)
    ensures r.Failure? <==> exists i :: 0 <= i < |listed| && !IsSelf(listed[i], selfId) && !WellFormedEnv(listed[i].env)
    ensures r.Success? ==> |r.value| <= |listed|
    ensures r.Success? ==> forall k :: 0 <= k < |r.value| ==>
      && selfId != Some(r.value[k].id)
      && !StartsWith(r.value[k].name, JobPrefix)
      && Label(r.value[k].labels, EnableLabel) != Some("false")
      && (requireEnabled ==> Label(r.value[k].labels, EnableLabel) == Some("true"))
  {
    if |listed| == 0 then Success([])
    else
      var init := listed[..|listed| - 1];
      var c := listed[|listed| - 1];
      assert forall i :: 0 <= i < |init| ==> init[i] == listed[i];
      UnreadableSplit(listed, selfId);
      var prior :- EnabledContainers(init, selfId, requireEnabled);
      if IsSelf(c, selfId) then Success(prior)
      else
        var info :- Describe(c);
        if Admitted(info.name, info.labels, requireEnabled) then Success(prior + [info]) else Success(prior)
  }

  /** Some container other than the process's own has a malformed
      environment: among all but the last, or the last. */
  lemma UnreadableSplit(listed: seq<Listed>, selfId: Option<string>)
    requires |listed| > 0
    ensures var init := listed[..|listed| - 1];
      var c := listed[|listed| - 1];
      (exists i :: 0 <= i < |listed| && !IsSelf(listed[i], selfId) && !WellFormedEnv(listed[i].env))
      <==> (exists i :: 0 <= i < |init| && !IsSelf(init[i], selfId) && !WellFormedEnv(init[i].env))
           || (!IsSelf(c, selfId) && !WellFormedEnv(c.env))
  {
    var init := listed[..|listed| - 1];
    assert forall i :: 0 <= i < |init| ==> init[i] == listed[i];
  }

  /** Whether the listed container at `i` ends up in the result. */
  ghost predicate Survives(c: Listed, selfId: Option<string>, requireEnabled: bool) {
    !IsSelf(c, selfId) && WellFormedEnv(c.env) && Admitted(c.name, c.labels, requireEnabled)
  }

  /** How the result grows by the last listed container. */
  lemma EnabledContainersLast(listed: seq<Listed>, selfId: Option<string>, requireEnabled: bool)
    requires |listed| > 0
    requires EnabledContainers(listed, selfId, requireEnabled).Success?
    ensures EnabledContainers(listed[..|listed| - 1], selfId, requireEnabled).Success?
    ensures EnabledContainers(listed, selfId, requireEnabled).value
      == EnabledContainers(listed[..|listed| - 1], selfId, requireEnabled).value
         + (if Survives(listed[|listed| - 1], selfId, requireEnabled)
            then [Describe(listed[|listed| - 1]).value] else [])
  {
  }

  /** The result lists, in listing order, the descriptions of exactly the
      containers that pass every check; `ps` are their listing positions. */
  lemma {:induction false} EnabledContainersExact(listed: seq<Listed>, selfId: Option<string>, requireEnabled: bool)
    returns (ps: seq<nat>)
    requires EnabledContainers(listed, selfId, requireEnabled).Success?
    ensures var r := EnabledContainers(listed, selfId, requireEnabled).value;
      && |ps| == |r|
      && Increasing(ps)
      && (forall k :: 0 <= k < |ps| ==> ps[k] < |listed| && Describe(listed[ps[k]]) == Success(r[k]))
      && (forall i :: 0 <= i < |listed| ==> (i in ps <==> Survives(listed[i], selfId, requireEnabled)))
  {
    if |listed| == 0 {
      ps := [];
    } else {
      var n := |listed| - 1;
      EnabledContainersLast(listed, selfId, requireEnabled);
      var prior := EnabledContainers(listed[..n], selfId, requireEnabled).value;
      var out := EnabledContainers(listed, selfId, requireEnabled).value;
      var qs := EnabledContainersExact(listed[..n], selfId, requireEnabled);
      ps := EnabledContainersStep(listed, selfId, requireEnabled, prior, out, qs);
    }
  }

  /** The step of `EnabledContainersExact` from all but the last container
      (result `prior`, positions `qs`) to all of them (result `out`). */
  lemma EnabledContainersStep(listed: seq<Listed>, selfId: Option<string>, requireEnabled: bool,
                              prior: seq<ContainerInfo>, out: seq<ContainerInfo>, qs: seq<nat>)
    returns (ps: seq<nat>)
    requires |listed| > 0
    requires out == prior + (if Survives(listed[|listed| - 1], selfId, requireEnabled)
                             then [Describe(listed[|listed| - 1]).value] else [])
    requires var init := listed[..|listed| - 1];
      && |qs| == |prior|
      && Increasing(qs)
      && (forall k :: 0 <= k < |qs| ==> qs[k] < |init| && Describe(init[qs[k]]) == Success(prior[k]))
      && (forall i :: 0 <= i < |init| ==> (i in qs <==> Survives(init[i], selfId, requireEnabled)))
    ensures |ps| == |out|
      && Increasing(ps)
      && (forall k :: 0 <= k < |ps| ==> ps[k] < |listed| && Describe(listed[ps[k]]) == Success(out[k]))
      && (forall i :: 0 <= i < |listed| ==> (i in ps <==> Survives(listed[i], selfId, requireEnabled)))
  {
    var n := |listed| - 1;
    IncreasingSnoc(qs, n);
    ps := if Survives(listed[n], selfId, requireEnabled) then qs + [n] else qs;
    EnabledContainersStepValues(listed, selfId, requireEnabled, prior, out, qs, ps);
    EnabledContainersStepMembers(listed, selfId, requireEnabled, qs, ps);
  }

  /** The values half of `EnabledContainersStep`. */
  lemma EnabledContainersStepValues(listed: seq<Listed>, selfId: Option<string>, requireEnabled: bool,
                                    prior: seq<ContainerInfo>, out: seq<ContainerInfo>, qs: seq<nat>, ps: seq<nat>)
    requires |listed| > 0
    requires out == prior + (if Survives(listed[|listed| - 1], selfId, requireEnabled)
                             then [Describe(listed[|listed| - 1]).value] else [])
    requires ps == if Survives(listed[|listed| - 1], selfId, requireEnabled) then qs + [|listed| - 1] else qs
    requires var init := listed[..|listed| - 1];
      && |qs| == |prior|
      && (forall k :: 0 <= k < |qs| ==> qs[k] < |init| && Describe(init[qs[k]]) == Success(prior[k]))
    ensures |ps| == |out|
    ensures forall k :: 0 <= k < |ps| ==> ps[k] < |listed| && Describe(listed[ps[k]]) == Success(out[k])
  {
    var n := |listed| - 1;
    var init := listed[..n];
    forall k | 0 <= k < |ps| ensures ps[k] < |listed| && Describe(listed[ps[k]]) == Success(out[k]) {
      if k < |qs| {
        assert out[k] == prior[k];
        assert init[qs[k]] == listed[qs[k]];
      }
    }
  }

  /** The membership half of `EnabledContainersStep`. */
  lemma EnabledContainersStepMembers(listed: seq<Listed>, selfId: Option<string>, requireEnabled: bool,
                                     qs: seq<nat>, ps: seq<nat>)
    requires |listed| > 0
    requires |listed| - 1 !in qs
    requires ps == if Survives(listed[|listed| - 1], selfId, requireEnabled) then qs + [|listed| - 1] else qs
    requires var init := listed[..|listed| - 1];
      forall i :: 0 <= i < |init| ==> (i in qs <==> Survives(init[i], selfId, requireEnabled))
    ensures forall i :: 0 <= i < |listed| ==> (i in ps <==> Survives(listed[i], selfId, requireEnabled))
  {
    var n := |listed| - 1;
    var init := listed[..n];
    forall i | 0 <= i < |listed| ensures i in ps <==> Survives(listed[i], selfId, requireEnabled) {
      if i < n {
        assert i in ps <==> i in qs;
        assert init[i] == listed[i];
      }
    }
  }

  /** Without `requireEnabled`, a container with no enable label that is
      neither the process's own nor a backup job is backed up. */
  lemma MissingEnableLabelKeeps(listed: seq<Listed>, selfId: Option<string>, i: int)
    requires 0 <= i < |listed|
    requires EnabledContainers(listed, selfId, false).Success?
    requires !IsSelf(listed[i], selfId) && !StartsWith(listed[i].name, JobPrefix)
    requires EnableLabel !in listed[i].labels
    ensures Describe(listed[i]).Success?
    ensures Describe(listed[i]).value in EnabledContainers(listed, selfId, false).value
  {
    var ps := EnabledContainersExact(listed, selfId, false);
    assert i in ps;
    var k :| 0 <= k < |ps| && ps[k] == i;
  }

  /** With `requireEnabled`, a container labelled exactly `"true"` that is
      neither the process's own nor a backup job is backed up. */
  lemma EnabledLabelKeeps(listed: seq<Listed>, selfId: Option<string>, i: int)
    requires 0 <= i < |listed|
    requires EnabledContainers(listed, selfId, true).Success?
    requires !IsSelf(listed[i], selfId) && !StartsWith(listed[i].name, JobPrefix)
    requires Label(listed[i].labels, EnableLabel) == Some("true")
    ensures Describe(listed[i]).Success?
    ensures Describe(listed[i]).value in EnabledContainers(listed, selfId, true).value
  {
    var ps := EnabledContainersExact(listed, selfId, true);
    assert i in ps;
    var k :| 0 <= k < |ps| && ps[k] == i;
  }

  /** What a malformed environment raises is the IndexError of its first
      entry without '=', naming that entry. */
  lemma {:induction false} EnvPairsRaisesFirstBadEntry(entries: seq<string>) returns (i: nat)
    requires EnvPairs(entries).Failure?
    ensures i < |entries| && '=' !in entries[i]
    ensures EnvPairs(entries).error == MalformedEnvEntry(entries[i])
    ensures forall j :: 0 <= j < i ==> '=' in entries[j]
  {
    var n := |entries| - 1;
    var init := entries[..n];
    assert forall j :: 0 <= j < n ==> init[j] == entries[j];
    if EnvPairs(init).Failure? {
      i := EnvPairsRaisesFirstBadEntry(init);
    } else {
      i := n;
    }
  }

  /** What the filter raises is the IndexError of the first listed container,
      other than the process's own, whose environment is malformed. */
  lemma {:induction false} EnabledContainersRaisesEnvEntry(listed: seq<Listed>, selfId: Option<string>, requireEnabled: bool)
    returns (i: nat)
    requires EnabledContainers(listed, selfId, requireEnabled).Failure?
    ensures i < |listed| && !IsSelf(listed[i], selfId) && !WellFormedEnv(listed[i].env)
    ensures EnabledContainers(listed, selfId, requireEnabled).error == EnvPairs(listed[i].env).error
    ensures EnabledContainers(listed, selfId, requireEnabled).error.MalformedEnvEntry?
    ensures forall j :: 0 <= j < i ==> IsSelf(listed[j], selfId) || WellFormedEnv(listed[j].env)
  {
    var n := |listed| - 1;
    var init := listed[..n];
    assert forall j :: 0 <= j < n ==> init[j] == listed[j];
    if EnabledContainers(init, selfId, requireEnabled).Failure? {
      i := EnabledContainersRaisesEnvEntry(init, selfId, requireEnabled);
    } else {
      i := n;
      var _ := EnvPairsRaisesFirstBadEntry(listed[n].env);
    }
  }

  // ---------------------------------------------------------------------------
  // Volume selection (get_included_container_volumes)

  /** A mount as the runtime reports it; `name` is absent for bind mounts. */
  datatype Mount = Mount(kind: string, name: Option<string>, source: string, destination: string)

  /** A selected volume (VolumeInfo), built from the mount's raw fields. */
  datatype VolumeInfo = VolumeInfo(kind: string, name: Option<string>, source: string, destination: string)

  /** An include or exclude label as the selector holds it: absent, present
      but empty (kept as the string `""`, so that membership becomes the
      substring test `name in ""`), or split at commas. */
  datatype NameList = Unset | EmptyText | Names(names: seq<string>)

  function NameListLabel(labels: map<string, string>, key: string): (l: NameList)
    ensures l.Unset? <==> key !in labels
    ensures l.EmptyText? <==> key in labels && labels[key] == ""
    ensures l.Names? ==> |l.names| >= 1 && Join(l.names, ',') == labels[key]
    ensures l.Names? ==> forall i :: 0 <= i < |l.names| ==> ',' !in l.names[i]
  {
    if key !in labels then Unset
    else if labels[key] == "" then EmptyText
    else
      JoinSplit(labels[key], ',');
      Names(Split(labels[key], ','))
  }

  /** Python's `name in l`: list membership, or for the empty text the
      substring test, which only the empty name passes. */
  predicate Lists(l: NameList, name: string)
    requires !l.Unset?
  {
    match l
    case EmptyText => name == ""
    case Names(names) => name in names
  }

  /** The name a mount is matched by: its Name, or its Source when it has
      none, with `<project>_` removed when the container has a non-empty
      compose project. */
  function MatchName(project: Option<string>, m: Mount): (n: string)
    ensures project.None? || project.value == "" ==> n == m.name.GetOr(m.source)
    ensures project.Some? && project.value != "" && StartsWith(m.name.GetOr(m.source), project.value + "_")
      ==> project.value + "_" + n == m.name.GetOr(m.source)
    ensures project.Some? && project.value != "" && !StartsWith(m.name.GetOr(m.source), project.value + "_")
      ==> n == m.name.GetOr(m.source)
  {
    var base := m.name.GetOr(m.source);
    if project.Some? && project.value != "" then RemovePrefix(base, project.value + "_") else base
  }

  /** The selector's test for one mount. */
  predicate Selected(c: ContainerInfo, m: Mount, includeBind: bool) {
    var name := MatchName(c.project, m);
    var included := NameListLabel(c.labels, VolumeIncludeLabel);
    var excluded := NameListLabel(c.labels, VolumeExcludeLabel);
    && (includeBind || m.kind != "bind")
    && (included.Unset? || Lists(included, name))
    && (excluded.Unset? || !Lists(excluded, name))
  }

  /** The record returned for a selected mount: raw Type, Name, Source, Destination. */
  function Record(m: Mount): (v: VolumeInfo)
    ensures v.kind == m.kind && v.name == m.name && v.source == m.source && v.destination == m.destination
  {
    VolumeInfo(m.kind, m.name, m.source, m.destination)
  }

  /** The volumes of a container to back up, in mount order. */
  function SelectVolumes(c: ContainerInfo, mounts: seq<Mount>, includeBind: bool): (vs: seq<VolumeInfo>)
    ensures |vs| <= |mounts|
    ensures !includeBind ==> forall k :: 0 <= k < |vs| ==> vs[k].kind != "bind"
  {
    if |mounts| == 0 then []
    else
      var m := mounts[|mounts| - 1];
      var prior := SelectVolumes(c, mounts[..|mounts| - 1], includeBind);
      if Selected(c, m, includeBind) then prior + [Record(m)] else prior
  }

  /** The result is the in-order subsequence of records of exactly the
      selected mounts; `ps` are their positions among the mounts. */
  lemma {:induction false} SelectVolumesExact(c: ContainerInfo, mounts: seq<Mount>, includeBind: bool)
    returns (ps: seq<nat>)
    ensures var vs := SelectVolumes(c, mounts, includeBind);
      && |ps| == |vs|
      && Increasing(ps)
      && (forall k :: 0 <= k < |ps| ==> ps[k] < |mounts| && vs[k] == Record(mounts[ps[k]]))
      && (forall i :: 0 <= i < |mounts| ==> (i in ps <==> Selected(c, mounts[i], includeBind)))
  {
    if |mounts| == 0 {
      ps := [];
    } else {
      var n := |mounts| - 1;
      var qs := SelectVolumesExact(c, mounts[..n], includeBind);
      FilterStep(mounts, SelectVolumes(c, mounts[..n], includeBind), SelectVolumes(c, mounts, includeBind), qs,
                 m => Selected(c, m, includeBind), (m, v) => v == Record(m));
      ps := if Selected(c, mounts[n], includeBind) then qs + [n] else qs;
    }
  }

  /** A mount's record is returned if and only if the mount passes the test. */
  lemma SelectedIff(c: ContainerInfo, mounts: seq<Mount>, includeBind: bool, m: Mount)
    requires m in mounts
    ensures Record(m) in SelectVolumes(c, mounts, includeBind) <==> Selected(c, m, includeBind)
  {
    var ps := SelectVolumesExact(c, mounts, includeBind);
    var vs := SelectVolumes(c, mounts, includeBind);
    var i :| 0 <= i < |mounts| && mounts[i] == m;
    if Selected(c, m, includeBind) {
      assert i in ps;
      var k :| 0 <= k < |ps| && ps[k] == i;
      assert vs[k] == Record(m);
    }
    if Record(m) in vs {
      var k :| 0 <= k < |vs| && vs[k] == Record(m);
      assert mounts[ps[k]] == m;
    }
  }

  /** A name on both lists is excluded: the exclude list wins. */
  lemma ExcludeWinsOverInclude(c: ContainerInfo, mounts: seq<Mount>, includeBind: bool, m: Mount)
    requires m in mounts
    requires VolumeIncludeLabel in c.labels && VolumeExcludeLabel in c.labels
    requires Lists(NameListLabel(c.labels, VolumeIncludeLabel), MatchName(c.project, m))
    requires Lists(NameListLabel(c.labels, VolumeExcludeLabel), MatchName(c.project, m))
    ensures Record(m) !in SelectVolumes(c, mounts, includeBind)
  {
    SelectedIff(c, mounts, includeBind, m);
  }

  /** A present but empty include label rejects every mount whose match
      name is not empty. */
  lemma EmptyIncludeLabelRejectsNamed(c: ContainerInfo, mounts: seq<Mount>, includeBind: bool, m: Mount)
    requires m in mounts
    requires VolumeIncludeLabel in c.labels && c.labels[VolumeIncludeLabel] == ""
    requires MatchName(c.project, m) != ""
    ensures Record(m) !in SelectVolumes(c, mounts, includeBind)
  {
    SelectedIff(c, mounts, includeBind, m);
  }

  /** A mount without a Name is matched by its Source path, so a bind mount
      can be picked out by listing that path. */
  lemma BindMountMatchedBySource(c: ContainerInfo, mounts: seq<Mount>, m: Mount)
    requires m in mounts && m.name.None? && c.project.None?
    requires VolumeExcludeLabel !in c.labels
    requires VolumeIncludeLabel in c.labels && c.labels[VolumeIncludeLabel] == m.source && m.source != ""
    requires ',' !in m.source
    ensures Record(m) in SelectVolumes(c, mounts, true)
  {
  }

  /** A compose project's prefix is stripped for matching: `shop_data`
      matches as `data` in project `shop`. */
  lemma MatchNameStripsProject(project: string, rest: string, m: Mount)
    requires project != ""
    requires m.name == Some(project + "_" + rest)
    ensures MatchName(Some(project), m) == rest
  {
  }

  /** A compose volume `shop_data` and a bind mount of a container in project
      `shop`, bind mounts off: only the volume is returned, under its
      unstripped name. */
  lemma ComposeVolumeScenario()
    ensures
      var c := ContainerInfo("c0", "web", map[EnableLabel := "true", ProjectLabel := "shop"],
                             Some("shop"), "img", map[]);
      var data := Mount("volume", Some("shop_data"), "/var/lib/docker/volumes/shop_data/_data", "/data");
      var conf := Mount("bind", None, "/etc/conf", "/conf");
      SelectVolumes(c, [data, conf], false) == [VolumeInfo("volume", Some("shop_data"), data.source, "/data")]
  {
  }
}
