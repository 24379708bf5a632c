/** Building one backup job (garrison/__main__.py): the operator's extra
    volumes, the job's name, the values offered to the command template and
    the job's volume mapping. MD5 is the parameter `hash`; only its being a
    function of the source path matters. */
module Jobs {
  import opened Wrappers
  import opened Text
  import opened Collections
  import opened Constants
  import opened Containers

  /** Process-wide configuration read at start-up. */
  datatype Config = Config(image: string, command: string, extraVolumes: string, requireEnable: bool)

  /** A volume-mapping entry: where to mount, and the mode. */
  datatype Bind = Bind(bind: string, mode: string)

  // ---------------------------------------------------------------------------
  // Extra volumes (_get_extra_volumes_for_backup_container)

  /** One comma-separated item `src:dst[:mode]`: empty items are skipped,
      `src:dst` gets mode `rw`, a third field is the mode and any further
      fields are ignored; an item without ':' raises (IndexError). */
  function ExtraVolumeItem(item: string): (r: Result<Option<(string, Bind)>, Fault>)
    ensures r == Success(None) <==> item == ""
    ensures r.Failure? <==> item != "" && ':' !in item
    ensures r.Success? && r.value.Some? ==> ':' !in r.value.value.0 && ':' !in r.value.value.1.bind
  {
    if item == "" then Success(None)
    else
      var parts := Split(item, ':');
      if |parts| == 1 then Failure(MalformedVolumeSpec(item))
      else Success(Some((parts[0], Bind(parts[1], if |parts| == 2 then "rw" else parts[2]))))
  }

  /** The entries of the items, in order; the first bad item raises. */
  function ExtraVolumePairs(items: seq<string>): (r: Result<seq<(string, Bind)>, Fault>)
    ensures r.Failure? <==> exists i :: 0 <= i < |items| && items[i] != "" && ':' !in items[i]
    ensures r.Success? ==> |r.value| <= |items|
    ensures r.Failure? ==> r.error.MalformedVolumeSpec?
  {
    if |items| == 0 then Success([])
    else
      var init := items[..|items| - 1];
      assert forall i :: 0 <= i < |init| ==> init[i] == items[i];
      ExtendPairs(ExtraVolumePairs(init), items[|items| - 1])
  }

  /** One step of the item loop: the entries so far, extended by one item. */
  function ExtendPairs(prior: Result<seq<(string, Bind)>, Fault>, item: string): Result<seq<(string, Bind)>, Fault> {
    var pairs :- prior;
    var entry :- ExtraVolumeItem(item);
    Success(if entry.Some? then pairs + [entry.value] else pairs)
  }

  /** The extra volumes of every job: a repeated source keeps its last entry. */
  function ExtraVolumes(spec: string): (r: Result<map<string, Bind>, Fault>)
    ensures r.Failure? <==> exists item :: item in Split(spec, ',') && item != "" && ':' !in item
    ensures r.Failure? ==> r.error.MalformedVolumeSpec?
  {
    var pairs :- ExtraVolumePairs(Split(spec, ','));
    Success(Collect(pairs))
  }

  /** The entries are exactly those of the non-empty items, in item order:
      `ps[k]` is the item entry `k` was read from. An empty item, as left by
      a trailing or doubled comma, contributes nothing. */
  lemma {:induction false} ExtraVolumePairsExact(items: seq<string>) returns (ps: seq<nat>)
    requires ExtraVolumePairs(items).Success?
    ensures var es := ExtraVolumePairs(items).value;
      && |ps| == |es|
      && Increasing(ps)
      && (forall k :: 0 <= k < |ps| ==> ps[k] < |items| && ExtraVolumeItem(items[ps[k]]) == Success(Some(es[k])))
      && (forall i :: 0 <= i < |items| ==> (i in ps <==> items[i] != ""))
  {
    if |items| == 0 {
      ps := [];
    } else {
      var n := |items| - 1;
      var qs := ExtraVolumePairsExact(items[..n]);
      FilterStep(items, ExtraVolumePairs(items[..n]).value, ExtraVolumePairs(items).value, qs,
                 item => item != "", (item, e) => ExtraVolumeItem(item) == Success(Some(e)));
      ps := if items[n] != "" then qs + [n] else qs;
    }
  }

  /** A fourth and later fields are ignored: `src:dst:mode:more` reads as `src:dst:mode`. */
  lemma ExtraVolumeItemIgnoresExtraFields(src: string, dst: string, mode: string, rest: string)
    requires ':' !in src && ':' !in dst && ':' !in mode
    ensures ExtraVolumeItem(src + ":" + dst + ":" + mode + ":" + rest) == Success(Some((src, Bind(dst, mode))))
  {
    var item := src + ":" + dst + ":" + mode + ":" + rest;
    assert item == src + [':'] + (dst + [':'] + (mode + [':'] + rest));
    assert item[|src|] == ':';
    SplitAtFirst(src, ':', dst + [':'] + (mode + [':'] + rest));
    SplitAtFirst(dst, ':', mode + [':'] + rest);
    SplitAtFirst(mode, ':', rest);
  }

  /** The entries of the items are the entries of all but the last, extended by the last. */
  lemma ExtraVolumePairsUnfold(items: seq<string>)
    requires |items| > 0
    ensures ExtraVolumePairs(items) == ExtendPairs(ExtraVolumePairs(items[..|items| - 1]), items[|items| - 1])
  {
  }

  /** An empty item anywhere among the items changes nothing. */
  lemma {:induction false} EmptyItemIsSkipped(xs: seq<string>, ys: seq<string>)
    ensures ExtraVolumePairs(xs + [""] + ys) == ExtraVolumePairs(xs + ys)
  {
    if |ys| == 0 {
      assert (xs + [""] + ys)[..|xs|] == xs;
      assert xs + ys == xs;
    } else {
      var zs := ys[..|ys| - 1];
      EmptyItemIsSkipped(xs, zs);
      var long, short := xs + [""] + ys, xs + ys;
      assert long[..|long| - 1] == xs + [""] + zs;
      assert short[..|short| - 1] == xs + zs;
      assert long[|long| - 1] == short[|short| - 1];
      ExtraVolumePairsUnfold(long);
      ExtraVolumePairsUnfold(short);
    }
  }

  /** A trailing, leading or doubled comma leaves an empty item, which is
      skipped: the spec reads as if the extra comma were not there. */
  lemma ExtraCommaIsSkipped(xs: seq<string>, ys: seq<string>)
    requires |xs + ys| >= 1
    requires forall i :: 0 <= i < |xs + ys| ==> ',' !in (xs + ys)[i]
    ensures ExtraVolumes(Join(xs + [""] + ys, ',')) == ExtraVolumes(Join(xs + ys, ','))
  {
    var long := xs + [""] + ys;
    forall i | 0 <= i < |long| ensures ',' !in long[i] {
      if i < |xs| {
        assert long[i] == (xs + ys)[i];
      } else if i > |xs| {
        assert long[i] == (xs + ys)[i - 1];
      }
    }
    SplitJoin(long, ',');
    SplitJoin(xs + ys, ',');
    EmptyItemIsSkipped(xs, ys);
  }

  /** No configured extra volumes, no extra mapping entries. */
  lemma EmptySpecYieldsNothing()
    ensures ExtraVolumes("") == Success(map[])
  {
  }

  /** Items that are all empty yield no entries. */
  lemma {:induction false} EmptyItemsYieldNothing(items: seq<string>)
    requires forall i :: 0 <= i < |items| ==> items[i] == ""
    ensures ExtraVolumePairs(items) == Success([])
  {
    if |items| > 0 {
      EmptyItemsYieldNothing(items[..|items| - 1]);
    }
  }

  /** An extra volume as an operator writes it, mode optional. */
  datatype VolumeSpec = VolumeSpec(source: string, target: string, mode: Option<string>)

  /** Fields free of the two separators. */
  ghost predicate Plain(v: VolumeSpec) {
    && ',' !in v.source && ':' !in v.source
    && ',' !in v.target && ':' !in v.target
    && (v.mode.Some? ==> ',' !in v.mode.value && ':' !in v.mode.value)
  }

  function Render(v: VolumeSpec): string {
    match v.mode
    case None => Join([v.source, v.target], ':')
    case Some(mode) => Join([v.source, v.target, mode], ':')
  }

  function RenderAll(specs: seq<VolumeSpec>): (items: seq<string>)
    ensures |items| == |specs|
  {
    seq(|specs|, i requires 0 <= i < |specs| => Render(specs[i]))
  }

  /** The mapping entry an operator means by `v`: mode `rw` unless given. */
  function Binding(v: VolumeSpec): (string, Bind) {
    (v.source, Bind(v.target, v.mode.GetOr("rw")))
  }

  function BindingsOf(specs: seq<VolumeSpec>): (pairs: seq<(string, Bind)>)
    ensures |pairs| == |specs|
  {
    seq(|specs|, i requires 0 <= i < |specs| => Binding(specs[i]))
  }

  lemma RenderedItemParses(v: VolumeSpec)
    requires Plain(v)
    ensures ',' !in Render(v)
    ensures ExtraVolumeItem(Render(v)) == Success(Some(Binding(v)))
  {
    match v.mode
    case None =>
      SplitJoin([v.source, v.target], ':');
      assert Render(v) == v.source + [':'] + v.target;
    case Some(mode) =>
      SplitJoin([v.source, v.target, mode], ':');
      assert [v.source, v.target, mode][1..] == [v.target, mode];
      assert [v.target, mode][1..] == [mode];
      assert Join([v.target, mode], ':') == v.target + [':'] + mode;
      assert Render(v) == v.source + [':'] + Join([v.target, mode], ':');
  }

  /** Items that each yield the binding of the matching spec yield exactly
      those bindings, in order. */
  lemma {:induction false} ItemsYieldBindings(items: seq<string>, specs: seq<VolumeSpec>)
    requires |items| == |specs|
    requires forall i :: 0 <= i < |items| ==> ExtraVolumeItem(items[i]) == Success(Some(Binding(specs[i])))
    ensures ExtraVolumePairs(items) == Success(BindingsOf(specs))
  {
    if |items| > 0 {
      var n := |items| - 1;
      assert forall i :: 0 <= i < n ==> items[..n][i] == items[i] && specs[..n][i] == specs[i];
      ItemsYieldBindings(items[..n], specs[..n]);
      assert BindingsOf(specs) == BindingsOf(specs[..n]) + [Binding(specs[n])];
    }
  }

  lemma RenderedItemsParse(specs: seq<VolumeSpec>)
    requires forall i :: 0 <= i < |specs| ==> Plain(specs[i])
    ensures ExtraVolumePairs(RenderAll(specs)) == Success(BindingsOf(specs))
  {
    var items := RenderAll(specs);
    forall i | 0 <= i < |items| ensures ExtraVolumeItem(items[i]) == Success(Some(Binding(specs[i]))) {
      RenderedItemParses(specs[i]);
    }
    ItemsYieldBindings(items, specs);
  }

  /** Round trip: parsing the rendered items gives, for each source, the
      target and mode (default `rw`) of its last item. */
  lemma ExtraVolumesRoundTrip(specs: seq<VolumeSpec>)
    requires |specs| >= 1
    requires forall i :: 0 <= i < |specs| ==> Plain(specs[i])
    ensures ExtraVolumes(Join(RenderAll(specs), ',')) == Success(Collect(BindingsOf(specs)))
  {
    forall i | 0 <= i < |specs| ensures ',' !in RenderAll(specs)[i] {
      RenderedItemParses(specs[i]);
    }
    SplitJoin(RenderAll(specs), ',');
    RenderedItemsParse(specs);
  }

  /** For a source listed last at `i`, the mapping holds that item's target
      and its mode, `rw` when none was written. */
  lemma ExtraVolumesLastItemWins(specs: seq<VolumeSpec>, i: int)
    requires 0 <= i < |specs|
    requires forall j :: 0 <= j < |specs| ==> Plain(specs[j])
    requires forall j :: i < j < |specs| ==> specs[j].source != specs[i].source
    ensures ExtraVolumes(Join(RenderAll(specs), ',')).Success?
    ensures specs[i].source in ExtraVolumes(Join(RenderAll(specs), ',')).value
    ensures ExtraVolumes(Join(RenderAll(specs), ',')).value[specs[i].source]
         == Bind(specs[i].target, specs[i].mode.GetOr("rw"))
  {
    ExtraVolumesRoundTrip(specs);
    var pairs := BindingsOf(specs);
    assert LastWithKey(pairs, i) by {
      forall j | i < j < |pairs| ensures pairs[j].0 != pairs[i].0 { }
    }
  }

  // ---------------------------------------------------------------------------
  // One job (_trigger_backup)

  /** The job's container name, `garrison_<container id>_<hash of source>`. */
  function JobName(containerId: string, source: string, hash: string -> string): (name: string)
    ensures StartsWith(name, JobPrefix)
  {
    JobPrefix + containerId + "_" + hash(source)
  }

  /** Two job names agree exactly when they are for the same container and
      sources of the same hash (container ids contain no '_'). */
  lemma JobNameIdentifiesJob(id1: string, source1: string, id2: string, source2: string, hash: string -> string)
    requires '_' !in id1 && '_' !in id2
    ensures JobName(id1, source1, hash) == JobName(id2, source2, hash)
      <==> id1 == id2 && hash(source1) == hash(source2)
  {
    var a := id1 + "_" + hash(source1);
    var b := id2 + "_" + hash(source2);
    if JobName(id1, source1, hash) == JobName(id2, source2, hash) {
      assert JobName(id1, source1, hash)[|JobPrefix|..] == a;
      assert JobName(id2, source2, hash)[|JobPrefix|..] == b;
      assert a == b;
      assert a[|id1|] == '_' && forall j :: 0 <= j < |id1| ==> a[j] == id1[j];
      assert b[|id2|] == '_' && forall j :: 0 <= j < |id2| ==> b[j] == id2[j];
      assert IndexOf(a, '_') == |id1|;
      assert IndexOf(b, '_') == |id2|;
      assert id1 == a[..|id1|] == b[..|id2|] == id2;
      assert hash(source1) == a[|id1| + 1..] == b[|id2| + 1..] == hash(source2);
    }
  }

  /** A job container is never itself backed up: its name carries the
      prefix the eligibility filter rejects. */
  lemma JobsAreNeverBackedUp(listed: seq<Listed>, selfId: Option<string>, requireEnabled: bool,
                             containerId: string, source: string, hash: string -> string)
    requires EnabledContainers(listed, selfId, requireEnabled).Success?
    ensures forall c :: c in EnabledContainers(listed, selfId, requireEnabled).value
                    ==> c.name != JobName(containerId, source, hash)
  {
  }

  /** The values offered to the command template. */
  datatype TemplateFields = TemplateFields(
    serverName: string,
    projectName: Option<string>,
    containerName: string,
    volumeName: string,
    volumePath: string)

  /** `volume_name` is the volume's Name, or the source hash when the Name
      is absent or empty; `volume_path` is the destination. */
  function Template(server: string, c: ContainerInfo, v: VolumeInfo, hash: string -> string): (t: TemplateFields)
    ensures t.serverName == server && t.projectName == c.project && t.containerName == c.name
    ensures t.volumePath == v.destination
    ensures v.name.Some? && v.name.value != "" ==> t.volumeName == v.name.value
    ensures v.name.None? || v.name.value == "" ==> t.volumeName == hash(v.source)
  {
    TemplateFields(server, c.project, c.name,
                   if v.name.Some? && v.name.value != "" then v.name.value else hash(v.source),
                   v.destination)
  }

  /** An unnamed volume is called by the same hash in the command as in the
      job's name. */
  lemma UnnamedVolumeSharesJobHash(server: string, c: ContainerInfo, v: VolumeInfo, hash: string -> string)
    requires v.name.None? || v.name == Some("")
    ensures JobName(c.id, v.source, hash) == JobPrefix + c.id + "_" + Template(server, c, v, hash).volumeName
  {
  }

  /** The job's volumes: the target volume's Name (None for a bind mount)
      read-only at its destination, overridden by an extra volume with the
      same key, plus every extra volume. */
  function VolumeMapping(v: VolumeInfo, extra: map<string, Bind>): (m: map<Option<string>, Bind>)
    ensures m.Keys == {v.name} + set k | k in extra :: Some(k)
    ensures forall k :: k in extra ==> m[Some(k)] == extra[k]
    ensures (v.name.None? || v.name.value !in extra) ==> m[v.name] == Bind(v.destination, "ro")
  {
    map[v.name := Bind(v.destination, "ro")] + (map k | k in extra :: Some(k) := extra[k])
  }

  /** What a job is launched with. The command itself is rendered from the
      template fields; the process environment is passed through unmodelled. */
  datatype JobRequest = JobRequest(
    image: string,
    command: string,
    fields: TemplateFields,
    name: string,
    volumes: map<Option<string>, Bind>)

  /** The request for backing up `v` of `c`; a malformed extra-volume spec raises. */
  function Trigger(cfg: Config, server: string, c: ContainerInfo, v: VolumeInfo, hash: string -> string)
    : (r: Result<JobRequest, Fault>)
    ensures r.Failure? <==> ExtraVolumes(cfg.extraVolumes).Failure?
    ensures r.Failure? ==> r.error == ExtraVolumes(cfg.extraVolumes).error
    ensures r.Success? ==> r.value.name == JobName(c.id, v.source, hash) && r.value.image == cfg.image
    ensures r.Success? ==> r.value.volumes == VolumeMapping(v, ExtraVolumes(cfg.extraVolumes).value)
    ensures r.Success? ==> r.value.fields == Template(server, c, v, hash) && r.value.command == cfg.command
  {
    var extra :- ExtraVolumes(cfg.extraVolumes);
    Success(JobRequest(cfg.image, cfg.command, Template(server, c, v, hash),
                       JobName(c.id, v.source, hash), VolumeMapping(v, extra)))
  }
}
