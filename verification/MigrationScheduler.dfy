/** Migration tasks: validation, their state machine, the concurrency limit and the load hysteresis. */
module MigrationScheduler {
  import opened Bytes
  import opened Options
  import opened LoadBalancer

  const RESOLVE_LIMIT: nat := 1024

  datatype TaskState = Pending | Running | PausedByLoad | Completed | Failed

  datatype Kind = ColdData | HotData | VolumeGrow

  datatype Reason = LoadAbove(threshold: real) | Canceled(was: TaskState)

  datatype Task = Task(id: nat, kind: Kind, state: TaskState, progress: real, migrated: nat, total: nat,
                       reason: Option<Reason>)

  datatype Source = FromVolume(volume: nat) | FromNode(node: string)

  datatype Limits = Limits(maxConcurrent: nat, pause: real, resume: real)

  datatype Rejection = HasActiveLease | VolumeFull | NodeInMaintenance

  datatype ManageError = NotFound | InvalidState | Dispatch

  datatype Result<T, E> = Ok(value: T) | Err(error: E)

  /** What the service side answers during one call. */
  datatype Executor = Executor(coldNeedles: (nat, nat) -> seq<nat>, canMigrate: (nat, nat) -> bool,
                               volumesOnNode: string -> seq<nat>, start: (Action, nat) -> bool)

  // ---------- validation ----------

  function GetVolume(volumes: seq<VolumeRuntime>, id: nat): (r: Option<VolumeRuntime>)
    ensures r.Some? ==> r.value in volumes && r.value.id == id
    ensures r.None? ==> forall v :: v in volumes ==> v.id != id
  {
    if volumes == [] then None
    else
      assert volumes == [volumes[0]] + volumes[1..];
      if volumes[0].id == id then Some(volumes[0]) else GetVolume(volumes[1..], id)
  }

  function GetNode(nodes: seq<NodeRuntime>, id: string): (r: Option<NodeRuntime>)
    ensures r.Some? ==> r.value in nodes && r.value.id == id
    ensures r.None? ==> forall n :: n in nodes ==> n.id != id
  {
    if nodes == [] then None
    else
      assert nodes == [nodes[0]] + nodes[1..];
      if nodes[0].id == id then Some(nodes[0]) else GetNode(nodes[1..], id)
  }

  function Migratable(ex: Executor, volume: nat, needles: seq<nat>): (r: seq<nat>)
    ensures forall n :: n in r <==> n in needles && ex.canMigrate(volume, n)
  {
    if needles == [] then []
    else
      assert needles == [needles[0]] + needles[1..];
      (if ex.canMigrate(volume, needles[0]) then [needles[0]] else []) + Migratable(ex, volume, needles[1..])
  }

  function Needles(ex: Executor, a: Action): seq<nat>
    requires a.MigrateCold?
  {
    Migratable(ex, a.fromVolume, if a.needles != [] then a.needles else ex.coldNeedles(a.fromVolume, RESOLVE_LIMIT))
  }

  function HotVolumes(ex: Executor, a: Action): seq<nat>
    requires a.MigrateHot?
  {
    if a.volumes != [] then a.volumes else ex.volumesOnNode(a.fromNode)
  }

  /** The action with its needles or volumes resolved, or why it cannot be carried out. */
  function Validate(s: Snapshot, p: Policy, ex: Executor, a: Action): Result<Action, Rejection> {
    match a
    case MigrateCold(from, to, _) =>
      var target := GetVolume(s.volumes, to);
      if target.None? || target.value.state != Active || Usage(target.value) >= p.nearFullExclude then Err(VolumeFull)
      else
        var node := GetNode(s.nodes, target.value.node);
        if node.None? || Maintained(node.value) then Err(NodeInMaintenance)
        else
          var resolved := Needles(ex, a);
          if resolved == [] then Err(HasActiveLease) else Ok(MigrateCold(from, to, resolved))
    case MigrateHot(from, to, _) =>
      var node := GetNode(s.nodes, to);
      if node.None? || Maintained(node.value) then Err(NodeInMaintenance)
      else
        var resolved := HotVolumes(ex, a);
        if resolved == [] then Err(HasActiveLease) else Ok(MigrateHot(from, to, resolved))
    case Grow(_, _) => Ok(a)
  }

  ghost predicate UniqueIds(s: Snapshot) {
    && (forall u, v :: u in s.volumes && v in s.volumes && u.id == v.id ==> u == v)
    && (forall m, n :: m in s.nodes && n in s.nodes && m.id == n.id ==> m == n)
  }

  /** What validation refuses, of any action whoever made it: a target that is unknown, not active or used up to the
      exclusion ratio; then a target node that is unknown or in maintenance; then a move with nothing to move.  What
      it lets pass keeps both ends, and moves exactly those requested needles that may move. */
  lemma Verdicts(s: Snapshot, p: Policy, ex: Executor, a: Action)
    requires UniqueIds(s)
    ensures a.MigrateCold? ==>
              var r := Validate(s, p, ex, a);
              && (r == Err(VolumeFull) <==> forall v :: v in s.volumes && v.id == a.toVolume ==> !Roomy(p, v))
              && (r == Err(NodeInMaintenance) <==>
                  exists v :: v in s.volumes && v.id == a.toVolume && Roomy(p, v) && !Serving(s, v.node))
              && (r.Ok? ==> r.value.MigrateCold? && r.value.fromVolume == a.fromVolume &&
                            r.value.toVolume == a.toVolume && r.value.needles != [] &&
                            var asked := if a.needles == [] then ex.coldNeedles(a.fromVolume, 1024) else a.needles;
                            forall n :: n in r.value.needles <==> n in asked && ex.canMigrate(a.fromVolume, n))
    ensures a.MigrateHot? ==>
              var r := Validate(s, p, ex, a);
              var asked := if a.volumes == [] then ex.volumesOnNode(a.fromNode) else a.volumes;
              r == if !Serving(s, a.toNode) then Err(NodeInMaintenance)
                   else if asked == [] then Err(HasActiveLease) else Ok(MigrateHot(a.fromNode, a.toNode, asked))
  {
    hide Usage, UsedBelow;
    if a.MigrateCold? {
      var target := GetVolume(s.volumes, a.toVolume);
      if target.Some? {
        UsageMeans(target.value, p.nearFullExclude);
        NodeServes(s, target.value.node);
      }
    } else if a.MigrateHot? {
      NodeServes(s, a.toNode);
    }
  }

  predicate Roomy(p: Policy, v: VolumeRuntime) {
    v.state == Active && UsedBelow(v, p.nearFullExclude)
  }

  predicate Serving(s: Snapshot, node: string) {
    exists n :: n in s.nodes && n.id == node && n.state != Maintenance && !n.inMaintenance
  }

  lemma NodeServes(s: Snapshot, node: string)
    requires UniqueIds(s)
    ensures Serving(s, node) <==> GetNode(s.nodes, node).Some? && !Maintained(GetNode(s.nodes, node).value)
  {}

  /** A decided cold or drain action is turned away as full exactly when its target is already past the
      exclusion ratio, as in maintenance exactly when the target's node is not in the snapshot, and otherwise
      only for want of a needle that may move. */
  lemma ColdRejections(s: Snapshot, p: Policy, size: nat, ex: Executor, a: Action)
    requires UniqueIds(s) && a in Decision(s, p, size) && a.MigrateCold?
    ensures var target := GetVolume(s.volumes, a.toVolume);
            && target.Some?
            && Validate(s, p, ex, a) ==
                 if Usage(target.value) >= p.nearFullExclude then Err(VolumeFull)
                 else if forall n :: n in s.nodes ==> n.id != target.value.node then Err(NodeInMaintenance)
                 else if Needles(ex, a) == [] then Err(HasActiveLease)
                 else Ok(MigrateCold(a.fromVolume, a.toVolume, Needles(ex, a)))
  {
    hide Usage, Decision, Needles;
    var source, target := ColdActionsAre(s, p, size, a);
    assert GetVolume(s.volumes, a.toVolume) == Some(target);
    var node := GetNode(s.nodes, target.node);
    if node.Some? {
      assert !Maintained(node.value);
    }
  }

  /** So with thresholds in order and every volume's node in the snapshot, decision and validation agree. */
  lemma DecisionsValidate(s: Snapshot, p: Policy, size: nat, ex: Executor, a: Action)
    requires UniqueIds(s) && p.fullThreshold <= p.nearFullExclude && a in Decision(s, p, size) && a.MigrateCold?
    requires forall v :: v in s.volumes ==> exists n :: n in s.nodes && n.id == v.node
    ensures Validate(s, p, ex, a).Ok? || Validate(s, p, ex, a) == Err(HasActiveLease)
  {
    hide Decision, Needles, Usage, Validate;
    ColdRejections(s, p, size, ex, a);
    var source, target := ColdActionsAre(s, p, size, a);
    assert GetVolume(s.volumes, a.toVolume) == Some(target);
    var n :| n in s.nodes && n.id == target.node;
  }

  lemma HotValidates(s: Snapshot, p: Policy, size: nat, ex: Executor, a: Action)
    requires UniqueIds(s) && a in Decision(s, p, size) && a.MigrateHot?
    ensures Validate(s, p, ex, a) == if HotVolumes(ex, a) == [] then Err(HasActiveLease)
                                     else Ok(MigrateHot(a.fromNode, a.toNode, HotVolumes(ex, a)))
  {
    HotActionIs(s, p, size, a);
    hide Decision, HotAction;
    var n :| n in s.nodes && Available(n) && n.id == a.toNode;
    assert GetNode(s.nodes, a.toNode) == Some(n);
  }

  /** A pinned active volume gets into a carried-out hot migration exactly when the decision named no volume at
      all and the service side, asked instead, names a pinned one. */
  lemma HotPins(s: Snapshot, p: Policy, size: nat, ex: Executor, a: Action, v: VolumeRuntime)
    requires UniqueIds(s) && a in Decision(s, p, size) && a.MigrateHot?
    requires v in s.volumes && v.state == Active && v.id in s.pinned
    ensures Validate(s, p, ex, a).Ok? && v.id in Validate(s, p, ex, a).value.volumes <==>
            a.volumes == [] && v.id in ex.volumesOnNode(a.fromNode)
  {
    HotValidates(s, p, size, ex, a);
    PinsHold(s, p, size, a, v);
  }

  /** It does happen: two nodes, one pinned volume on the busy one. */
  lemma PinnedVolumeMoves()
    ensures var v := VolumeRuntime(1, "a", 0, 10, 1, Active, 0);
            var s := Snapshot([v], [NodeRuntime("a", Healthy, 0.9, false), NodeRuntime("b", Healthy, 0.1, false)], 0.5,
                              {1});
            var p := Policy(0.85, 0.9, 2.0, 10);
            var ex := Executor((volume, limit) => [], (volume, needle) => true, node => [1], (a, id) => true);
            var a := MigrateHot("a", "b", []);
            a in Decision(s, p, 100) && Validate(s, p, ex, a) == Ok(MigrateHot("a", "b", [1]))
  {
    var v := VolumeRuntime(1, "a", 0, 10, 1, Active, 0);
    var a, b := NodeRuntime("a", Healthy, 0.9, false), NodeRuntime("b", Healthy, 0.1, false);
    var s := Snapshot([v], [a, b], 0.5, {1});
    var p := Policy(0.85, 0.9, 2.0, 10);
    PinnedDecision(s, p, v, a, b);
    hide HotAction, DrainActions, ColdActions, GrowZone, NearFull;
    assert "a" != "b";
    assert GetNode([a, b], "b") == Some(b);
  }

  lemma PinnedDecision(s: Snapshot, p: Policy, v: VolumeRuntime, a: NodeRuntime, b: NodeRuntime)
    requires v == VolumeRuntime(1, "a", 0, 10, 1, Active, 0)
    requires a == NodeRuntime("a", Healthy, 0.9, false) && b == NodeRuntime("b", Healthy, 0.1, false)
    requires s == Snapshot([v], [a, b], 0.5, {1}) && p.imbalance == 2.0
    ensures HotAction(s, p) == Some(MigrateHot("a", "b", []))
  {
    assert AvailableNodes([b]) == [b] && AvailableNodes([a, b]) == [a, b];
    assert Busiest([a, b]) == a && Idlest([a, b]) == b;
    assert MovableIds(s, [v], "a") == [];
    assert 0.9 / 0.1 > 2.0;
  }

  // ---------- tasks ----------

  predicate IsActive(t: Task) {
    t.state == Running || t.state == PausedByLoad
  }

  predicate IsTerminal(t: Task) {
    t.state == Completed || t.state == Failed
  }

  function SourceOf(a: Action): Option<Source> {
    match a
    case MigrateCold(from, _, _) => Some(FromVolume(from))
    case MigrateHot(from, _, _) => Some(FromNode(from))
    case Grow(_, _) => None
  }

  function CountActive(tasks: seq<Task>): nat
    decreases |tasks|
  {
    if tasks == [] then 0
    else CountActive(tasks[..|tasks| - 1]) + if IsActive(tasks[|tasks| - 1]) then 1 else 0
  }

  lemma CountPush(tasks: seq<Task>, t: Task)
    ensures CountActive(tasks + [t]) == CountActive(tasks) + if IsActive(t) then 1 else 0
  {}

  lemma {:induction false} CountShrinks(before: seq<Task>, after: seq<Task>)
    requires |before| == |after| && forall i :: 0 <= i < |after| && IsActive(after[i]) ==> IsActive(before[i])
    ensures CountActive(after) <= CountActive(before)
    decreases |before|
  {
    if before != [] {
      CountShrinks(before[..|before| - 1], after[..|after| - 1]);
    }
  }

  function Index(tasks: seq<Task>, id: nat): (r: nat)
    ensures r <= |tasks| && (r < |tasks| ==> tasks[r].id == id) && forall i :: 0 <= i < r ==> tasks[i].id != id
  {
    if tasks == [] || tasks[0].id == id then 0
    else
      var r := Index(tasks[1..], id);
      assert forall i :: 0 < i < |tasks| ==> tasks[i] == tasks[1..][i - 1];
      1 + r
  }

  predicate Holds(tasks: seq<Task>, sources: map<nat, Source>, source: Source) {
    exists i :: 0 <= i < |tasks| && IsActive(tasks[i]) && tasks[i].id in sources && sources[tasks[i].id] == source
  }

  // ---------- what a task was started for ----------

  /** Both move data off the same volume, or both off the same node. */
  predicate SameOrigin(a: Action, b: Action) {
    || (a.MigrateCold? && b.MigrateCold? && a.fromVolume == b.fromVolume)
    || (a.MigrateHot? && b.MigrateHot? && a.fromNode == b.fromNode)
  }

  lemma OriginIsSource(a: Action, b: Action)
    ensures SameOrigin(a, b) <==> SourceOf(a).Some? && SourceOf(a) == SourceOf(b)
  {}

  /** The task is of the kind and the size of the action it was started for. */
  ghost predicate Records(t: Task, started: map<nat, Action>) {
    t.id in started && match started[t.id]
                       case MigrateCold(_, _, needles) => t.kind == ColdData && t.total == |needles|
                       case MigrateHot(_, _, volumes) => t.kind == HotData && t.total == |volumes|
                       case Grow(_, _) => t.kind == VolumeGrow && t.total == 0
  }

  ghost predicate AllRecorded(tasks: seq<Task>, started: map<nat, Action>) {
    forall i :: 0 <= i < |tasks| ==> Records(tasks[i], started)
  }

  ghost predicate Traced(sources: map<nat, Source>, started: map<nat, Action>) {
    forall id :: id in sources ==> id in started && SourceOf(started[id]) == Some(sources[id])
  }

  /** No two active tasks were started to move data off the same volume, nor off the same node. */
  ghost predicate Apart(tasks: seq<Task>, started: map<nat, Action>) {
    forall i, j | 0 <= i < j < |tasks| && IsActive(tasks[i]) && IsActive(tasks[j]) && tasks[i].id in started &&
      tasks[j].id in started ::
      !SameOrigin(started[tasks[i].id], started[tasks[j].id])
  }

  /** An active task was started to move data off the volume or node of this action. */
  ghost predicate Busy(tasks: seq<Task>, started: map<nat, Action>, a: Action) {
    exists i :: 0 <= i < |tasks| && IsActive(tasks[i]) && tasks[i].id in started &&
                SameOrigin(started[tasks[i].id], a)
  }

  lemma ExclusiveIsApart(tasks: seq<Task>, sources: map<nat, Source>, started: map<nat, Action>)
    requires Traced(sources, started) && Exclusive(tasks, sources)
    ensures Apart(tasks, started)
  {
    hide IsActive, SourceOf, SameOrigin;
    forall i, j | 0 <= i < j < |tasks| && IsActive(tasks[i]) && IsActive(tasks[j])
      ensures tasks[i].id in started && tasks[j].id in started &&
              !SameOrigin(started[tasks[i].id], started[tasks[j].id])
    {
      OriginIsSource(started[tasks[i].id], started[tasks[j].id]);
    }
  }

  /** A source is held only by a task that was started for it. */
  lemma HeldIsBusy(tasks: seq<Task>, sources: map<nat, Source>, started: map<nat, Action>, a: Action)
    requires Traced(sources, started) && SourceOf(a).Some? && Holds(tasks, sources, SourceOf(a).value)
    ensures Busy(tasks, started, a)
  {
    hide IsActive, SourceOf, SameOrigin;
    var i :| 0 <= i < |tasks| && IsActive(tasks[i]) && tasks[i].id in sources &&
             sources[tasks[i].id] == SourceOf(a).value;
    OriginIsSource(started[tasks[i].id], a);
  }

  lemma MayStart(tasks: seq<Task>, sources: map<nat, Source>, started: map<nat, Action>, a: Action)
    requires Traced(sources, started)
    ensures Exclusive(tasks, sources) ==> Apart(tasks, started)
    ensures SourceOf(a).Some? <==> !a.Grow?
    ensures SourceOf(a).Some? && Holds(tasks, sources, SourceOf(a).value) ==> Busy(tasks, started, a)
  {
    hide Exclusive, Apart, Traced, Holds, Busy;
    if Exclusive(tasks, sources) {
      ExclusiveIsApart(tasks, sources, started);
    }
    if SourceOf(a).Some? && Holds(tasks, sources, SourceOf(a).value) {
      HeldIsBusy(tasks, sources, started, a);
    }
  }

  lemma StartTraces(tasks: seq<Task>, sources: map<nat, Source>, started: map<nat, Action>, id: nat, a: Action)
    requires AllRecorded(tasks, started) && Traced(sources, started) && id !in sources
    requires forall i :: 0 <= i < |tasks| ==> tasks[i].id != id
    ensures AllRecorded(tasks + [NewTask(a, id)], started[id := a])
    ensures Traced(WithSource(sources, id, a), started[id := a])
  {
    var after := tasks + [NewTask(a, id)];
    forall i | 0 <= i < |after|
      ensures Records(after[i], started[id := a])
    {
      if i < |tasks| {
        assert after[i] == tasks[i] && Records(tasks[i], started);
      }
    }
  }

  // ---------- what every operation keeps ----------

  /** Ids count up and are handed out once. */
  ghost predicate Numbered(tasks: seq<Task>, nextId: nat) {
    && (forall i :: 0 <= i < |tasks| ==> tasks[i].id < nextId)
    && (forall i, j :: 0 <= i < j < |tasks| ==> tasks[i].id < tasks[j].id)
  }

  /** Only active tasks have a recorded source. */
  ghost predicate SourcesLive(tasks: seq<Task>, sources: map<nat, Source>) {
    forall id :: id in sources ==> exists i :: 0 <= i < |tasks| && tasks[i].id == id && IsActive(tasks[i])
  }

  /** A paused task says why, a running one has nothing to say, and none is pending. */
  ghost predicate Reasoned(tasks: seq<Task>) {
    forall i :: 0 <= i < |tasks| ==>
      && tasks[i].state != Pending
      && (tasks[i].state == Running ==> tasks[i].reason.None?)
      && (tasks[i].state == PausedByLoad ==> tasks[i].reason.Some?)
  }

  /** No two active tasks move the same volume or node, and each has its source recorded. */
  ghost predicate Exclusive(tasks: seq<Task>, sources: map<nat, Source>) {
    && (forall i :: 0 <= i < |tasks| && IsActive(tasks[i]) ==> tasks[i].id in sources)
    && (forall i, j | 0 <= i < j < |tasks| && IsActive(tasks[i]) && IsActive(tasks[j]) && tasks[i].id in sources &&
          tasks[j].id in sources ::
          sources[tasks[i].id] != sources[tasks[j].id])
  }

  /** Tasks are never lost or renumbered, and finished ones never change. */
  ghost predicate Follows(before: seq<Task>, after: seq<Task>) {
    && |before| <= |after|
    && forall i :: 0 <= i < |before| ==>
         && after[i].id == before[i].id && after[i].kind == before[i].kind
         && (IsTerminal(before[i]) ==> after[i] == before[i])
  }

  lemma FollowsTrans(a: seq<Task>, b: seq<Task>, c: seq<Task>)
    requires Follows(a, b) && Follows(b, c)
    ensures Follows(a, c)
  {}

  function Paused(tasks: seq<Task>, threshold: real): (r: seq<Task>)
    ensures |r| == |tasks|
    ensures forall i :: 0 <= i < |tasks| ==>
              r[i] == if tasks[i].state != Running then tasks[i]
                      else tasks[i].(state := PausedByLoad, reason := Some(LoadAbove(threshold)))
  {
    seq(|tasks|, i requires 0 <= i < |tasks| =>
      if tasks[i].state != Running then tasks[i]
      else tasks[i].(state := PausedByLoad, reason := Some(LoadAbove(threshold))))
  }

  function Resumed(tasks: seq<Task>): (r: seq<Task>)
    ensures |r| == |tasks|
    ensures forall i :: 0 <= i < |tasks| ==>
              r[i] == if tasks[i].state == PausedByLoad then tasks[i].(state := Running, reason := None) else tasks[i]
  {
    seq(|tasks|, i requires 0 <= i < |tasks| =>
      if tasks[i].state == PausedByLoad then tasks[i].(state := Running, reason := None) else tasks[i])
  }

  /** Pausing and resuming change who runs, not who is active. */
  lemma SameActivity(before: seq<Task>, after: seq<Task>, sources: map<nat, Source>, nextId: nat)
    requires |before| == |after|
    requires forall i :: 0 <= i < |before| ==>
               after[i].id == before[i].id && (IsActive(after[i]) <==> IsActive(before[i]))
    ensures Numbered(before, nextId) ==> Numbered(after, nextId)
    ensures SourcesLive(before, sources) ==> SourcesLive(after, sources)
    ensures Exclusive(before, sources) ==> Exclusive(after, sources)
    ensures CountActive(after) == CountActive(before)
  {
    hide IsActive;
    CountShrinks(before, after);
    CountShrinks(after, before);
    if SourcesLive(before, sources) {
      forall id | id in sources
        ensures exists i :: 0 <= i < |after| && after[i].id == id && IsActive(after[i])
      {
        var i :| 0 <= i < |before| && before[i].id == id && IsActive(before[i]);
        assert after[i].id == id;
      }
    }
  }

  /** Ending a task and releasing its source. */
  lemma Ended(before: seq<Task>, sources: map<nat, Source>, nextId: nat, i: nat, t: Task)
    requires i < |before| && t.id == before[i].id && !IsActive(t)
    ensures Numbered(before, nextId) ==> Numbered(before[i := t], nextId)
    ensures Numbered(before, nextId) && SourcesLive(before, sources) ==> SourcesLive(before[i := t], sources - {t.id})
    ensures Numbered(before, nextId) && Exclusive(before, sources) ==> Exclusive(before[i := t], sources - {t.id})
    ensures CountActive(before[i := t]) <= CountActive(before)
  {
    var after := before[i := t];
    CountShrinks(before, after);
    if Numbered(before, nextId) && SourcesLive(before, sources) {
      forall id | id in sources - {t.id}
        ensures exists k :: 0 <= k < |after| && after[k].id == id && IsActive(after[k])
      {
        var k :| 0 <= k < |before| && before[k].id == id && IsActive(before[k]);
        assert after[k] == before[k];
      }
    }
  }

  /** Starting a task under the next id, its source recorded if it has one. */
  lemma Started(tasks: seq<Task>, sources: map<nat, Source>, nextId: nat, t: Task, source: Option<Source>)
    requires t.id == nextId && IsActive(t) && Numbered(tasks, nextId) && SourcesLive(tasks, sources)
    ensures var sources' := if source.Some? then sources[nextId := source.value] else sources;
            && Numbered(tasks + [t], nextId + 1) && SourcesLive(tasks + [t], sources')
            && (Exclusive(tasks, sources) && source.Some? && !Holds(tasks, sources, source.value) ==>
                Exclusive(tasks + [t], sources'))
  {
    hide IsActive;
    var after := tasks + [t];
    var sources' := if source.Some? then sources[nextId := source.value] else sources;
    forall id | id in sources'
      ensures exists k :: 0 <= k < |after| && after[k].id == id && IsActive(after[k])
    {
      if id == nextId {
        assert after[|tasks|].id == id;
      } else {
        var k :| 0 <= k < |tasks| && tasks[k].id == id && IsActive(tasks[k]);
        assert after[k] == tasks[k];
      }
    }
    if Exclusive(tasks, sources) && source.Some? && !Holds(tasks, sources, source.value) {
      forall i | 0 <= i < |tasks| && IsActive(after[i])
        ensures after[i].id in sources && sources'[after[i].id] == sources[after[i].id] != source.value
      {
        assert after[i] == tasks[i];
      }
    }
  }

  // ---------- what is started ----------

  /** The task recorded for an action; its size is that of the request, not of what validation resolved. */
  function NewTask(a: Action, id: nat): Task {
    match a
    case MigrateCold(_, _, needles) => Task(id, ColdData, Running, 0.0, 0, |needles|, None)
    case MigrateHot(_, _, volumes) => Task(id, HotData, Running, 0.0, 0, |volumes|, None)
    case Grow(_, _) => Task(id, VolumeGrow, Running, 0.0, 0, 0, None)
  }

  function WithSource(sources: map<nat, Source>, id: nat, a: Action): map<nat, Source> {
    if SourceOf(a).Some? then sources[id := SourceOf(a).value] else sources
  }

  /** The actions that validation refuses, with its reasons, in order. */
  ghost function Refused(s: Snapshot, p: Policy, ex: Executor, actions: seq<Action>): seq<(Action, Rejection)> {
    if actions == [] then []
    else
      var init, a := actions[..|actions| - 1], actions[|actions| - 1];
      var valid := Validate(s, p, ex, a);
      Refused(s, p, ex, init) + if valid.Err? then [(a, valid.error)] else []
  }

  /** The actions that it lets pass, in order. */
  ghost function Passed(s: Snapshot, p: Policy, ex: Executor, actions: seq<Action>): seq<Action> {
    if actions == [] then []
    else
      var init, a := actions[..|actions| - 1], actions[|actions| - 1];
      Passed(s, p, ex, init) + if Validate(s, p, ex, a).Ok? then [a] else []
  }

  ghost function NewTasks(actions: seq<Action>, first: nat): (r: seq<Task>)
    ensures |r| == |actions| && forall i :: 0 <= i < |r| ==> r[i] == NewTask(actions[i], first + i)
  {
    seq(|actions|, i requires 0 <= i < |actions| => NewTask(actions[i], first + i))
  }

  /** Action i passes and its dispatch, under the id that is its turn, fails. */
  ghost predicate FailsAt(s: Snapshot, p: Policy, ex: Executor, actions: seq<Action>, first: nat, i: int) {
    && 0 <= i < |actions| && Validate(s, p, ex, actions[i]).Ok?
    && !ex.start(Validate(s, p, ex, actions[i]).value, first + |Passed(s, p, ex, actions[..i])|)
  }

  lemma PassedOneMore(s: Snapshot, p: Policy, ex: Executor, actions: seq<Action>, i: nat)
    requires i < |actions|
    ensures var valid := Validate(s, p, ex, actions[i]);
            && Passed(s, p, ex, actions[..i + 1]) ==
               Passed(s, p, ex, actions[..i]) + (if valid.Ok? then [actions[i]] else [])
            && Refused(s, p, ex, actions[..i + 1]) ==
               Refused(s, p, ex, actions[..i]) + (if valid.Err? then [(actions[i], valid.error)] else [])
  {
    hide Validate;
    assert actions[..i + 1][..i] == actions[..i];
  }

  lemma {:induction false} PassedOrRefused(s: Snapshot, p: Policy, ex: Executor, actions: seq<Action>)
    ensures |Passed(s, p, ex, actions)| + |Refused(s, p, ex, actions)| == |actions|
    decreases |actions|
  {
    hide Validate;
    if actions != [] {
      PassedOrRefused(s, p, ex, actions[..|actions| - 1]);
    }
  }

  lemma NewTasksOneMore(actions: seq<Action>, a: Action, first: nat)
    ensures NewTasks(actions + [a], first) == NewTasks(actions, first) + [NewTask(a, first + |actions|)]
  {}

  /** Why an action has no new task: it is a growth, an active task already moves data off its volume or node,
      validation refuses it, or its dispatch failed under one of the ids spent.  Sharing a target is no reason. */
  ghost predicate Settled(s: Snapshot, p: Policy, ex: Executor, tasks: seq<Task>, started: map<nat, Action>,
                          first: nat, next: nat, a: Action) {
    || a.Grow? || Busy(tasks, started, a) || Validate(s, p, ex, a).Err?
    || exists id: nat :: first <= id < next && !ex.start(Validate(s, p, ex, a).value, id)
  }

  lemma StillBusy(tasks: seq<Task>, started: map<nat, Action>, t: Task, a: Action, b: Action)
    requires Busy(tasks, started, b) && forall i :: 0 <= i < |tasks| ==> tasks[i].id != t.id
    ensures Busy(tasks + [t], started[t.id := a], b)
  {
    var i :| 0 <= i < |tasks| && IsActive(tasks[i]) && tasks[i].id in started &&
             SameOrigin(started[tasks[i].id], b);
    assert (tasks + [t])[i] == tasks[i];
  }

  lemma NowBusy(tasks: seq<Task>, started: map<nat, Action>, t: Task, a: Action)
    requires IsActive(t) && !a.Grow?
    ensures Busy(tasks + [t], started[t.id := a], a)
  {
    assert (tasks + [t])[|tasks|] == t;
  }

  lemma UnusedId(tasks: seq<Task>, sources: map<nat, Source>, nextId: nat)
    requires Numbered(tasks, nextId) && SourcesLive(tasks, sources)
    ensures nextId !in sources && forall i :: 0 <= i < |tasks| ==> tasks[i].id != nextId
  {}

  lemma NewIsReasoned(tasks: seq<Task>, a: Action, id: nat)
    requires Reasoned(tasks)
    ensures Reasoned(tasks + [NewTask(a, id)]) && IsActive(NewTask(a, id)) && NewTask(a, id).id == id
  {}

  class Scheduler {
    const limits: Limits
    var tasks: seq<Task>
    var sources: map<nat, Source>
    var nextId: nat
    /** The action each task was started for. */
    ghost var started: map<nat, Action>

    /** What every operation keeps. */
    ghost predicate Valid()
      reads this
    {
      && Numbered(tasks, nextId) && SourcesLive(tasks, sources) && Reasoned(tasks)
      && AllRecorded(tasks, started) && Traced(sources, started)
    }

    /** What the periodic tick, cancellation and completion keep: the concurrency limit and exclusive sources.
        Executing migrations by hand checks neither. */
    ghost predicate Orderly()
      reads this
    {
      CountActive(tasks) <= limits.maxConcurrent && Exclusive(tasks, sources)
    }

    constructor (limits: Limits)
      ensures Valid() && Orderly() && tasks == [] && this.limits == limits
    {
      this.limits := limits;
      tasks, sources, nextId, started := [], map[], 1, map[];
    }

    method PauseAllRunning()
      requires Valid()
      modifies this`tasks
      ensures Valid() && (old(Orderly()) ==> Orderly()) && tasks == Paused(old(tasks), limits.pause)
    {
      hide CountActive, Numbered, SourcesLive, Exclusive;
      for i := 0 to |tasks|
        invariant |tasks| == |old(tasks)|
        invariant forall j :: 0 <= j < |tasks| ==>
                    tasks[j] == if j < i then Paused(old(tasks), limits.pause)[j] else old(tasks)[j]
      {
        if tasks[i].state == Running {
          tasks := tasks[i := tasks[i].(state := PausedByLoad, reason := Some(LoadAbove(limits.pause)))];
        }
      }
      assert tasks == Paused(old(tasks), limits.pause);
      SameActivity(old(tasks), tasks, sources, nextId);
    }

    method ResumeAllPaused()
      requires Valid()
      modifies this`tasks
      ensures Valid() && (old(Orderly()) ==> Orderly()) && tasks == Resumed(old(tasks))
    {
      hide CountActive, Numbered, SourcesLive, Exclusive;
      for i := 0 to |tasks|
        invariant |tasks| == |old(tasks)|
        invariant forall j :: 0 <= j < |tasks| ==> tasks[j] == if j < i then Resumed(old(tasks))[j] else old(tasks)[j]
      {
        if tasks[i].state == PausedByLoad {
          tasks := tasks[i := tasks[i].(state := Running, reason := None)];
        }
      }
      assert tasks == Resumed(old(tasks));
      SameActivity(old(tasks), tasks, sources, nextId);
    }

    method Cancel(id: nat) returns (r: Result<(), ManageError>)
      requires Valid()
      modifies this`tasks, this`sources
      ensures Valid() && (old(Orderly()) ==> Orderly()) && Follows(old(tasks), tasks)
      ensures var i := Index(old(tasks), id);
              && r == (if i == |old(tasks)| then Err(NotFound)
                       else if IsTerminal(old(tasks)[i]) then Err(InvalidState) else Ok(()))
              && (r.Err? ==> tasks == old(tasks) && sources == old(sources))
              && (r.Ok? ==> sources == old(sources) - {id} &&
                            var t := old(tasks)[i];
                            tasks == old(tasks)[i := t.(state := Failed, reason := Some(Canceled(t.state)))])
    {
      hide CountActive, Numbered, SourcesLive, Exclusive, Index;
      var i := Index(tasks, id);
      if i == |tasks| {
        return Err(NotFound);
      }
      if IsTerminal(tasks[i]) {
        return Err(InvalidState);
      }
      var t := tasks[i].(state := Failed, reason := Some(Canceled(tasks[i].state)));
      Ended(tasks, sources, nextId, i, t);
      tasks := tasks[i := t];
      sources := sources - {id};
      r := Ok(());
    }

    method CompleteTask(id: nat, success: bool, bytes: nat) returns (r: Result<(), ManageError>)
      requires Valid()
      modifies this`tasks, this`sources
      ensures Valid() && (old(Orderly()) ==> Orderly()) && Follows(old(tasks), tasks)
      ensures var i := Index(old(tasks), id);
              && r == (if i == |old(tasks)| then Err(NotFound)
                       else if IsTerminal(old(tasks)[i]) then Err(InvalidState) else Ok(()))
              && (r.Err? ==> tasks == old(tasks) && sources == old(sources))
              && (r.Ok? ==> sources == old(sources) - {id} && |tasks| == |old(tasks)| &&
                            tasks == old(tasks)[i := tasks[i]] &&
                            tasks[i].state == (if success then Completed else Failed) &&
                            (success ==> tasks[i].progress == 1.0) &&
                            tasks[i].migrated == Max(bytes, old(tasks)[i].migrated))
    {
      hide CountActive, Numbered, SourcesLive, Exclusive, Index;
      var i := Index(tasks, id);
      if i == |tasks| {
        return Err(NotFound);
      }
      if IsTerminal(tasks[i]) {
        return Err(InvalidState);
      }
      var t := tasks[i].(state := Failed, migrated := Max(bytes, tasks[i].migrated));
      if success {
        t := t.(state := Completed, progress := 1.0);
      }
      Ended(tasks, sources, nextId, i, t);
      tasks := tasks[i := t];
      sources := sources - {id};
      r := Ok(());
    }

    /** Dispatch first; a task is recorded only if that succeeds.  The id is spent either way. */
    method StartTask(resolved: Action, original: Action, ex: Executor) returns (r: Option<nat>)
      requires Valid()
      modifies this`tasks, this`sources, this`nextId, this`started
      ensures Valid() && nextId == old(nextId) + 1
      ensures r == if ex.start(resolved, old(nextId)) then Some(old(nextId)) else None
      ensures r.None? ==> tasks == old(tasks) && sources == old(sources) && started == old(started)
      ensures r.Some? ==> tasks == old(tasks) + [NewTask(original, old(nextId))]
      ensures r.Some? ==> sources == WithSource(old(sources), old(nextId), original)
      ensures r.Some? ==> started == old(started)[old(nextId) := original]
      ensures CountActive(tasks) == CountActive(old(tasks)) + if r.Some? then 1 else 0
      ensures old(Exclusive(tasks, sources)) && SourceOf(original).Some? &&
              !Holds(old(tasks), old(sources), SourceOf(original).value) ==>
                Exclusive(tasks, sources)
      ensures old(Exclusive(tasks, sources)) && !original.Grow? && !old(Busy(tasks, started, original)) ==>
                Exclusive(tasks, sources) && Apart(tasks, started)
    {
      hide CountActive, SourcesLive, Exclusive, SourceOf, Holds, AllRecorded, Traced, Numbered, Reasoned, NewTask,
           IsActive;
      UnusedId(tasks, sources, nextId);
      NumberedUp(tasks, nextId);
      NewIsReasoned(tasks, original, nextId);
      MayStart(tasks, sources, started, original);
      var id := nextId;
      nextId := nextId + 1;
      if !ex.start(resolved, id) {
        return None;
      }
      var t := NewTask(original, id);
      Started(tasks, sources, id, t, SourceOf(original));
      CountPush(tasks, t);
      StartTraces(tasks, sources, started, id, original);
      tasks := tasks + [t];
      started := started[id := original];
      var source := SourceOf(original);
      if source.Some? {
        sources := sources[id := source.value];
      }
      MayStart(tasks, sources, started, original);
      r := Some(id);
    }

    /** Start as many of the actions as there are slots, never a second one for a busy source.  A slot stays free
        only when no action was left that could have filled it. */
    method FillSlots(actions: seq<Action>, slots: nat, s: Snapshot, p: Policy, ex: Executor)
      requires Valid()
      modifies this`tasks, this`sources, this`nextId, this`started
      ensures Valid() && old(tasks) <= tasks && |tasks| <= |old(tasks)| + slots
      ensures CountActive(tasks) == CountActive(old(tasks)) + |tasks| - |old(tasks)|
      ensures old(Exclusive(tasks, sources)) ==> Exclusive(tasks, sources) && Apart(tasks, started)
      ensures nextId >= old(nextId)
      ensures |tasks| == |old(tasks)| + slots ||
              forall a :: a in actions ==> Settled(s, p, ex, tasks, started, old(nextId), nextId, a)
      ensures AllDispatched(s, p, ex, actions, tasks, |old(tasks)|)
    {
      hide CountActive, Numbered, SourcesLive, Exclusive, Reasoned, Validate, Settled, Dispatched, NewTask, AllRecorded,
           Traced, Apart;
      var filled := 0;
      var i := 0;
      while i < |actions| && filled < slots
        invariant 0 <= i <= |actions| && 0 <= filled <= slots
        invariant Valid() && old(tasks) <= tasks && |tasks| == |old(tasks)| + filled && nextId >= old(nextId)
        invariant CountActive(tasks) == CountActive(old(tasks)) + filled
        invariant old(Exclusive(tasks, sources)) ==> Exclusive(tasks, sources)
        invariant AllSettled(s, p, ex, tasks, started, old(nextId), nextId, actions[..i])
        invariant AllDispatched(s, p, ex, actions, tasks, |old(tasks)|)
      {
        var a := actions[i];
        var begun := FillOne(a, s, p, ex, old(nextId), actions[..i]);
        if begun {
          NewIsDispatched(s, p, ex, actions, tasks, |old(tasks)|, a);
          filled := filled + 1;
        }
        assert actions[..i] + [a] == actions[..i + 1];
        i := i + 1;
      }
      assert actions[..|actions|] == actions;
      if Exclusive(tasks, sources) {
        ExclusiveIsApart(tasks, sources, started);
      }
    }

    /** Consider one action; whatever was settled before stays so. */
    method FillOne(a: Action, s: Snapshot, p: Policy, ex: Executor, ghost first: nat, ghost before: seq<Action>)
      returns (begun: bool)
      requires Valid() && first <= nextId && AllSettled(s, p, ex, tasks, started, first, nextId, before)
      modifies this`tasks, this`sources, this`nextId, this`started
      ensures Valid() && nextId >= old(nextId)
      ensures AllSettled(s, p, ex, tasks, started, first, nextId, before + [a])
      ensures CountActive(tasks) == CountActive(old(tasks)) + if begun then 1 else 0
      ensures old(Exclusive(tasks, sources)) ==> Exclusive(tasks, sources)
      ensures !begun ==> tasks == old(tasks) && sources == old(sources) && started == old(started)
      ensures begun ==> |tasks| == |old(tasks)| + 1 && old(tasks) <= tasks && !a.Grow? &&
                        Dispatched(s, p, ex, a, tasks[|old(tasks)|])
    {
      hide CountActive, Exclusive, Reasoned, Validate, Holds, Busy, AllRecorded, Traced, WithSource;
      begun := false;
      ghost var tasks0, started0 := tasks, started;
      if a.Grow? || Holds(tasks, sources, SourceOf(a).value) {
        if !a.Grow? {
          HeldIsBusy(tasks, sources, started, a);
        }
        SettledMore(s, p, ex, tasks, started, first, nextId, before, a);
        return;
      }
      var valid := Validate(s, p, ex, a);
      if valid.Err? {
        SettledMore(s, p, ex, tasks, started, first, nextId, before, a);
        return;
      }
      var id := StartTask(valid.value, a, ex);
      begun := id.Some?;
      if begun {
        StartSettles(s, p, ex, tasks0, started0, first, nextId - 1, before, a);
      } else {
        SettledLater(s, p, ex, tasks, started, first, nextId - 1, before);
        assert !ex.start(valid.value, nextId - 1);
        SettledMore(s, p, ex, tasks, started, first, nextId, before, a);
      }
    }

    /** The periodic tick: pause under high load, resume under low load, otherwise leave every task's state alone;
        then fill the free slots, leaving one free only when no action could fill it. */
    method Tick(s: Snapshot, p: Policy, size: nat, ex: Executor)
      requires Valid()
      modifies this
      ensures Valid() && (old(Orderly()) ==> Orderly() && Apart(tasks, started)) && Follows(old(tasks), tasks)
      ensures s.averageLoad > limits.pause ==>
                tasks == Paused(old(tasks), limits.pause) && sources == old(sources) && nextId == old(nextId)
      ensures limits.resume <= s.averageLoad <= limits.pause ==> old(tasks) <= tasks
      ensures s.averageLoad <= limits.pause && s.averageLoad < limits.resume ==> Resumed(old(tasks)) <= tasks
      ensures s.averageLoad <= limits.pause ==>
                CountActive(tasks) >= limits.maxConcurrent ||
                forall a :: a in Decision(s, p, size) ==> Settled(s, p, ex, tasks, started, old(nextId), nextId, a)
      ensures AllDispatched(s, p, ex, Decision(s, p, size), tasks, |old(tasks)|)
    {
      hide CountActive, Numbered, SourcesLive, Exclusive, Reasoned, Decision, IsActive, Settled, Dispatched,
           AllRecorded, Traced, Apart;
      if s.averageLoad > limits.pause {
        PauseAllRunning();
        OrderlyIsApart(this);
        return;
      }
      if s.averageLoad < limits.resume {
        ResumeAllPaused();
      }
      var active := CountActive(tasks);
      var slots := if active < limits.maxConcurrent then limits.maxConcurrent - active else 0;
      if slots == 0 {
        OrderlyIsApart(this);
        return;
      }
      var actions := Analyze(s, p, size);
      FillSlots(actions, slots, s, p, ex);
    }

    /** By hand: every action that passes validation is started, whatever the limit and the sources, under ids in a
        row; the others are reported with their reasons; the first failed dispatch stops it all, leaving what was
        started before. */
    method ExecuteMigrations(actions: seq<Action>, s: Snapshot, p: Policy, ex: Executor, dryRun: bool)
      returns (r: Result<(seq<nat>, seq<(Action, Rejection)>), ManageError>)
      requires Valid()
      modifies this
      ensures Valid() && old(tasks) <= tasks && nextId >= old(nextId)
      ensures dryRun ==> tasks == old(tasks) && sources == old(sources)
      ensures r.Err? <==> !dryRun && exists i :: FailsAt(s, p, ex, actions, old(nextId), i)
      ensures r.Err? ==> r.error == Dispatch && exists i ::
                && FailsAt(s, p, ex, actions, old(nextId), i)
                && (forall j :: FailsAt(s, p, ex, actions, old(nextId), j) ==> i <= j)
                && tasks == old(tasks) + NewTasks(Passed(s, p, ex, actions[..i]), old(nextId))
      ensures r.Ok? ==>
                var passed := Passed(s, p, ex, actions);
                && r.value.1 == Refused(s, p, ex, actions) && |r.value.0| == |passed|
                && (forall j :: 0 <= j < |passed| ==> r.value.0[j] == old(nextId) + j)
                && nextId == old(nextId) + |passed|
                && (!dryRun ==> tasks == old(tasks) + NewTasks(passed, old(nextId)))
                && (!dryRun ==> CountActive(tasks) == CountActive(old(tasks)) + |passed|)
    {
      hide CountActive, Numbered, SourcesLive, Exclusive, Reasoned, Validate, Passed, Refused, NewTask, NewTasks;
      var accepted: seq<nat>, rejected: seq<(Action, Rejection)> := [], [];
      ghost var first := nextId;
      NothingPassed(s, p, ex, actions, first);
      for i := 0 to |actions|
        invariant Valid() && (dryRun ==> tasks == old(tasks) && sources == old(sources))
        invariant rejected == Refused(s, p, ex, actions[..i]) && |accepted| == |Passed(s, p, ex, actions[..i])|
        invariant forall j :: 0 <= j < |accepted| ==> accepted[j] == first + j
        invariant nextId == first + |accepted|
        invariant !dryRun ==> tasks == old(tasks) + NewTasks(Passed(s, p, ex, actions[..i]), first)
        invariant !dryRun ==> CountActive(tasks) == CountActive(old(tasks)) + |accepted|
        invariant !dryRun ==> forall j :: FailsAt(s, p, ex, actions, first, j) ==> i <= j
      {
        PassedOneMore(s, p, ex, actions, i);
        NewTasksOneMore(Passed(s, p, ex, actions[..i]), actions[i], first);
        var valid := Validate(s, p, ex, actions[i]);
        if valid.Ok? {
          var id := nextId;
          if dryRun {
            NumberedUp(tasks, nextId);
            nextId := nextId + 1;
          } else {
            var task := StartTask(valid.value, actions[i], ex);
            if task.None? {
              assert FailsAt(s, p, ex, actions, first, i);
              return Err(Dispatch);
            }
          }
          accepted := accepted + [id];
        } else {
          rejected := rejected + [(actions[i], valid.error)];
        }
      }
      assert actions[..|actions|] == actions;
      r := Ok((accepted, rejected));
    }
  }

  lemma NothingPassed(s: Snapshot, p: Policy, ex: Executor, actions: seq<Action>, first: nat)
    ensures Passed(s, p, ex, actions[..0]) == [] && Refused(s, p, ex, actions[..0]) == [] && NewTasks([], first) == []
  {}

  /** The action passed, and the task is the one recorded for it after its dispatch succeeded. */
  ghost predicate Dispatched(s: Snapshot, p: Policy, ex: Executor, a: Action, t: Task) {
    Validate(s, p, ex, a).Ok? && ex.start(Validate(s, p, ex, a).value, t.id) && t == NewTask(a, t.id)
  }

  /** Every task from position `from` on is one of the actions, dispatched. */
  ghost predicate AllDispatched(s: Snapshot, p: Policy, ex: Executor, actions: seq<Action>, tasks: seq<Task>, from: nat)
  {
    forall i :: from <= i < |tasks| ==> exists a :: a in actions && !a.Grow? && Dispatched(s, p, ex, a, tasks[i])
  }

  lemma NewIsDispatched(s: Snapshot, p: Policy, ex: Executor, actions: seq<Action>, tasks: seq<Task>, from: nat,
                        a: Action)
    requires |tasks| > from && AllDispatched(s, p, ex, actions, tasks[..|tasks| - 1], from)
    requires a in actions && !a.Grow? && Dispatched(s, p, ex, a, tasks[|tasks| - 1])
    ensures AllDispatched(s, p, ex, actions, tasks, from)
  {
    hide Dispatched;
    forall i | from <= i < |tasks|
      ensures exists b :: b in actions && !b.Grow? && Dispatched(s, p, ex, b, tasks[i])
    {
      if i < |tasks| - 1 {
        assert tasks[..|tasks| - 1][i] == tasks[i];
      }
    }
  }

  ghost predicate AllSettled(s: Snapshot, p: Policy, ex: Executor, tasks: seq<Task>, started: map<nat, Action>,
                             first: nat, next: nat, actions: seq<Action>) {
    forall a :: a in actions ==> Settled(s, p, ex, tasks, started, first, next, a)
  }

  lemma SettledMore(s: Snapshot, p: Policy, ex: Executor, tasks: seq<Task>, started: map<nat, Action>,
                    first: nat, next: nat, actions: seq<Action>, a: Action)
    requires AllSettled(s, p, ex, tasks, started, first, next, actions)
    requires Settled(s, p, ex, tasks, started, first, next, a)
    ensures AllSettled(s, p, ex, tasks, started, first, next, actions + [a])
  {
    hide Settled;
  }

  lemma SettledLater(s: Snapshot, p: Policy, ex: Executor, tasks: seq<Task>, started: map<nat, Action>,
                     first: nat, next: nat, actions: seq<Action>)
    requires AllSettled(s, p, ex, tasks, started, first, next, actions)
    ensures AllSettled(s, p, ex, tasks, started, first, next + 1, actions)
  {
    hide Validate, Busy;
  }

  lemma StartSettles(s: Snapshot, p: Policy, ex: Executor, tasks: seq<Task>, started: map<nat, Action>,
                     first: nat, id: nat, actions: seq<Action>, a: Action)
    requires AllSettled(s, p, ex, tasks, started, first, id, actions) && !a.Grow?
    requires forall i :: 0 <= i < |tasks| ==> tasks[i].id != id
    ensures AllSettled(s, p, ex, tasks + [NewTask(a, id)], started[id := a], first, id + 1, actions + [a])
  {
    var t := NewTask(a, id);
    var tasks', started' := tasks + [t], started[id := a];
    NowBusy(tasks, started, t, a);
    hide Validate, Busy, NewTask;
    forall b | b in actions
      ensures Settled(s, p, ex, tasks', started', first, id + 1, b)
    {
      assert Settled(s, p, ex, tasks, started, first, id, b);
      if Busy(tasks, started, b) {
        StillBusy(tasks, started, t, a, b);
      }
    }
    assert Settled(s, p, ex, tasks', started', first, id + 1, a);
  }

  lemma NumberedUp(tasks: seq<Task>, nextId: nat)
    requires Numbered(tasks, nextId)
    ensures Numbered(tasks, nextId + 1)
  {}

  lemma {:induction false} NoneActive(tasks: seq<Task>)
    requires forall i :: 0 <= i < |tasks| ==> !IsActive(tasks[i])
    ensures CountActive(tasks) == 0
    decreases |tasks|
  {
    if tasks != [] {
      NoneActive(tasks[..|tasks| - 1]);
    }
  }

  /** Sharing a target keeps nothing back: of two moves off different volumes to one volume, both run. */
  method SharedTarget(sch: Scheduler, a: Action, b: Action, s: Snapshot, p: Policy, ex: Executor)
    requires sch.Valid() && forall i :: 0 <= i < |sch.tasks| ==> !IsActive(sch.tasks[i])
    requires a.MigrateCold? && b.MigrateCold? && a.fromVolume != b.fromVolume && a.toVolume == b.toVolume
    requires Validate(s, p, ex, a).Ok? && Validate(s, p, ex, b).Ok? && forall c, id :: ex.start(c, id)
    modifies sch
    ensures sch.Valid() && CountActive(sch.tasks) == 2
  {
    hide Scheduler.Valid, CountActive, Validate, Exclusive, Apart, AllDispatched, Busy;
    NoneActive(sch.tasks);
    ghost var before := sch.tasks;
    sch.FillSlots([a, b], 2, s, p, ex);
    assert a in [a, b] && b in [a, b];
    if Busy(sch.tasks, sch.started, a) && Busy(sch.tasks, sch.started, b) {
      TwoBusy(before, sch.tasks, sch.started, a, b);
    }
  }

  lemma TwoBusy(before: seq<Task>, tasks: seq<Task>, started: map<nat, Action>, a: Action, b: Action)
    requires before <= tasks && forall i :: 0 <= i < |before| ==> !IsActive(before[i])
    requires Busy(tasks, started, a) && Busy(tasks, started, b)
    requires a.MigrateCold? && b.MigrateCold? && a.fromVolume != b.fromVolume
    ensures |tasks| >= |before| + 2
  {
    var i :| 0 <= i < |tasks| && IsActive(tasks[i]) && tasks[i].id in started && SameOrigin(started[tasks[i].id], a);
    var j :| 0 <= j < |tasks| && IsActive(tasks[j]) && tasks[j].id in started && SameOrigin(started[tasks[j].id], b);
    assert forall k :: 0 <= k < |before| ==> tasks[k] == before[k];
    assert i >= |before| && j >= |before| && i != j;
  }

  // ---------- whole runs ----------

  datatype Request =
    | DoTick(snapshot: Snapshot, policy: Policy, size: nat, executor: Executor)
    | DoCancel(id: nat)
    | DoComplete(id: nat, success: bool, bytes: nat)
    | DoPause
    | DoResume
    | DoExecute(actions: seq<Action>, snapshot: Snapshot, policy: Policy, executor: Executor, dryRun: bool)

  /** Over every run of any requests, ids stay unique, sources belong to active tasks and finished tasks never
      change; over every run without hand-started migrations, the limit and exclusive sources hold throughout. */
  method Serve(sch: Scheduler, requests: seq<Request>)
    requires sch.Valid()
    modifies sch
    ensures sch.Valid() && Follows(old(sch.tasks), sch.tasks)
    ensures old(sch.Orderly()) && (forall i :: 0 <= i < |requests| ==> !requests[i].DoExecute?) ==>
              sch.Orderly() && Apart(sch.tasks, sch.started)
  {
    hide Scheduler.Valid, Scheduler.Orderly, Index, Paused, Resumed, CountActive, Validate, Numbered, SourcesLive,
         Exclusive, Reasoned, AllRecorded, Traced, Apart;
    for i := 0 to |requests|
      invariant sch.Valid() && Follows(old(sch.tasks), sch.tasks)
      invariant old(sch.Orderly()) && (forall j :: 0 <= j < |requests| ==> !requests[j].DoExecute?) ==> sch.Orderly()
    {
      ghost var before := sch.tasks;
      match requests[i] {
        case DoTick(s, p, size, ex) => sch.Tick(s, p, size, ex);
        case DoCancel(id) => var _ := sch.Cancel(id);
        case DoComplete(id, success, bytes) => var _ := sch.CompleteTask(id, success, bytes);
        case DoPause => sch.PauseAllRunning();
        case DoResume => sch.ResumeAllPaused();
        case DoExecute(actions, s, p, ex, dryRun) => var _ := sch.ExecuteMigrations(actions, s, p, ex, dryRun);
      }
      assert Follows(before, sch.tasks);
      FollowsTrans(old(sch.tasks), before, sch.tasks);
    }
    OrderlyIsApart(sch);
  }

  lemma OrderlyIsApart(sch: Scheduler)
    requires sch.Valid()
    ensures sch.Orderly() ==> Apart(sch.tasks, sch.started)
  {
    hide Apart, Exclusive, Traced, AllRecorded, Numbered, SourcesLive, Reasoned, CountActive;
    if sch.Orderly() {
      ExclusiveIsApart(sch.tasks, sch.sources, sch.started);
    }
  }
}
