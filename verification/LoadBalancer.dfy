/** Rebalancing decisions from one snapshot of the cluster: what should move, and where. */
module LoadBalancer {
  import opened Options

  datatype VolumeState = Active | Draining | Full | Deleted

  datatype NodeState = Healthy | Degraded | Maintenance | Down

  datatype VolumeRuntime = VolumeRuntime(id: nat, node: string, zone: nat, total: nat, used: nat, state: VolumeState,
                                         coldNeedles: nat)

  datatype NodeRuntime = NodeRuntime(id: string, state: NodeState, load: real, inMaintenance: bool)

  /** Pinned volumes must stay on their node. */
  datatype Snapshot = Snapshot(volumes: seq<VolumeRuntime>, nodes: seq<NodeRuntime>, averageLoad: real,
                               pinned: set<nat>)

  datatype Policy = Policy(fullThreshold: real, nearFullExclude: real, imbalance: real, minChunk: nat)

  datatype Action =
    | MigrateCold(fromVolume: nat, toVolume: nat, needles: seq<nat>)
    | MigrateHot(fromNode: string, toNode: string, volumes: seq<nat>)
    | Grow(zone: nat, size: nat)

  function Usage(v: VolumeRuntime): real {
    if v.total == 0 then 1.0 else v.used as real / v.total as real
  }

  predicate Maintained(n: NodeRuntime) {
    n.inMaintenance || n.state == Maintenance
  }

  predicate Available(n: NodeRuntime) {
    n.state == Healthy && !n.inMaintenance
  }

  function MaintenanceNodes(s: Snapshot): set<string> {
    set n | n in s.nodes && Maintained(n) :: n.id
  }

  // ---------- targets ----------

  predicate IsTarget(s: Snapshot, p: Policy, v: VolumeRuntime, exclude: Option<nat>) {
    v.state == Active && exclude != Some(v.id) && Usage(v) < p.fullThreshold && v.node !in MaintenanceNodes(s)
  }

  /** The least used target, the first of equals. */
  function PickTarget(s: Snapshot, p: Policy, volumes: seq<VolumeRuntime>, exclude: Option<nat>)
    : (r: Option<VolumeRuntime>)
    ensures r.Some? ==> r.value in volumes && IsTarget(s, p, r.value, exclude)
    ensures forall v :: v in volumes && IsTarget(s, p, v, exclude) ==> r.Some? && Usage(r.value) <= Usage(v)
  {
    hide Usage, IsTarget;
    if volumes == [] then None
    else
      var v, rest := volumes[0], PickTarget(s, p, volumes[1..], exclude);
      assert volumes == [v] + volumes[1..];
      if IsTarget(s, p, v, exclude) && (rest.None? || Usage(v) <= Usage(rest.value)) then Some(v) else rest
  }

  lemma {:induction false} PickTargetFirst(s: Snapshot, p: Policy, volumes: seq<VolumeRuntime>, exclude: Option<nat>)
    returns (i: nat)
    requires PickTarget(s, p, volumes, exclude).Some?
    ensures i < |volumes| && PickTarget(s, p, volumes, exclude) == Some(volumes[i])
    ensures forall j :: 0 <= j < i && IsTarget(s, p, volumes[j], exclude) ==> Usage(volumes[j]) > Usage(volumes[i])
  {
    hide Usage, IsTarget;
    var rest := PickTarget(s, p, volumes[1..], exclude);
    if IsTarget(s, p, volumes[0], exclude) && (rest.None? || Usage(volumes[0]) <= Usage(rest.value)) {
      i := 0;
    } else {
      i := PickTargetFirst(s, p, volumes[1..], exclude);
      i := i + 1;
    }
  }

  // ---------- what to move ----------

  predicate IsCold(s: Snapshot, p: Policy, v: VolumeRuntime) {
    v.state == Active && Usage(v) > p.fullThreshold && v.id !in s.pinned && v.coldNeedles >= p.minChunk
  }

  /** The action for one draining volume. */
  function DrainAction(s: Snapshot, p: Policy, v: VolumeRuntime): seq<Action> {
    if v.state != Draining then []
    else
      var target := PickTarget(s, p, s.volumes, None);
      if target.Some? && target.value.id != v.id then [MigrateCold(v.id, target.value.id, [])] else []
  }

  /** The action for one over-full active volume. */
  function ColdAction(s: Snapshot, p: Policy, v: VolumeRuntime): seq<Action> {
    if !IsCold(s, p, v) then []
    else
      var target := PickTarget(s, p, s.volumes, Some(v.id));
      if target.Some? then [MigrateCold(v.id, target.value.id, [])] else []
  }

  ghost function DrainActions(s: Snapshot, p: Policy, volumes: seq<VolumeRuntime>): (r: seq<Action>)
    ensures forall a :: a in r <==> exists v :: v in volumes && a in DrainAction(s, p, v)
    decreases |volumes|
  {
    hide DrainAction;
    if volumes == [] then []
    else
      assert volumes == volumes[..|volumes| - 1] + [volumes[|volumes| - 1]];
      DrainActions(s, p, volumes[..|volumes| - 1]) + DrainAction(s, p, volumes[|volumes| - 1])
  }

  ghost function ColdActions(s: Snapshot, p: Policy, volumes: seq<VolumeRuntime>): (r: seq<Action>)
    ensures forall a :: a in r <==> exists v :: v in volumes && a in ColdAction(s, p, v)
    decreases |volumes|
  {
    hide ColdAction;
    if volumes == [] then []
    else
      assert volumes == volumes[..|volumes| - 1] + [volumes[|volumes| - 1]];
      ColdActions(s, p, volumes[..|volumes| - 1]) + ColdAction(s, p, volumes[|volumes| - 1])
  }

  // ---------- hot data ----------

  function AvailableNodes(nodes: seq<NodeRuntime>): (r: seq<NodeRuntime>)
    ensures forall n :: n in r <==> n in nodes && Available(n)
  {
    if nodes == [] then []
    else
      assert nodes == [nodes[0]] + nodes[1..];
      (if Available(nodes[0]) then [nodes[0]] else []) + AvailableNodes(nodes[1..])
  }

  /** The last of the busiest nodes. */
  function Busiest(nodes: seq<NodeRuntime>): (r: NodeRuntime)
    requires nodes != []
    ensures r in nodes && forall n :: n in nodes ==> n.load <= r.load
  {
    assert nodes == [nodes[0]] + nodes[1..];
    if |nodes| == 1 then nodes[0]
    else
      var rest := Busiest(nodes[1..]);
      if nodes[0].load > rest.load then nodes[0] else rest
  }

  /** The first of the idlest nodes. */
  function Idlest(nodes: seq<NodeRuntime>): (r: NodeRuntime)
    requires nodes != []
    ensures r in nodes && forall n :: n in nodes ==> r.load <= n.load
  {
    assert nodes == [nodes[0]] + nodes[1..];
    if |nodes| == 1 then nodes[0]
    else
      var rest := Idlest(nodes[1..]);
      if nodes[0].load <= rest.load then nodes[0] else rest
  }

  lemma {:induction false} BusiestIsLast(nodes: seq<NodeRuntime>) returns (i: nat)
    requires nodes != []
    ensures i < |nodes| && Busiest(nodes) == nodes[i] && forall j :: i < j < |nodes| ==> nodes[j].load < nodes[i].load
  {
    i := 0;
    if |nodes| > 1 {
      if nodes[0].load > Busiest(nodes[1..]).load {
        assert forall j :: 0 < j < |nodes| ==> nodes[j] in nodes[1..];
      } else {
        i := BusiestIsLast(nodes[1..]);
        i := i + 1;
      }
    }
  }

  lemma {:induction false} IdlestIsFirst(nodes: seq<NodeRuntime>) returns (i: nat)
    requires nodes != []
    ensures i < |nodes| && Idlest(nodes) == nodes[i] && forall j :: 0 <= j < i ==> nodes[j].load > nodes[i].load
  {
    i := 0;
    if |nodes| > 1 && nodes[0].load > Idlest(nodes[1..]).load {
      i := IdlestIsFirst(nodes[1..]);
      i := i + 1;
    }
  }

  predicate Movable(s: Snapshot, v: VolumeRuntime, node: string) {
    v.state == Active && v.node == node && v.id !in s.pinned
  }

  function MovableIds(s: Snapshot, volumes: seq<VolumeRuntime>, node: string): (r: seq<nat>)
    ensures forall id :: id in r <==> exists v :: v in volumes && Movable(s, v, node) && v.id == id
  {
    hide Movable;
    if volumes == [] then []
    else
      assert volumes == [volumes[0]] + volumes[1..];
      (if Movable(s, volumes[0], node) then [volumes[0].id] else []) + MovableIds(s, volumes[1..], node)
  }

  function HotAction(s: Snapshot, p: Policy): Option<Action> {
    var nodes := AvailableNodes(s.nodes);
    if |nodes| < 2 then None
    else
      var busiest, idlest := Busiest(nodes), Idlest(nodes);
      var least := if idlest.load < 0.01 then 0.01 else idlest.load;
      if busiest.load / least <= p.imbalance then None
      else Some(MigrateHot(busiest.id, idlest.id, MovableIds(s, s.volumes, busiest.id)))
  }

  // ---------- growing ----------

  ghost predicate NearFull(s: Snapshot, p: Policy) {
    && (exists v :: v in s.volumes && v.state == Active)
    && forall v :: v in s.volumes && v.state == Active ==> Usage(v) > p.fullThreshold
  }

  /** Counting active and over-full volumes finds out whether any room is left. */
  method ClusterNearFull(s: Snapshot, p: Policy) returns (r: bool)
    ensures r <==> NearFull(s, p)
  {
    var active, over := 0, 0;
    for i := 0 to |s.volumes|
      invariant 0 <= over <= active
      invariant active > 0 <==> exists v :: v in s.volumes[..i] && v.state == Active
      invariant over == active <==> forall v :: v in s.volumes[..i] && v.state == Active ==> Usage(v) > p.fullThreshold
    {
      hide Usage;
      var v := s.volumes[i];
      assert s.volumes[..i + 1] == s.volumes[..i] + [v];
      if v.state == Active {
        active := active + 1;
        if Usage(v) > p.fullThreshold {
          over := over + 1;
        }
      }
    }
    assert s.volumes[..|s.volumes|] == s.volumes;
    r := active > 0 && active == over;
  }

  /** A node's zone is that of its first volume, 0 if it has none. */
  function ZoneOf(volumes: seq<VolumeRuntime>, node: string): nat {
    if volumes == [] then 0 else if volumes[0].node == node then volumes[0].zone else ZoneOf(volumes[1..], node)
  }

  function GrowZone(s: Snapshot): Option<nat> {
    var nodes := AvailableNodes(s.nodes);
    if nodes == [] then None else Some(ZoneOf(s.volumes, Idlest(nodes).id))
  }

  // ---------- the decision ----------

  ghost function Decision(s: Snapshot, p: Policy, size: nat): seq<Action> {
    DrainActions(s, p, s.volumes) + ColdActions(s, p, s.volumes)
    + (match HotAction(s, p) case Some(a) => [a] case None => [])
    + (if NearFull(s, p) && GrowZone(s).Some? then [Grow(GrowZone(s).value, size)] else [])
  }

  method CollectDrains(s: Snapshot, p: Policy) returns (actions: seq<Action>)
    ensures actions == DrainActions(s, p, s.volumes)
  {
    hide PickTarget, IsTarget;
    actions := [];
    for i := 0 to |s.volumes|
      invariant actions == DrainActions(s, p, s.volumes[..i])
    {
      var v := s.volumes[i];
      assert s.volumes[..i + 1][..i] == s.volumes[..i];
      if v.state == Draining {
        var target := PickTarget(s, p, s.volumes, None);
        if target.Some? && target.value.id != v.id {
          actions := actions + [MigrateCold(v.id, target.value.id, [])];
        }
      }
    }
    assert s.volumes[..|s.volumes|] == s.volumes;
  }

  method CollectCold(s: Snapshot, p: Policy) returns (actions: seq<Action>)
    ensures actions == ColdActions(s, p, s.volumes)
  {
    hide PickTarget, IsTarget, IsCold;
    actions := [];
    for i := 0 to |s.volumes|
      invariant actions == ColdActions(s, p, s.volumes[..i])
    {
      var v := s.volumes[i];
      assert s.volumes[..i + 1][..i] == s.volumes[..i];
      if IsCold(s, p, v) {
        var target := PickTarget(s, p, s.volumes, Some(v.id));
        if target.Some? {
          actions := actions + [MigrateCold(v.id, target.value.id, [])];
        }
      }
    }
    assert s.volumes[..|s.volumes|] == s.volumes;
  }

  /** Drain, then cold, then hot, then grow. */
  method Analyze(s: Snapshot, p: Policy, size: nat) returns (actions: seq<Action>)
    ensures actions == Decision(s, p, size)
  {
    hide DrainActions, ColdActions, HotAction, GrowZone, NearFull;
    actions := CollectDrains(s, p);
    var cold := CollectCold(s, p);
    actions := actions + cold;
    var hot := HotAction(s, p);
    if hot.Some? {
      actions := actions + [hot.value];
    }
    var full := ClusterNearFull(s, p);
    if full {
      var zone := GrowZone(s);
      if zone.Some? {
        actions := actions + [Grow(zone.value, size)];
      }
    }
  }

  // ---------- what the decision guarantees ----------

  /** The used part exceeds the given part of the whole; a volume of no size counts as used up. */
  predicate UsedAbove(v: VolumeRuntime, ratio: real) {
    if v.total == 0 then ratio < 1.0 else v.used as real > ratio * v.total as real
  }

  predicate UsedBelow(v: VolumeRuntime, ratio: real) {
    if v.total == 0 then ratio > 1.0 else (v.used as real) < ratio * v.total as real
  }

  lemma UsageMeans(v: VolumeRuntime, ratio: real)
    ensures Usage(v) > ratio <==> UsedAbove(v, ratio)
    ensures Usage(v) < ratio <==> UsedBelow(v, ratio)
  {
    if v.total != 0 {
      QuotientMeans(v.used as real, v.total as real, ratio);
    }
  }

  lemma QuotientMeans(x: real, y: real, ratio: real)
    requires y > 0.0
    ensures x / y > ratio <==> x > ratio * y
    ensures x / y < ratio <==> x < ratio * y
  {
    var q := x / y;
    assert q * y == x;
    assert q > ratio ==> q * y > ratio * y;
    assert q < ratio ==> q * y < ratio * y;
  }

  /** Every cold or drain action moves a draining or an over-full, unpinned volume with enough cold needles to the
      least used active volume with room on a node outside maintenance, which is another volume. */
  lemma ColdActionsAre(s: Snapshot, p: Policy, size: nat, a: Action)
    returns (source: VolumeRuntime, target: VolumeRuntime)
    requires a in Decision(s, p, size) && a.MigrateCold?
    ensures source in s.volumes && source.id == a.fromVolume && (source.state == Draining || IsCold(s, p, source))
    ensures target in s.volumes && target.id == a.toVolume && target.id != source.id && a.needles == []
    ensures IsTarget(s, p, target, None) &&
            forall v :: v in s.volumes && IsTarget(s, p, v, Some(source.id)) ==> Usage(target) <= Usage(v)
    ensures source.state == Draining ||
            (source.state == Active && UsedAbove(source, p.fullThreshold) && source.id !in s.pinned &&
             source.coldNeedles >= p.minChunk)
    ensures target.state == Active && UsedBelow(target, p.fullThreshold) &&
            forall n :: n in s.nodes && n.id == target.node ==> n.state != Maintenance && !n.inMaintenance
  {
    hide PickTarget, Usage, GrowZone, NearFull, HotAction, IsCold;
    HotIsHot(s, p);
    if a in DrainActions(s, p, s.volumes) {
      source :| source in s.volumes && a in DrainAction(s, p, source);
      target := PickTarget(s, p, s.volumes, None).value;
    } else {
      source :| source in s.volumes && a in ColdAction(s, p, source);
      target := PickTarget(s, p, s.volumes, Some(source.id)).value;
    }
    SourceAndTarget(s, p, source, target);
  }

  lemma SourceAndTarget(s: Snapshot, p: Policy, source: VolumeRuntime, target: VolumeRuntime)
    requires (source.state == Draining || IsCold(s, p, source)) && IsTarget(s, p, target, None)
    ensures source.state == Draining ||
            (source.state == Active && UsedAbove(source, p.fullThreshold) && source.id !in s.pinned &&
             source.coldNeedles >= p.minChunk)
    ensures target.state == Active && UsedBelow(target, p.fullThreshold)
    ensures forall n :: n in s.nodes && n.id == target.node ==> n.state != Maintenance && !n.inMaintenance
  {
    hide Usage, UsedAbove, UsedBelow;
    UsageMeans(source, p.fullThreshold);
    UsageMeans(target, p.fullThreshold);
    forall n | n in s.nodes && n.id == target.node
      ensures !Maintained(n)
    {
      assert Maintained(n) ==> n.id in MaintenanceNodes(s);
    }
  }

  /** Where an action stands: draining volumes first, then over-full ones, then hot data, then growth. */
  ghost function Precedence(s: Snapshot, a: Action): nat {
    match a
    case MigrateCold(from, _, _) => if exists v :: v in s.volumes && v.id == from && v.state == Draining then 0 else 1
    case MigrateHot(_, _, _) => 2
    case Grow(_, _) => 3
  }

  /** The actions come in order of precedence, at most one of them hot and at most one a growth. */
  lemma DecisionInOrder(s: Snapshot, p: Policy, size: nat, i: nat, j: nat)
    requires forall u, v :: u in s.volumes && v in s.volumes && u.id == v.id ==> u == v
    requires i < j < |Decision(s, p, size)|
    ensures var a, b := Decision(s, p, size)[i], Decision(s, p, size)[j];
            Precedence(s, a) <= Precedence(s, b) && (Precedence(s, a) == Precedence(s, b) ==> a.MigrateCold?)
  {
    DrainsPrecede(s, p);
    ColdsFollow(s, p);
    HotIsHot(s, p);
    hide DrainActions, ColdActions, HotAction, GrowZone, NearFull;
    var hot := match HotAction(s, p) case Some(a) => [a] case None => [];
    var growth := if NearFull(s, p) && GrowZone(s).Some? then [Grow(GrowZone(s).value, size)] else [];
    InLayers(s, DrainActions(s, p, s.volumes), ColdActions(s, p, s.volumes), hot, growth, i, j);
  }

  lemma InLayers(s: Snapshot, drains: seq<Action>, colds: seq<Action>, hot: seq<Action>, growth: seq<Action>, i: nat,
                 j: nat)
    requires forall a :: a in drains ==> a.MigrateCold? && Precedence(s, a) == 0
    requires forall a :: a in colds ==> a.MigrateCold? && Precedence(s, a) == 1
    requires |hot| <= 1 && forall a :: a in hot ==> Precedence(s, a) == 2
    requires |growth| <= 1 && forall a :: a in growth ==> Precedence(s, a) == 3
    requires i < j < |drains + colds + hot + growth|
    ensures var all := drains + colds + hot + growth;
            Precedence(s, all[i]) <= Precedence(s, all[j]) &&
            (Precedence(s, all[i]) == Precedence(s, all[j]) ==> all[i].MigrateCold?)
  {
    hide Precedence;
    var all := drains + colds + hot + growth;
    Layer(drains, colds, hot, growth, i);
    Layer(drains, colds, hot, growth, j);
  }

  lemma Layer(a: seq<Action>, b: seq<Action>, c: seq<Action>, d: seq<Action>, k: nat)
    requires k < |a + b + c + d|
    ensures var x := (a + b + c + d)[k];
            if k < |a| then x in a
            else if k < |a| + |b| then x in b
            else if k < |a| + |b| + |c| then x in c else x in d
  {}

  lemma DrainsPrecede(s: Snapshot, p: Policy)
    ensures forall a :: a in DrainActions(s, p, s.volumes) ==> a.MigrateCold? && Precedence(s, a) == 0
  {
    hide PickTarget;
  }

  lemma ColdsFollow(s: Snapshot, p: Policy)
    requires forall u, v :: u in s.volumes && v in s.volumes && u.id == v.id ==> u == v
    ensures forall a :: a in ColdActions(s, p, s.volumes) ==> a.MigrateCold? && Precedence(s, a) == 1
  {
    hide PickTarget, Usage;
  }

  lemma HotIsHot(s: Snapshot, p: Policy)
    ensures HotAction(s, p).Some? ==> HotAction(s, p).value.MigrateHot?
  {}

  /** Every draining volume and every over-full, unpinned volume with enough cold needles is acted on whenever a
      target exists. */
  lemma NothingOverlooked(s: Snapshot, p: Policy, size: nat, v: VolumeRuntime, target: VolumeRuntime)
    returns (a: Action)
    requires v in s.volumes && forall u :: u in s.volumes && u.id == v.id ==> u == v
    requires v.state == Draining ||
             (v.state == Active && UsedAbove(v, p.fullThreshold) && v.id !in s.pinned && v.coldNeedles >= p.minChunk)
    requires target in s.volumes && target.id != v.id && target.state == Active && UsedBelow(target, p.fullThreshold)
    requires forall n :: n in s.nodes && n.id == target.node ==> n.state != Maintenance && !n.inMaintenance
    ensures a in Decision(s, p, size) && a.MigrateCold? && a.fromVolume == v.id
  {
    UsageMeans(v, p.fullThreshold);
    UsageMeans(target, p.fullThreshold);
    assert IsTarget(s, p, target, Some(v.id)) && (v.state == Draining || IsCold(s, p, v));
    hide PickTarget, Usage, GrowZone, NearFull, HotAction, IsCold, UsedAbove, UsedBelow;
    if v.state == Draining {
      assert IsTarget(s, p, target, None);
      a := MigrateCold(v.id, PickTarget(s, p, s.volumes, None).value.id, []);
      assert a in DrainAction(s, p, v);
    } else {
      a := MigrateCold(v.id, PickTarget(s, p, s.volumes, Some(v.id)).value.id, []);
      assert a in ColdAction(s, p, v);
    }
  }

  /** A cluster without room has nowhere to move data: no drain and no cold action. */
  lemma NearFullMovesNothing(s: Snapshot, p: Policy, size: nat, a: Action)
    requires NearFull(s, p) && a in Decision(s, p, size)
    ensures !a.MigrateCold?
  {
    if a.MigrateCold? {
      var _, target := ColdActionsAre(s, p, size, a);
      assert false;
    }
  }

  /** No pinned active volume leaves its node: not as the source of a cold action, nor listed in a hot one. */
  lemma PinsHold(s: Snapshot, p: Policy, size: nat, a: Action, v: VolumeRuntime)
    requires a in Decision(s, p, size) && v in s.volumes && v.state == Active && v.id in s.pinned
    requires forall u :: u in s.volumes && u.id == v.id ==> u == v
    ensures a.MigrateCold? ==> a.fromVolume != v.id
    ensures a.MigrateHot? ==> v.id !in a.volumes
  {
    hide PickTarget, Usage, GrowZone, NearFull;
    if a.MigrateCold? {
      var source, _ := ColdActionsAre(s, p, size, a);
    } else if a.MigrateHot? {
      HotActionIs(s, p, size, a);
    }
  }

  lemma HotActionIs(s: Snapshot, p: Policy, size: nat, a: Action)
    requires a in Decision(s, p, size) && a.MigrateHot?
    ensures HotAction(s, p) == Some(a)
    ensures exists n :: n in s.nodes && Available(n) && n.id == a.toNode
    ensures exists n :: n in s.nodes && Available(n) && n.id == a.fromNode
    ensures forall id :: id in a.volumes <==>
              exists v :: v in s.volumes && v.state == Active && v.node == a.fromNode && v.id == id && id !in s.pinned
  {
    hide PickTarget, Usage, GrowZone, NearFull, IsTarget, IsCold, Available;
    MovableAre(s, s.volumes, a.fromNode);
  }

  lemma MovableAre(s: Snapshot, volumes: seq<VolumeRuntime>, node: string)
    ensures forall id :: id in MovableIds(s, volumes, node) <==>
              exists v :: v in volumes && v.state == Active && v.node == node && v.id == id && id !in s.pinned
  {
    hide MovableIds;
    forall id | id in MovableIds(s, volumes, node)
      ensures exists v :: v in volumes && v.state == Active && v.node == node && v.id == id && id !in s.pinned
    {
      var v :| v in volumes && Movable(s, v, node) && v.id == id;
    }
    forall v | v in volumes && v.state == Active && v.node == node && v.id !in s.pinned
      ensures v.id in MovableIds(s, volumes, node)
    {
      assert Movable(s, v, node);
    }
  }

  /** One load is more than so many times another, where anything under a hundredth counts as a hundredth. */
  predicate Outweighs(load: real, other: real, times: real) {
    load > times * (if other < 0.01 then 0.01 else other)
  }

  lemma HotWhen(s: Snapshot, p: Policy)
    ensures var nodes := AvailableNodes(s.nodes);
            && (HotAction(s, p).Some? <==>
                |nodes| >= 2 && Outweighs(Busiest(nodes).load, Idlest(nodes).load, p.imbalance))
            && (HotAction(s, p).Some? ==>
                var a := HotAction(s, p).value;
                a.MigrateHot? && a.fromNode == Busiest(nodes).id && a.toNode == Idlest(nodes).id)
  {
    hide AvailableNodes, Busiest, Idlest, MovableIds;
    var nodes := AvailableNodes(s.nodes);
    if |nodes| >= 2 {
      var low := Idlest(nodes).load;
      QuotientMeans(Busiest(nodes).load, if low < 0.01 then 0.01 else low, p.imbalance);
    }
  }

  /** Of two available nodes that bound the load of all the others, the busiest outweighs the idlest by more than the
      policy allows. */
  ghost predicate Imbalanced(s: Snapshot, p: Policy, busiest: NodeRuntime, idlest: NodeRuntime) {
    && busiest in s.nodes && busiest.state == Healthy && !busiest.inMaintenance
    && idlest in s.nodes && idlest.state == Healthy && !idlest.inMaintenance
    && (forall n :: n in s.nodes && n.state == Healthy && !n.inMaintenance ==> idlest.load <= n.load <= busiest.load)
    && Outweighs(busiest.load, idlest.load, p.imbalance)
  }

  /** A hot action is decided only between two of at least two available nodes that are imbalanced ... */
  lemma HotNeeds(s: Snapshot, p: Policy, size: nat, a: Action)
    returns (busiest: NodeRuntime, idlest: NodeRuntime, i: nat, j: nat)
    requires a in Decision(s, p, size) && a.MigrateHot?
    ensures Imbalanced(s, p, busiest, idlest) && a.fromNode == busiest.id && a.toNode == idlest.id
    ensures i < j < |s.nodes| && Available(s.nodes[i]) && Available(s.nodes[j])
  {
    hide Decision, HotAction, Outweighs;
    HotActionIs(s, p, size, a);
    HotWhen(s, p);
    var nodes := AvailableNodes(s.nodes);
    busiest, idlest := Busiest(nodes), Idlest(nodes);
    i, j := TwoOf(s.nodes);
  }

  /** ... and whenever two such nodes are imbalanced. */
  lemma HotFollows(s: Snapshot, p: Policy, size: nat, busiest: NodeRuntime, idlest: NodeRuntime, i: nat, j: nat)
    returns (a: Action)
    requires Imbalanced(s, p, busiest, idlest)
    requires i < j < |s.nodes| && Available(s.nodes[i]) && Available(s.nodes[j])
    ensures a in Decision(s, p, size) && a.MigrateHot?
  {
    hide DrainActions, ColdActions, NearFull, GrowZone, HotAction, Outweighs;
    HotWhen(s, p);
    TwoAvailable(s.nodes, i, j);
    var nodes := AvailableNodes(s.nodes);
    assert busiest in nodes && idlest in nodes;
    assert Busiest(nodes).load == busiest.load && Idlest(nodes).load == idlest.load;
    a := HotAction(s, p).value;
  }

  lemma {:induction false} TwoAvailable(nodes: seq<NodeRuntime>, i: nat, j: nat)
    requires i < j < |nodes| && Available(nodes[i]) && Available(nodes[j])
    ensures |AvailableNodes(nodes)| >= 2
  {
    hide Available;
    if i == 0 {
      assert nodes[j] == nodes[1..][j - 1] && nodes[j] in AvailableNodes(nodes[1..]);
    } else {
      TwoAvailable(nodes[1..], i - 1, j - 1);
    }
  }

  lemma {:induction false} TwoOf(nodes: seq<NodeRuntime>) returns (i: nat, j: nat)
    requires |AvailableNodes(nodes)| >= 2
    ensures i < j < |nodes| && Available(nodes[i]) && Available(nodes[j])
  {
    hide Available;
    var rest := AvailableNodes(nodes[1..]);
    if |rest| >= 2 {
      i, j := TwoOf(nodes[1..]);
      i, j := i + 1, j + 1;
    } else {
      assert rest[0] in nodes[1..];
      var k :| 0 <= k < |nodes[1..]| && nodes[1..][k] == rest[0];
      i, j := 0, k + 1;
    }
  }

  /** The zone a node is in: that of its first volume, 0 when it has none. */
  ghost predicate InZone(volumes: seq<VolumeRuntime>, node: string, zone: nat) {
    || (zone == 0 && forall i :: 0 <= i < |volumes| ==> volumes[i].node != node)
    || exists i :: 0 <= i < |volumes| && volumes[i].node == node && volumes[i].zone == zone &&
                   forall j :: 0 <= j < i ==> volumes[j].node != node
  }

  lemma {:induction false} ZoneIs(volumes: seq<VolumeRuntime>, node: string)
    ensures InZone(volumes, node, ZoneOf(volumes, node))
  {
    if volumes != [] && volumes[0].node != node {
      ZoneIs(volumes[1..], node);
      assert forall i :: 0 < i < |volumes| ==> volumes[i] == volumes[1..][i - 1];
      var rest := volumes[1..];
      if i :| 0 <= i < |rest| && rest[i].node == node && rest[i].zone == ZoneOf(volumes, node) &&
              forall j :: 0 <= j < i ==> rest[j].node != node {
        assert volumes[i + 1].node == node;
      }
    }
  }

  /** A growth is asked for exactly when every active volume is over-full, there is one, and a node is available; it
      goes to the zone of the idlest available node. */
  lemma GrowthIs(s: Snapshot, p: Policy, size: nat)
    ensures (exists a :: a in Decision(s, p, size) && a.Grow?) <==>
            && (exists v :: v in s.volumes && v.state == Active)
            && (forall v :: v in s.volumes && v.state == Active ==> UsedAbove(v, p.fullThreshold))
            && (exists n :: n in s.nodes && n.state == Healthy && !n.inMaintenance)
    ensures forall a :: a in Decision(s, p, size) && a.Grow? ==>
              a.size == size && exists n :: IdlestOf(s, n) && InZone(s.volumes, n.id, a.zone)
  {
    hide DrainActions, ColdActions, HotAction, Idlest, ZoneOf, Usage, UsedAbove, InZone;
    HotIsHot(s, p);
    assert forall a :: a in DrainActions(s, p, s.volumes) || a in ColdActions(s, p, s.volumes) ==> a.MigrateCold? by {
      ColdIsCold(s, p);
    }
    forall v | v in s.volumes
      ensures Usage(v) > p.fullThreshold <==> UsedAbove(v, p.fullThreshold)
    {
      UsageMeans(v, p.fullThreshold);
    }
    var nodes := AvailableNodes(s.nodes);
    if nodes != [] {
      var n := Idlest(nodes);
      assert IdlestOf(s, n);
      ZoneIs(s.volumes, n.id);
      assert NearFull(s, p) ==> Grow(GrowZone(s).value, size) in Decision(s, p, size);
    }
    assert nodes != [] ==> nodes[0] in s.nodes && Available(nodes[0]);
  }

  ghost predicate IdlestOf(s: Snapshot, n: NodeRuntime) {
    && n in s.nodes && n.state == Healthy && !n.inMaintenance
    && forall m :: m in s.nodes && m.state == Healthy && !m.inMaintenance ==> n.load <= m.load
  }

  lemma ColdIsCold(s: Snapshot, p: Policy)
    ensures forall a :: a in DrainActions(s, p, s.volumes) || a in ColdActions(s, p, s.volumes) ==> a.MigrateCold?
  {
    hide PickTarget, IsCold;
  }
}
