/** Placing the chunks of a striped file: one volume per node and pass, until enough are picked. */
module StripePlacement {
  import opened Bytes
  import opened Options

  datatype VolumeView = VolumeView(volume: nat, node: string)

  datatype ZoneView = ZoneView(zone: nat, volumes: seq<VolumeView>)

  datatype Pick = Pick(volume: nat, zone: nat, node: string)

  datatype Group = Group(node: string, entries: seq<Pick>)

  // ---------- collecting ----------

  ghost function InZone(zone: nat, volumes: seq<VolumeView>): (r: seq<Pick>)
    ensures |r| == |volumes| && forall i :: 0 <= i < |r| ==> r[i] == Pick(volumes[i].volume, zone, volumes[i].node)
  {
    seq(|volumes|, i requires 0 <= i < |volumes| => Pick(volumes[i].volume, zone, volumes[i].node))
  }

  /** Every volume of every zone, zone by zone. */
  ghost function AllVolumes(zones: seq<ZoneView>): seq<Pick>
    decreases |zones|
  {
    if zones == [] then []
    else AllVolumes(zones[..|zones| - 1]) + InZone(zones[|zones| - 1].zone, zones[|zones| - 1].volumes)
  }

  method Collect(zones: seq<ZoneView>) returns (all: seq<Pick>)
    ensures all == AllVolumes(zones)
  {
    all := [];
    for i := 0 to |zones|
      invariant all == AllVolumes(zones[..i])
    {
      var z := zones[i];
      assert zones[..i + 1][..i] == zones[..i];
      ghost var before := all;
      for j := 0 to |z.volumes|
        invariant all == before + InZone(z.zone, z.volumes)[..j]
      {
        all := all + [Pick(z.volumes[j].volume, z.zone, z.volumes[j].node)];
      }
      assert InZone(z.zone, z.volumes)[..|z.volumes|] == InZone(z.zone, z.volumes);
    }
    assert zones[..|zones|] == zones;
  }

  /** Exactly the volumes of the zones take part, each with its own zone and node. */
  lemma {:induction false} EveryVolume(zones: seq<ZoneView>, p: Pick)
    ensures p in AllVolumes(zones) <==>
            exists z, v :: z in zones && v in z.volumes && p == Pick(v.volume, z.zone, v.node)
    decreases |zones|
  {
    if zones != [] {
      var init, last := zones[..|zones| - 1], zones[|zones| - 1];
      EveryVolume(init, p);
      assert forall z :: z in zones <==> z in init || z == last;
      var these := InZone(last.zone, last.volumes);
      if p in these {
        var i :| 0 <= i < |these| && these[i] == p;
        assert last.volumes[i] in last.volumes;
      }
      if v :| v in last.volumes && p == Pick(v.volume, last.zone, v.node) {
        var i :| 0 <= i < |last.volumes| && last.volumes[i] == v;
        assert these[i] == p;
      }
    }
  }

  // ---------- grouping ----------

  /** The entries on one node, in order. */
  ghost function OfNode(s: seq<Pick>, node: string): seq<Pick>
    decreases |s|
  {
    if s == [] then [] else OfNode(s[..|s| - 1], node) + if s[|s| - 1].node == node then [s[|s| - 1]] else []
  }

  lemma OfNodePush(s: seq<Pick>, e: Pick, node: string)
    ensures OfNode(s + [e], node) == OfNode(s, node) + if e.node == node then [e] else []
  {}

  lemma {:induction false} OfNodeAre(s: seq<Pick>, node: string)
    ensures forall e :: e in OfNode(s, node) <==> e in s && e.node == node
    decreases |s|
  {
    if s != [] {
      OfNodeAre(s[..|s| - 1], node);
      assert s == s[..|s| - 1] + [s[|s| - 1]];
    }
  }

  lemma {:induction false} NoneOf(s: seq<Pick>, node: string)
    requires forall e :: e in s ==> e.node != node
    ensures OfNode(s, node) == []
    decreases |s|
  {
    if s != [] {
      assert s[|s| - 1] in s;
      NoneOf(s[..|s| - 1], node);
    }
  }

  lemma {:induction false} OfNodeCounts(s: seq<Pick>, e: Pick)
    ensures multiset(OfNode(s, e.node))[e] == multiset(s)[e]
    decreases |s|
  {
    if s != [] {
      OfNodeCounts(s[..|s| - 1], e);
      assert s == s[..|s| - 1] + [s[|s| - 1]];
    }
  }

  /** Each node once, with all its entries in order. */
  ghost predicate Grouped(all: seq<Pick>, groups: seq<Group>) {
    && (forall i, j :: 0 <= i < j < |groups| ==> groups[i].node != groups[j].node)
    && (forall i :: 0 <= i < |groups| ==> groups[i].entries == OfNode(all, groups[i].node) && groups[i].entries != [])
    && Covered(all, groups)
  }

  ghost predicate Covered(all: seq<Pick>, groups: seq<Group>) {
    forall e :: e in all ==> exists i :: 0 <= i < |groups| && groups[i].node == e.node
  }

  lemma CoveredPush(all: seq<Pick>, groups: seq<Group>, e: Pick, after: seq<Group>, i: nat)
    requires Covered(all, groups) && |groups| <= |after| && i < |after| && after[i].node == e.node
    requires forall j :: 0 <= j < |groups| ==> after[j].node == groups[j].node
    ensures Covered(all + [e], after)
  {}

  lemma GroupsPush(all: seq<Pick>, groups: seq<Group>, i: nat, e: Pick)
    requires Grouped(all, groups) && i < |groups| && groups[i].node == e.node
    ensures Grouped(all + [e], groups[i := Group(e.node, groups[i].entries + [e])])
  {
    hide OfNode, Covered;
    var after := groups[i := Group(e.node, groups[i].entries + [e])];
    forall j | 0 <= j < |groups|
      ensures after[j].entries == OfNode(all + [e], after[j].node)
    {
      OfNodePush(all, e, groups[j].node);
    }
    CoveredPush(all, groups, e, after, i);
  }

  lemma GroupsGrow(all: seq<Pick>, groups: seq<Group>, e: Pick)
    requires Grouped(all, groups) && forall i :: 0 <= i < |groups| ==> groups[i].node != e.node
    ensures Grouped(all + [e], groups + [Group(e.node, [e])])
  {
    NoneOf(all, e.node);
    hide OfNode, Covered;
    var after := groups + [Group(e.node, [e])];
    forall j | 0 <= j < |after|
      ensures after[j].entries == OfNode(all + [e], after[j].node) && after[j].entries != []
    {
      OfNodePush(all, e, after[j].node);
    }
    CoveredPush(all, groups, e, after, |groups|);
  }

  /** Group by node; a map remembers where each node's group is. */
  method GroupByNode(all: seq<Pick>) returns (groups: seq<Group>)
    ensures Grouped(all, groups)
  {
    hide Grouped, OfNode;
    groups := [];
    var where: map<string, nat> := map[];
    NoGroups();
    for k := 0 to |all|
      invariant Grouped(all[..k], groups)
      invariant forall i :: 0 <= i < |groups| ==> groups[i].node in where && where[groups[i].node] == i
      invariant forall n :: n in where ==> where[n] < |groups| && groups[where[n]].node == n
    {
      var e := all[k];
      assert all[..k + 1] == all[..k] + [e];
      if e.node !in where {
        GroupsGrow(all[..k], groups, e);
        where := where[e.node := |groups|];
        groups := groups + [Group(e.node, [e])];
      } else {
        var i := where[e.node];
        GroupsPush(all[..k], groups, i, e);
        groups := groups[i := Group(e.node, groups[i].entries + [e])];
      }
    }
    assert all[..|all|] == all;
  }

  lemma NoGroups()
    ensures Grouped([], [])
  {}

  // ---------- picking ----------

  /** Picks and remainders make up each group, in order. */
  ghost predicate Divided(groups: seq<Group>, picks: seq<Pick>, rest: seq<Group>) {
    && |rest| == |groups|
    && (forall i :: 0 <= i < |groups| ==> rest[i].node == groups[i].node)
    && (forall i :: 0 <= i < |groups| ==> OfNode(picks, groups[i].node) + rest[i].entries == groups[i].entries)
  }

  /** In the middle of a pass each group has given one entry per pass, as long as it had any. */
  ghost predicate Even(groups: seq<Group>, picks: seq<Pick>, round: nat, next: nat) {
    forall i :: 0 <= i < |groups| ==>
      |OfNode(picks, groups[i].node)| == Min(if i < next then round + 1 else round, |groups[i].entries|)
  }

  /** The first pass takes one entry from every group in turn. */
  ghost predicate Opened(groups: seq<Group>, picks: seq<Pick>, round: nat, next: nat) {
    && (if round == 0 then |picks| == next else |picks| >= |groups|)
    && (forall i :: 0 <= i < |picks| && i < |groups| ==> picks[i].node == groups[i].node)
  }

  ghost predicate Dealt(all: seq<Pick>, groups: seq<Group>, picks: seq<Pick>, rest: seq<Group>, round: nat, next: nat) {
    && next <= |groups| && (forall e :: e in picks ==> e in all)
    && Divided(groups, picks, rest) && Even(groups, picks, round, next) && Opened(groups, picks, round, next)
  }

  lemma DealtStarts(all: seq<Pick>, groups: seq<Group>)
    ensures Dealt(all, groups, [], groups, 0, 0)
  {}

  lemma DealtRound(all: seq<Pick>, groups: seq<Group>, picks: seq<Pick>, rest: seq<Group>, round: nat)
    requires Dealt(all, groups, picks, rest, round, |groups|)
    ensures Dealt(all, groups, picks, rest, round + 1, 0)
  {}

  /** What one group has given and still holds. */
  lemma GroupAt(all: seq<Pick>, groups: seq<Group>, picks: seq<Pick>, rest: seq<Group>, round: nat, g: nat)
    requires Dealt(all, groups, picks, rest, round, g) && Grouped(all, groups) && g < |groups|
    ensures var taken := |OfNode(picks, groups[g].node)|;
            && rest[g].node == groups[g].node && taken == Min(round, |groups[g].entries|) &&
               taken + |rest[g].entries| == |groups[g].entries| > 0
            && (rest[g].entries != [] ==> rest[g].entries[0] in all && rest[g].entries[0].node == groups[g].node)
  {
    OfNodeAre(all, groups[g].node);
    hide OfNode;
    if rest[g].entries != [] {
      var taken := |OfNode(picks, groups[g].node)|;
      assert (OfNode(picks, groups[g].node) + rest[g].entries)[taken] == rest[g].entries[0];
      assert rest[g].entries[0] in groups[g].entries;
    }
  }

  lemma EvenSkip(groups: seq<Group>, picks: seq<Pick>, round: nat, g: nat)
    requires Even(groups, picks, round, g) && g < |groups| && |OfNode(picks, groups[g].node)| == |groups[g].entries|
    ensures Even(groups, picks, round, g + 1)
  {}

  /** The next group has nothing left. */
  lemma DealtSkip(all: seq<Pick>, groups: seq<Group>, picks: seq<Pick>, rest: seq<Group>, round: nat, g: nat)
    requires Dealt(all, groups, picks, rest, round, g) && Grouped(all, groups) && g < |groups| && rest[g].entries == []
    ensures Dealt(all, groups, picks, rest, round, g + 1)
  {
    GroupAt(all, groups, picks, rest, round, g);
    EvenSkip(groups, picks, round, g);
    hide OfNode, Divided, Even, Grouped;
  }

  lemma EvenPick(groups: seq<Group>, picks: seq<Pick>, round: nat, g: nat, e: Pick)
    requires Even(groups, picks, round, g) && g < |groups| && e.node == groups[g].node
    requires |OfNode(picks, groups[g].node)| == round < |groups[g].entries|
    requires forall i, j :: 0 <= i < j < |groups| ==> groups[i].node != groups[j].node
    ensures Even(groups, picks + [e], round, g + 1)
  {}

  lemma DividedPick(groups: seq<Group>, picks: seq<Pick>, rest: seq<Group>, g: nat, e: Pick)
    requires Divided(groups, picks, rest) && g < |groups| && rest[g].entries != [] && e == rest[g].entries[0] &&
             e.node == groups[g].node
    requires forall i, j :: 0 <= i < j < |groups| ==> groups[i].node != groups[j].node
    ensures Divided(groups, picks + [e], rest[g := Group(rest[g].node, rest[g].entries[1..])])
  {}

  /** The next group gives its first entry. */
  lemma DealtPick(all: seq<Pick>, groups: seq<Group>, picks: seq<Pick>, rest: seq<Group>, round: nat, g: nat)
    requires Dealt(all, groups, picks, rest, round, g) && Grouped(all, groups) && g < |groups| && rest[g].entries != []
    ensures Dealt(all, groups, picks + [rest[g].entries[0]], rest[g := Group(rest[g].node, rest[g].entries[1..])],
                  round, g + 1)
  {
    var e := rest[g].entries[0];
    GroupAt(all, groups, picks, rest, round, g);
    EvenPick(groups, picks, round, g, e);
    DividedPick(groups, picks, rest, g, e);
    hide OfNode, Divided, Even, Grouped;
  }

  /** What the caller gets: as many picks as asked for or available, no entry twice, the first ones on different
      nodes, every node's volumes in order, and no node ahead of another by more than one unless the other is
      used up. */
  ghost predicate Fair(all: seq<Pick>, picks: seq<Pick>, count: nat) {
    && |picks| == Min(count, |all|) && multiset(picks) <= multiset(all)
    && (forall i, j :: 0 <= i < j < |picks| && j < |Nodes(all)| ==> picks[i].node != picks[j].node)
    && (forall node :: OfNode(picks, node) <= OfNode(all, node))
    && (forall a, b :: |OfNode(picks, b)| <= |OfNode(picks, a)| + 1 || OfNode(picks, a) == OfNode(all, a))
  }

  ghost function Nodes(s: seq<Pick>): set<string> {
    set e | e in s :: e.node
  }

  ghost function GroupNodes(groups: seq<Group>): set<string> {
    set i | 0 <= i < |groups| :: groups[i].node
  }

  lemma {:induction false} GroupNodesCount(groups: seq<Group>)
    requires forall i, j :: 0 <= i < j < |groups| ==> groups[i].node != groups[j].node
    ensures |GroupNodes(groups)| == |groups|
    decreases |groups|
  {
    if groups == [] {
      assert GroupNodes(groups) == {};
    } else {
      var init, last := groups[..|groups| - 1], groups[|groups| - 1].node;
      GroupNodesCount(init);
      assert last !in GroupNodes(init);
      forall n | n in GroupNodes(init)
        ensures n in GroupNodes(groups)
      {
        var i :| 0 <= i < |init| && init[i].node == n;
        assert groups[i].node == n;
      }
      assert GroupNodes(groups) == GroupNodes(init) + {last};
    }
  }

  lemma OneGroupPerNode(all: seq<Pick>, groups: seq<Group>)
    requires Grouped(all, groups)
    ensures |groups| == |Nodes(all)|
  {
    GroupNodesCount(groups);
    forall i | 0 <= i < |groups|
      ensures groups[i].node in Nodes(all)
    {
      OfNodeAre(all, groups[i].node);
      assert groups[i].entries[0] in all;
    }
    assert GroupNodes(groups) == Nodes(all);
  }

  lemma NoPicks(all: seq<Pick>)
    ensures Fair(all, [], 0)
  {}

  lemma PerNode(all: seq<Pick>, groups: seq<Group>, picks: seq<Pick>, rest: seq<Group>, round: nat, next: nat,
                node: string)
    requires Dealt(all, groups, picks, rest, round, next) && Grouped(all, groups)
    ensures OfNode(picks, node) <= OfNode(all, node)
    ensures |OfNode(picks, node)| <= round + 1
    ensures |OfNode(picks, node)| >= round || OfNode(picks, node) == OfNode(all, node)
    ensures (forall i :: 0 <= i < |groups| ==> rest[i].entries == []) ==> OfNode(picks, node) == OfNode(all, node)
  {
    hide OfNode;
    if i :| 0 <= i < |groups| && groups[i].node == node {
      assert OfNode(picks, node) + rest[i].entries == OfNode(all, node);
    } else {
      forall e | e in all
        ensures e.node != node
      {
        var i :| 0 <= i < |groups| && groups[i].node == e.node;
      }
      NoneOf(all, node);
      NoneOf(picks, node);
    }
  }

  lemma PrefixCounts(p: seq<Pick>, s: seq<Pick>, e: Pick)
    requires p <= s
    ensures multiset(p)[e] <= multiset(s)[e]
  {
    assert s == p + s[|p|..];
  }

  lemma PicksWithin(all: seq<Pick>, picks: seq<Pick>, count: nat)
    requires forall node :: OfNode(picks, node) <= OfNode(all, node)
    requires |picks| == count || (|picks| < count && forall node :: OfNode(picks, node) == OfNode(all, node))
    ensures |picks| == Min(count, |all|) && multiset(picks) <= multiset(all)
  {
    hide OfNode;
    forall e: Pick
      ensures multiset(picks)[e] <= multiset(all)[e] && (|picks| < count ==> multiset(picks)[e] == multiset(all)[e])
    {
      OfNodeCounts(picks, e);
      OfNodeCounts(all, e);
      PrefixCounts(OfNode(picks, e.node), OfNode(all, e.node), e);
    }
    Sizes(picks, all);
    if |picks| < count {
      assert multiset(picks) == multiset(all);
    }
  }

  lemma DealtIsFair(all: seq<Pick>, groups: seq<Group>, picks: seq<Pick>, rest: seq<Group>, round: nat, next: nat,
                    count: nat)
    requires Dealt(all, groups, picks, rest, round, next) && Grouped(all, groups)
    requires |picks| == count || (|picks| < count && forall i :: 0 <= i < |groups| ==> rest[i].entries == [])
    ensures Fair(all, picks, count)
  {
    hide OfNode, Divided, Even;
    OneGroupPerNode(all, groups);
    forall node: string
      ensures OfNode(picks, node) <= OfNode(all, node)
      ensures |OfNode(picks, node)| <= round + 1
      ensures |OfNode(picks, node)| >= round || OfNode(picks, node) == OfNode(all, node)
      ensures |picks| < count ==> OfNode(picks, node) == OfNode(all, node)
    {
      PerNode(all, groups, picks, rest, round, next, node);
    }
    PicksWithin(all, picks, count);
  }

  lemma Sizes(p: seq<Pick>, s: seq<Pick>)
    ensures multiset(p) <= multiset(s) ==> |p| <= |s|
    ensures multiset(p) == multiset(s) ==> |p| == |s|
  {
    assert |multiset(p)| == |p| && |multiset(s)| == |s|;
    if multiset(p) <= multiset(s) {
      assert multiset(s) == multiset(p) + (multiset(s) - multiset(p));
    }
  }

  method Deal(all: seq<Pick>, groups: seq<Group>, count: nat) returns (picks: seq<Pick>)
    requires Grouped(all, groups) && count > 0
    ensures Fair(all, picks, count)
  {
    hide Grouped, Dealt, Fair, OfNode;
    picks := [];
    var rest := groups;
    ghost var round := 0;
    DealtStarts(all, groups);
    while true
      invariant |rest| == |groups| && |picks| < count
      invariant Dealt(all, groups, picks, rest, round, 0)
      decreases count - |picks|
    {
      var picked := false;
      var g := 0;
      ghost var before := picks;
      while g < |rest| && |picks| < count
        invariant 0 <= g <= |rest| == |groups| && |picks| <= count && |before| <= |picks| &&
                  (picked ==> |before| < |picks|)
        invariant Dealt(all, groups, picks, rest, round, g)
        invariant !picked ==> picks == before && forall i :: 0 <= i < g ==> rest[i].entries == []
      {
        if rest[g].entries != [] {
          DealtPick(all, groups, picks, rest, round, g);
          picks := picks + [rest[g].entries[0]];
          rest := rest[g := Group(rest[g].node, rest[g].entries[1..])];
          picked := true;
        } else {
          DealtSkip(all, groups, picks, rest, round, g);
        }
        g := g + 1;
      }
      if !picked || |picks| >= count {
        DealtIsFair(all, groups, picks, rest, round, g, count);
        return;
      }
      DealtRound(all, groups, picks, rest, round);
      round := round + 1;
    }
  }

  method PickForStripeFile(zones: seq<ZoneView>, count: nat) returns (r: Option<seq<Pick>>)
    ensures r.None? <==> count > 0 && AllVolumes(zones) == []
    ensures r.Some? ==> Fair(AllVolumes(zones), r.value, count)
  {
    hide Grouped, Fair;
    if count == 0 {
      NoPicks(AllVolumes(zones));
      return Some([]);
    }
    var all := Collect(zones);
    if all == [] {
      return None;
    }
    var groups := GroupByNode(all);
    var picks := Deal(all, groups, count);
    r := Some(picks);
  }
}
