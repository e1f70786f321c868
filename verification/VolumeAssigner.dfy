/** Choosing the nodes of a new volume: eligible nodes by score, spread over racks or data centers. */
module VolumeAssigner {
  import opened Bytes
  import opened Options
  import opened Sets

  datatype NodeState = Init | Ready | Healthy | SoftError | FailSlow | Degraded | Fault | Maintenance | Unavailable

  datatype Node = Node(id: string, rack: string, dataCenter: string, total: nat, used: nat, volumes: nat,
                       state: NodeState, maintenance: bool, severity: nat)

  datatype Context = Context(rackAware: bool, dataCenterAware: bool, preferred: Option<string>)

  predicate Assignable(s: NodeState) {
    s.Ready? || s.Healthy? || s.SoftError? || s.FailSlow?
  }

  predicate Eligible(n: Node) {
    !n.maintenance && Assignable(n.state)
  }

  // ---------- scoring ----------

  function StateFactor(n: Node): (r: real)
    requires Assignable(n.state)
    ensures 0.5 <= r <= 1.0
  {
    match n.state
    case Healthy => 1.0
    case Ready => 0.9
    case SoftError => 0.6
    case FailSlow =>
      var severity := Min(n.severity, 100) as real;
      1.0 - (severity / 100.0) * 0.5
  }

  function Clamp(x: real): (r: real)
    ensures 0.0 <= r <= 1.0
  {
    if x < 0.0 then 0.0 else if x > 1.0 then 1.0 else x
  }

  function CapacityFactor(n: Node): (r: real)
    ensures 0.5 <= r <= 1.0
  {
    if n.total > 0 then 0.5 + 0.5 * Clamp(1.0 - n.used as real / n.total as real) else 0.5
  }

  function LoadFactor(n: Node): (r: real)
    ensures 0.7 <= r <= 1.0
  {
    if n.volumes > 0 then
      var d := 1.0 + n.volumes as real * 0.01;
      assert 0.0 <= 0.3 / d <= 0.3 by { Fraction(d); }
      0.7 + 0.3 / d
    else 1.0
  }

  lemma Fraction(d: real)
    requires d >= 1.0
    ensures 0.0 <= 0.3 / d <= 0.3
  {}

  /** Exactly the eligible nodes have a score, and it is a positive weight. */
  function Score(n: Node): (r: Option<real>)
    ensures r.Some? <==> Eligible(n)
    ensures Eligible(n) <==>
            !n.maintenance && (n.state.Ready? || n.state.Healthy? || n.state.SoftError? || n.state.FailSlow?)
    ensures r.Some? ==> 0.0 < r.value <= 1.0
  {
    if n.maintenance || !Assignable(n.state) then None
    else
      var a, b, c := StateFactor(n), CapacityFactor(n), LoadFactor(n);
      Products(a, b, c);
      Some(Combined(a, b, c))
  }

  function Combined(a: real, b: real, c: real): real {
    a * b * c
  }

  lemma Products(a: real, b: real, c: real)
    requires 0.0 < a <= 1.0 && 0.0 < b <= 1.0 && 0.0 < c <= 1.0
    ensures 0.0 < Combined(a, b, c) <= 1.0
  {
    assert 0.0 < a * b <= b;
    var d := a * b;
    assert 0.0 < d * c <= c;
  }

  function Scored(nodes: seq<Node>): (r: seq<Node>)
    ensures forall n :: n in r <==> n in nodes && Eligible(n)
  {
    hide Score, Eligible;
    if nodes == [] then []
    else
      var rest := Scored(nodes[1..]);
      assert nodes == [nodes[0]] + nodes[1..];
      if Eligible(nodes[0]) then [nodes[0]] + rest else rest
  }

  function Weight(n: Node): real {
    var s := Score(n);
    if s.Some? then s.value else 0.0
  }

  // ---------- what a score prefers ----------

  predicate SameState(m: Node, n: Node) {
    m.state == n.state && (m.state.FailSlow? ==> Min(m.severity, 100) == Min(n.severity, 100))
  }

  /** Healthy before ready before soft errors, and of two slow nodes the less severe; severities end at 100. */
  predicate BetterState(m: Node, n: Node) {
    || (m.state.Healthy? && (n.state.Ready? || n.state.SoftError?))
    || (m.state.Ready? && n.state.SoftError?)
    || (m.state.FailSlow? && n.state.FailSlow? && m.severity < 100 && m.severity < n.severity)
  }

  /** The free part of the whole, where a node of no size or filled past its size has none. */
  predicate HasRoom(n: Node) {
    n.used < n.total
  }

  predicate AsFree(m: Node, n: Node) {
    if HasRoom(m) then HasRoom(n) && m.used * n.total == n.used * m.total else !HasRoom(n)
  }

  predicate Freer(m: Node, n: Node) {
    HasRoom(m) && (HasRoom(n) ==> m.used * n.total < n.used * m.total)
  }

  /** No worse in state, free part and number of volumes, and better in one of them. */
  predicate Outdoes(m: Node, n: Node) {
    && (BetterState(m, n) || SameState(m, n)) && (Freer(m, n) || AsFree(m, n)) && m.volumes <= n.volumes
    && (BetterState(m, n) || Freer(m, n) || m.volumes < n.volumes)
  }

  lemma StateOrder(m: Node, n: Node)
    requires Assignable(m.state) && Assignable(n.state)
    ensures BetterState(m, n) ==> StateFactor(m) > StateFactor(n)
    ensures SameState(m, n) ==> StateFactor(m) == StateFactor(n)
  {}

  lemma FreePart(n: Node)
    ensures !HasRoom(n) ==> CapacityFactor(n) == 0.5
    ensures HasRoom(n) ==> 0.5 < CapacityFactor(n) == 1.0 - 0.5 * (n.used as real / n.total as real)
  {
    if n.total > 0 {
      var q := n.used as real / n.total as real;
      assert q * n.total as real == n.used as real;
      assert q >= 1.0 ==> q * n.total as real >= n.total as real;
      assert q < 1.0 ==> q * n.total as real < n.total as real;
      assert q < 0.0 ==> q * n.total as real < 0.0;
    }
  }

  lemma Quotients(a: nat, b: nat, c: nat, d: nat)
    requires b > 0 && d > 0
    ensures a * d < c * b ==> a as real / b as real < c as real / d as real
    ensures a * d == c * b ==> a as real / b as real == c as real / d as real
  {
    var p, q := a as real / b as real, c as real / d as real;
    var x, y := b as real, d as real;
    assert p * x == a as real && q * y == c as real;
    assert (p * x) * y == (a * d) as real && (q * y) * x == (c * b) as real;
    assert (p * x) * y == p * (x * y) && (q * y) * x == q * (x * y);
    assert x * y > 0.0;
    Cancel(p, q, x * y);
  }

  lemma Cancel(p: real, q: real, z: real)
    requires z > 0.0
    ensures p * z < q * z ==> p < q
    ensures p * z == q * z ==> p == q
  {
    assert p > q ==> p * z > q * z;
  }

  lemma FreeOrder(m: Node, n: Node)
    ensures Freer(m, n) ==> CapacityFactor(m) > CapacityFactor(n)
    ensures AsFree(m, n) ==> CapacityFactor(m) == CapacityFactor(n)
  {
    hide CapacityFactor;
    FreePart(m);
    FreePart(n);
    if HasRoom(m) && HasRoom(n) {
      Quotients(m.used, m.total, n.used, n.total);
    }
  }

  lemma LoadOrder(m: Node, n: Node)
    ensures m.volumes < n.volumes ==> LoadFactor(m) > LoadFactor(n)
    ensures m.volumes == n.volumes ==> LoadFactor(m) == LoadFactor(n)
  {
    if m.volumes < n.volumes {
      var d, e := 1.0 + m.volumes as real * 0.01, 1.0 + n.volumes as real * 0.01;
      Shares(d, e);
      assert m.volumes == 0 ==> d == 1.0;
    }
  }

  lemma Shares(d: real, e: real)
    requires 0.0 < d < e
    ensures 0.3 / d > 0.3 / e
  {
    var p, q := 0.3 / d, 0.3 / e;
    assert p * d == 0.3 && q * e == 0.3;
    assert q > 0.0;
    assert q * d < q * e;
    Cancel(q, p, d);
  }

  lemma ProductOrder(a: real, b: real, c: real, x: real, y: real, z: real)
    requires a >= x > 0.0 && b >= y > 0.0 && c >= z > 0.0 && (a > x || b > y || c > z)
    ensures Combined(a, b, c) > Combined(x, y, z)
  {
    assert a * b >= x * b >= x * y;
    assert a > x ==> a * b > x * b;
    assert b > y ==> x * b > x * y;
    var p, q := a * b, x * y;
    assert p * c >= q * c >= q * z;
    assert p > q ==> p * c > q * c;
    assert c > z ==> q * c > q * z;
  }

  /** Of two eligible nodes the one that outdoes the other in one respect and trails it in none scores higher. */
  lemma BetterScoresHigher(m: Node, n: Node)
    requires Eligible(m) && Eligible(n) && Outdoes(m, n)
    ensures Weight(m) > Weight(n)
  {
    StateOrder(m, n);
    FreeOrder(m, n);
    LoadOrder(m, n);
    hide StateFactor, CapacityFactor, LoadFactor, BetterState, SameState, Freer, AsFree, Combined;
    ProductOrder(StateFactor(m), CapacityFactor(m), LoadFactor(m), StateFactor(n), CapacityFactor(n), LoadFactor(n));
  }

  /** Otherwise equal nodes compare by free space. */
  lemma MoreSpaceOutdoes(m: Node, n: Node)
    requires m.state == n.state && m.severity == n.severity && m.total == n.total && m.volumes == n.volumes
    requires SatSub(m.total, m.used) > SatSub(n.total, n.used)
    ensures Outdoes(m, n)
  {
    if n.used < n.total {
      assert m.used * n.total < n.used * m.total;
    }
  }

  /** What the respects are worth against each other: the best node scores 1; ready costs a tenth, soft errors two
      fifths, slowness half a percent a degree, a full disk half, and a hundred volumes fifteen percent. */
  lemma Worth(n: Node)
    requires !n.maintenance
    ensures n.total > 0 ==> Weight(n.(state := Healthy, used := 0, volumes := 0)) == 1.0
    ensures var best := Weight(n.(state := Healthy));
            && Weight(n.(state := Ready)) == 0.9 * best && Weight(n.(state := SoftError)) == 0.6 * best
            && (n.severity <= 100 ==> Weight(n.(state := FailSlow)) == (1.0 - 0.005 * n.severity as real) * best)
    ensures n.total > 0 ==> Weight(n.(used := n.total)) == 0.5 * Weight(n.(used := 0))
    ensures Weight(n.(volumes := 100)) == 0.85 * Weight(n.(volumes := 0))
  {
    WorthOfState(n);
    WorthOfRoom(n);
    WorthOfLoad(n);
  }

  lemma WorthOfState(n: Node)
    requires !n.maintenance
    ensures n.total > 0 ==> Weight(n.(state := Healthy, used := 0, volumes := 0)) == 1.0
    ensures var best := Weight(n.(state := Healthy));
            && Weight(n.(state := Ready)) == 0.9 * best && Weight(n.(state := SoftError)) == 0.6 * best
            && (n.severity <= 100 ==> Weight(n.(state := FailSlow)) == (1.0 - 0.005 * n.severity as real) * best)
  {
    hide Combined, Weight, CapacityFactor, LoadFactor;
    var room, load := CapacityFactor(n), LoadFactor(n);
    Weighed(n, Healthy);
    Weighed(n, Ready);
    Weighed(n, SoftError);
    Weighed(n, FailSlow);
    Scales(0.9, 1.0, room, load);
    Scales(0.6, 1.0, room, load);
    Scales(1.0 - 0.005 * n.severity as real, 1.0, room, load);
    if n.total > 0 {
      var best := n.(state := Healthy, used := 0, volumes := 0);
      Weighed(best, Healthy);
      FreePart(best);
      assert LoadFactor(best) == 1.0 by { NoLoad(best); }
    }
  }

  lemma Weighed(n: Node, s: NodeState)
    requires !n.maintenance && Assignable(s)
    ensures Weight(n.(state := s)) == Combined(StateFactor(n.(state := s)), CapacityFactor(n), LoadFactor(n))
  {
    hide Combined, StateFactor, CapacityFactor, LoadFactor;
    FreeOrder(n, n.(state := s));
    LoadOrder(n, n.(state := s));
  }

  lemma NoLoad(n: Node)
    requires n.volumes == 0
    ensures LoadFactor(n) == 1.0
  {}

  lemma WorthOfRoom(n: Node)
    requires !n.maintenance
    ensures n.total > 0 ==> Weight(n.(used := n.total)) == 0.5 * Weight(n.(used := 0))
  {
    hide Combined, StateFactor, LoadFactor, CapacityFactor;
    if n.total > 0 && Assignable(n.state) {
      var full, empty := n.(used := n.total), n.(used := 0);
      StateOrder(full, empty);
      LoadOrder(full, empty);
      FreePart(full);
      FreePart(empty);
      Scales(0.5, StateFactor(empty), 1.0, LoadFactor(empty));
    }
  }

  lemma WorthOfLoad(n: Node)
    requires !n.maintenance
    ensures Weight(n.(volumes := 100)) == 0.85 * Weight(n.(volumes := 0))
  {
    hide Combined, StateFactor, CapacityFactor;
    if Assignable(n.state) {
      var many, none := n.(volumes := 100), n.(volumes := 0);
      assert StateFactor(many) == StateFactor(none) by { StateOrder(many, none); }
      assert CapacityFactor(many) == CapacityFactor(none) by { FreeOrder(many, none); }
      Scales(0.85, StateFactor(none), CapacityFactor(none), 1.0);
    }
  }

  lemma Scales(k: real, a: real, b: real, c: real)
    ensures Combined(k * a, b, c) == Combined(a, k * b, c) == Combined(a, b, k * c) == k * Combined(a, b, c)
    ensures Combined(1.0, 1.0, 1.0) == 1.0
  {
    var d := a * b;
    assert (k * a) * b == k * d && a * (k * b) == k * d;
    assert (k * d) * c == k * (d * c) && d * (k * c) == k * (d * c);
  }

  /** What choosing by score means: the other one does not outdo it, and has no more space if otherwise equal. */
  ghost predicate Preferable(m: Node, n: Node) {
    && Weight(m) >= Weight(n) && !Outdoes(n, m)
    && (m.state == n.state && m.severity == n.severity && m.total == n.total && m.volumes == n.volumes ==>
        SatSub(n.total, n.used) <= SatSub(m.total, m.used))
  }

  lemma WeightPrefers(m: Node, n: Node)
    requires Eligible(m) && Eligible(n) && Weight(m) >= Weight(n)
    ensures Preferable(m, n)
  {
    hide Weight, Outdoes;
    if Outdoes(n, m) {
      BetterScoresHigher(n, m);
    }
    if m.state == n.state && m.severity == n.severity && m.total == n.total && m.volumes == n.volumes &&
       SatSub(n.total, n.used) > SatSub(m.total, m.used) {
      MoreSpaceOutdoes(n, m);
    }
  }

  // ---------- the stable sort, best first ----------

  ghost predicate Descending(s: seq<Node>) {
    forall i, j :: 0 <= i < j < |s| ==> Weight(s[i]) >= Weight(s[j])
  }

  function Insert(n: Node, s: seq<Node>): (r: seq<Node>)
    ensures forall m :: m in r <==> m == n || m in s
  {
    hide Weight;
    if s == [] || Weight(s[0]) <= Weight(n) then [n] + s
    else
      assert s == [s[0]] + s[1..];
      [s[0]] + Insert(n, s[1..])
  }

  function Sort(s: seq<Node>): (r: seq<Node>)
    ensures forall m :: m in r <==> m in s
  {
    if s == [] then []
    else
      assert s == [s[0]] + s[1..];
      Insert(s[0], Sort(s[1..]))
  }

  lemma {:induction false} InsertDescends(n: Node, s: seq<Node>)
    requires Descending(s)
    ensures Descending(Insert(n, s))
  {
    hide Weight;
    if s != [] && Weight(s[0]) > Weight(n) {
      InsertDescends(n, s[1..]);
      var rest := Insert(n, s[1..]);
      forall j | 0 <= j < |rest|
        ensures Weight(s[0]) >= Weight(rest[j])
      {
        assert rest[j] in rest;
      }
    }
  }

  lemma {:induction false} SortDescends(s: seq<Node>)
    ensures Descending(Sort(s))
  {
    hide Weight;
    if s != [] {
      SortDescends(s[1..]);
      InsertDescends(s[0], Sort(s[1..]));
    }
  }

  lemma {:induction false} InsertPermutes(n: Node, s: seq<Node>)
    ensures multiset(Insert(n, s)) == multiset([n]) + multiset(s)
  {
    hide Weight;
    if s != [] && Weight(s[0]) > Weight(n) {
      InsertPermutes(n, s[1..]);
      assert s == [s[0]] + s[1..];
    }
  }

  lemma {:induction false} SortPermutes(s: seq<Node>)
    ensures multiset(Sort(s)) == multiset(s)
  {
    if s != [] {
      SortPermutes(s[1..]);
      InsertPermutes(s[0], Sort(s[1..]));
      assert s == [s[0]] + s[1..];
    }
  }

  ghost function OfWeight(s: seq<Node>, w: real): seq<Node> {
    if s == [] then [] else (if Weight(s[0]) == w then [s[0]] else []) + OfWeight(s[1..], w)
  }

  lemma {:induction false} InsertStable(n: Node, s: seq<Node>, w: real)
    requires Descending(s)
    ensures OfWeight(Insert(n, s), w) == OfWeight([n] + s, w)
  {
    hide Weight;
    assert ([n] + s)[1..] == s;
    if s != [] && Weight(s[0]) > Weight(n) {
      var rest := s[1..];
      InsertStable(n, rest, w);
      assert ([s[0]] + Insert(n, rest))[1..] == Insert(n, rest) && ([n] + rest)[1..] == rest;
    }
  }

  /** Nodes of equal score keep the order they came in. */
  lemma {:induction false} SortStable(s: seq<Node>, w: real)
    ensures OfWeight(Sort(s), w) == OfWeight(s, w)
  {
    hide Weight, Insert;
    if s != [] {
      SortStable(s[1..], w);
      SortDescends(s[1..]);
      InsertStable(s[0], Sort(s[1..]), w);
      assert ([s[0]] + Sort(s[1..]))[1..] == Sort(s[1..]);
    }
  }

  // ---------- ids ----------

  function Ids(s: seq<Node>): set<string> {
    set n | n in s :: n.id
  }

  ghost predicate Distinct(s: seq<Node>) {
    forall i, j :: 0 <= i < j < |s| ==> s[i].id != s[j].id
  }

  lemma SameId(s: seq<Node>, m: Node, n: Node)
    requires Distinct(s) && m in s && n in s && m.id == n.id
    ensures m == n
  {}

  lemma {:induction false} IdCount(s: seq<Node>)
    requires Distinct(s)
    ensures |Ids(s)| == |s|
    decreases |s|
  {
    hide Distinct, Ids;
    if s == [] {
      assert Ids(s) == {} by { NoIds(); }
    } else {
      var init, last := s[..|s| - 1], s[|s| - 1];
      assert s == init + [last];
      IdsPush(init, last);
      IdCount(init);
    }
  }

  lemma NoIds()
    ensures Ids([]) == {}
  {}

  lemma IdsPush(init: seq<Node>, last: Node)
    requires Distinct(init + [last])
    ensures Distinct(init) && Ids(init + [last]) == Ids(init) + {last.id} && last.id !in Ids(init)
  {
    var s := init + [last];
    assert forall i :: 0 <= i < |init| ==> s[i] == init[i];
    forall n | n in init
      ensures n.id != last.id
    {
      var i :| 0 <= i < |init| && init[i] == n;
      assert s[i] == n && s[|init|] == last;
    }
  }

  /** A permutation of nodes with distinct ids has distinct ids. */
  lemma DistinctPermutes(s: seq<Node>, t: seq<Node>)
    requires Distinct(s) && multiset(s) == multiset(t)
    ensures Distinct(t)
  {
    forall i, j | 0 <= i < j < |t|
      ensures t[i].id != t[j].id
    {
      if t[i].id == t[j].id {
        assert t[i] in multiset(t) && t[j] in multiset(t);
        assert t[i] in s && t[j] in s;
        SameId(s, t[i], t[j]);
        Twice(t, i, j);
        Once(s, t[i]);
      }
    }
  }

  lemma Twice(t: seq<Node>, i: nat, j: nat)
    requires i < j < |t| && t[i] == t[j]
    ensures multiset(t)[t[i]] >= 2
  {
    assert t == t[..j] + t[j..];
    assert t[..j][i] in multiset(t[..j]);
    assert t[j..][0] in multiset(t[j..]);
  }

  lemma {:induction false} Once(s: seq<Node>, n: Node)
    requires Distinct(s) && n in s
    ensures multiset(s)[n] == 1
    decreases |s|
  {
    var init, last := s[..|s| - 1], s[|s| - 1];
    assert s == init + [last];
    if n in init {
      Once(init, n);
      var i :| 0 <= i < |init| && init[i] == n;
      assert n != last;
    } else {
      assert multiset(init)[n] == 0;
    }
  }

  lemma {:induction false} ScoredDistinct(nodes: seq<Node>)
    requires Distinct(nodes)
    ensures Distinct(Scored(nodes))
  {
    hide Eligible;
    if nodes != [] {
      ScoredDistinct(nodes[1..]);
      var rest := Scored(nodes[1..]);
      forall j | 0 <= j < |rest|
        ensures rest[j].id != nodes[0].id
      {
        assert rest[j] in nodes[1..];
        var i :| 0 <= i < |nodes[1..]| && nodes[1..][i] == rest[j];
        assert nodes[i + 1] == rest[j];
      }
    }
  }

  /** The candidates: eligible nodes, best first. */
  function Candidates(nodes: seq<Node>): seq<Node> {
    Sort(Scored(nodes))
  }

  lemma CandidatesDistinct(nodes: seq<Node>)
    requires Distinct(nodes)
    ensures Distinct(Candidates(nodes))
  {
    ScoredDistinct(nodes);
    SortPermutes(Scored(nodes));
    DistinctPermutes(Scored(nodes), Candidates(nodes));
  }

  // ---------- spreading ----------

  datatype Level = Rack | DataCenter

  function Zone(level: Level, n: Node): string {
    if level.Rack? then n.rack else n.dataCenter
  }

  function Zones(level: Level, s: seq<Node>): set<string> {
    set n | n in s :: Zone(level, n)
  }

  /** How many candidates are neither taken nor in a used zone. */
  function Fresh(level: Level, s: seq<Node>, taken: set<string>, used: set<string>): nat {
    if s == [] then 0
    else (if s[0].id !in taken && Zone(level, s[0]) !in used then 1 else 0) + Fresh(level, s[1..], taken, used)
  }

  /** A candidate in a used zone waits while candidates in unused zones can fill every open place. */
  predicate Waits(level: Level, s: seq<Node>, selected: seq<Node>, used: set<string>, n: Node, open: int) {
    Zone(level, n) in used && Fresh(level, s, Ids(selected), used) >= open
  }

  lemma {:induction false} FreshShrinks(level: Level, s: seq<Node>, taken: set<string>, used: set<string>, n: Node)
    ensures var after := Fresh(level, s, taken + {n.id}, used + {Zone(level, n)});
            && after <= Fresh(level, s, taken, used)
            && (n in s && n.id !in taken && Zone(level, n) !in used ==> after < Fresh(level, s, taken, used))
  {
    if s != [] {
      FreshShrinks(level, s[1..], taken, used, n);
      assert s == [s[0]] + s[1..];
    }
  }

  lemma {:induction false} FreshNone(level: Level, s: seq<Node>, taken: set<string>, used: set<string>)
    ensures Fresh(level, s, taken, used) == 0 ==> forall n :: n in s ==> n.id in taken || Zone(level, n) in used
  {
    if s != [] {
      FreshNone(level, s[1..], taken, used);
      assert s == [s[0]] + s[1..];
    }
  }

  lemma PushZone(level: Level, s: seq<Node>, n: Node)
    ensures Zones(level, s + [n]) == Zones(level, s) + {Zone(level, n)}
  {}

  lemma ZonesWithin(level: Level, s: seq<Node>, t: seq<Node>)
    requires forall n :: n in s ==> n in t
    ensures Zones(level, s) <= Zones(level, t) && Ids(s) <= Ids(t)
  {}

  lemma {:induction false} ZoneCount(level: Level, s: seq<Node>)
    ensures |Zones(level, s)| <= |s|
    decreases |s|
  {
    if s == [] {
      assert Zones(level, s) == {};
    } else {
      ZoneCount(level, s[..|s| - 1]);
      assert s == s[..|s| - 1] + [s[|s| - 1]];
      PushZone(level, s[..|s| - 1], s[|s| - 1]);
    }
  }

  /** The heart of the argument: once a zone has been used twice, the open places are at least as many as the
      candidates in unused zones; and every candidate passed by is selected or in a used zone. */
  ghost predicate Spreading(level: Level, s: seq<Node>, selected: seq<Node>, count: nat, passed: nat) {
    && passed <= |s| && |selected| <= count
    && (|Zones(level, selected)| < |selected| ==>
        Fresh(level, s, Ids(selected), Zones(level, selected)) <= count - |selected|)
    && (forall j :: 0 <= j < passed ==> Zone(level, s[j]) in Zones(level, selected))
  }

  lemma SpreadingPush(level: Level, s: seq<Node>, selected: seq<Node>, count: nat, i: nat)
    requires Spreading(level, s, selected, count, i) && i < |s| && |selected| < count && s[i].id !in Ids(selected)
    requires !Waits(level, s, selected, Zones(level, selected), s[i], count - |selected|)
    ensures Spreading(level, s, selected + [s[i]], count, i + 1)
  {
    var n := s[i];
    var used, taken := Zones(level, selected), Ids(selected);
    PushZone(level, selected, n);
    assert Ids(selected + [n]) == taken + {n.id};
    FreshShrinks(level, s, taken, used, n);
    ZoneCount(level, selected);
    hide Fresh, Zones, Ids;
    if Zone(level, n) in used {
      assert used + {Zone(level, n)} == used;
    } else {
      assert |used + {Zone(level, n)}| == |used| + 1;
    }
  }

  lemma SpreadingSkip(level: Level, s: seq<Node>, selected: seq<Node>, count: nat, i: nat)
    requires Spreading(level, s, selected, count, i) && i < |s|
    requires Zone(level, s[i]) in Zones(level, selected)
    ensures Spreading(level, s, selected, count, i + 1)
  {}

  lemma SelectedZone(level: Level, s: seq<Node>, selected: seq<Node>, n: Node)
    requires Distinct(s) && n in s && n.id in Ids(selected) && forall m :: m in selected ==> m in s
    ensures n in selected && Zone(level, n) in Zones(level, selected)
  {}

  lemma SpreadingStarts(level: Level, s: seq<Node>, first: seq<Node>, count: nat)
    requires |first| <= 1 && count >= 1
    ensures Spreading(level, s, first, count, 0)
  {
    if |first| == 1 {
      assert Zone(level, first[0]) in Zones(level, first);
      assert Zones(level, first) == {Zone(level, first[0])};
    }
  }

  /** When the places run out or the candidates do, the spread is as wide as it can be. */
  lemma SpreadingEnds(level: Level, s: seq<Node>, selected: seq<Node>, count: nat, passed: nat)
    requires Spreading(level, s, selected, count, passed) && Distinct(s)
    requires forall n :: n in selected ==> n in s
    requires |selected| == count || passed == |s|
    ensures |Zones(level, selected)| == Min(count, |Zones(level, s)|)
    ensures |selected| < count ==> Zones(level, selected) == Zones(level, s)
  {
    var used := Zones(level, selected);
    ZonesWithin(level, selected, s);
    ZoneCount(level, selected);
    if passed < |s| && |used| == |selected| {
      SubsetSize(used, Zones(level, s));
    } else {
      AllUsed(level, s, selected, count, passed);
      assert used == Zones(level, s);
    }
  }

  lemma AllUsed(level: Level, s: seq<Node>, selected: seq<Node>, count: nat, passed: nat)
    requires Spreading(level, s, selected, count, passed) && Distinct(s)
    requires forall n :: n in selected ==> n in s
    requires passed == |s| || (|selected| == count && |Zones(level, selected)| < |selected|)
    ensures Zones(level, s) <= Zones(level, selected)
  {
    FreshNone(level, s, Ids(selected), Zones(level, selected));
    hide Fresh;
    forall n | n in s
      ensures Zone(level, n) in Zones(level, selected)
    {
      if passed == |s| {
        var j :| 0 <= j < |s| && s[j] == n;
      } else if n.id in Ids(selected) {
        SelectedZone(level, s, selected, n);
      }
    }
  }

  // ---------- assignment ----------

  /** What is always true of the nodes chosen so far. */
  ghost predicate Choice(s: seq<Node>, selected: seq<Node>, count: nat) {
    |selected| <= count && Distinct(selected) && forall n :: n in selected ==> n in s
  }

  lemma ChoicePush(s: seq<Node>, selected: seq<Node>, count: nat, n: Node)
    requires Choice(s, selected, count) && n in s && n.id !in Ids(selected) && |selected| < count
    ensures Choice(s, selected + [n], count) && Ids(selected + [n]) == Ids(selected) + {n.id}
  {}

  /** The preferred node, if it is a candidate. */
  function Preferred(s: seq<Node>, preferred: Option<string>): (r: seq<Node>)
    ensures |r| <= 1 && (forall n :: n in r ==> n in s && preferred == Some(n.id))
    ensures r == [] <==> preferred.None? || preferred.value !in Ids(s)
  {
    if preferred.None? || s == [] then []
    else
      assert s == [s[0]] + s[1..];
      assert Ids(s) == {s[0].id} + Ids(s[1..]);
      if s[0].id == preferred.value then [s[0]] else Preferred(s[1..], preferred)
  }

  ghost predicate Widest(level: Level, s: seq<Node>, selected: seq<Node>, count: nat) {
    && |Zones(level, selected)| == Min(count, |Zones(level, s)|)
    && (|selected| < count ==> Zones(level, selected) == Zones(level, s))
  }

  /** The first `passed` candidates are chosen, and nobody else but the preferred node. */
  ghost predicate Taken(s: seq<Node>, first: seq<Node>, selected: seq<Node>, passed: nat) {
    && passed <= |s|
    && (forall j :: 0 <= j < passed ==> s[j].id in Ids(selected))
    && (forall n :: n in selected ==> n in first || n in s[..passed])
  }

  lemma TakenStarts(s: seq<Node>, first: seq<Node>)
    ensures Taken(s, first, first, 0)
  {}

  lemma TakenSkip(s: seq<Node>, first: seq<Node>, selected: seq<Node>, i: nat)
    requires i < |s| && Taken(s, first, selected, i) && s[i].id in Ids(selected)
    ensures Taken(s, first, selected, i + 1)
  {}

  lemma TakenPush(s: seq<Node>, first: seq<Node>, selected: seq<Node>, i: nat)
    requires i < |s| && Taken(s, first, selected, i)
    ensures Taken(s, first, selected + [s[i]], i + 1)
  {}

  lemma SpreadingPassed(level: Level, s: seq<Node>, selected: seq<Node>, count: nat, i: nat)
    requires Spreading(level, s, selected, count, i) && Choice(s, selected, count) && Distinct(s) && i < |s| &&
             s[i].id in Ids(selected)
    ensures Spreading(level, s, selected, count, i + 1)
  {}

  /** First pass: best candidates first, putting off those in used zones while others can still fill up. */
  method Spread(s: seq<Node>, first: seq<Node>, count: nat, ctx: Context)
    returns (selected: seq<Node>, ghost passed: nat)
    requires count >= 1 && |first| <= 1 && Choice(s, first, count)
    ensures Choice(s, selected, count) && first <= selected
    ensures Distinct(s) && ctx.rackAware && !ctx.dataCenterAware ==> Widest(Rack, s, selected, count)
    ensures Distinct(s) && ctx.dataCenterAware && !ctx.rackAware ==> Widest(DataCenter, s, selected, count)
    ensures !ctx.rackAware && !ctx.dataCenterAware ==>
              Taken(s, first, selected, passed) && (passed == |s| || |selected| == count)
  {
    ghost var racks := Distinct(s) && ctx.rackAware && !ctx.dataCenterAware;
    ghost var dataCenters := Distinct(s) && ctx.dataCenterAware && !ctx.rackAware;
    ghost var plain := !ctx.rackAware && !ctx.dataCenterAware;
    hide Zones, Ids, Fresh, Spreading, Distinct, Taken, Widest;
    selected := first;
    var usedRacks, usedDataCenters := Zones(Rack, first), Zones(DataCenter, first);
    SpreadingStarts(Rack, s, first, count);
    SpreadingStarts(DataCenter, s, first, count);
    TakenStarts(s, first);
    var i := 0;
    while i < |s| && |selected| < count
      invariant i <= |s| && Choice(s, selected, count) && first <= selected
      invariant usedRacks == Zones(Rack, selected) && usedDataCenters == Zones(DataCenter, selected)
      invariant racks ==> Spreading(Rack, s, selected, count, i)
      invariant dataCenters ==> Spreading(DataCenter, s, selected, count, i)
      invariant plain ==> Taken(s, first, selected, i)
    {
      var n := s[i];
      if n.id in Ids(selected) {
        if racks {
          SpreadingPassed(Rack, s, selected, count, i);
        } else if dataCenters {
          SpreadingPassed(DataCenter, s, selected, count, i);
        } else if plain {
          TakenSkip(s, first, selected, i);
        }
      } else if ctx.rackAware && Waits(Rack, s, selected, usedRacks, n, count - |selected|) {
        if racks {
          SpreadingSkip(Rack, s, selected, count, i);
        }
      } else if ctx.dataCenterAware && Waits(DataCenter, s, selected, usedDataCenters, n, count - |selected|) {
        if dataCenters {
          SpreadingSkip(DataCenter, s, selected, count, i);
        }
      } else {
        if racks {
          SpreadingPush(Rack, s, selected, count, i);
        } else if dataCenters {
          SpreadingPush(DataCenter, s, selected, count, i);
        } else if plain {
          TakenPush(s, first, selected, i);
        }
        ChoicePush(s, selected, count, n);
        PushZone(Rack, selected, n);
        PushZone(DataCenter, selected, n);
        selected := selected + [n];
        usedRacks := usedRacks + {n.rack};
        usedDataCenters := usedDataCenters + {n.dataCenter};
      }
      i := i + 1;
    }
    passed := i;
    if racks {
      SpreadingWidest(Rack, s, selected, count, i);
    } else if dataCenters {
      SpreadingWidest(DataCenter, s, selected, count, i);
    }
  }

  lemma SpreadingWidest(level: Level, s: seq<Node>, selected: seq<Node>, count: nat, passed: nat)
    requires Spreading(level, s, selected, count, passed) && Distinct(s) && Choice(s, selected, count)
    requires |selected| == count || passed == |s|
    ensures Widest(level, s, selected, count)
  {
    SpreadingEnds(level, s, selected, count, passed);
  }

  /** Second pass: fill the open places with whoever is left. */
  method Fill(s: seq<Node>, start: seq<Node>, count: nat) returns (selected: seq<Node>)
    requires Choice(s, start, count)
    ensures Choice(s, selected, count) && start <= selected && |selected| == Min(count, |Ids(s)|)
  {
    hide Ids, Distinct;
    selected := start;
    var i := 0;
    while i < |s| && |selected| < count
      invariant i <= |s| && Choice(s, selected, count) && start <= selected
      invariant forall j :: 0 <= j < i ==> s[j].id in Ids(selected)
    {
      var n := s[i];
      if n.id !in Ids(selected) {
        ChoicePush(s, selected, count, n);
        selected := selected + [n];
      }
      i := i + 1;
    }
    Filled(s, selected, count, i);
  }

  lemma Filled(s: seq<Node>, selected: seq<Node>, count: nat, passed: nat)
    requires Choice(s, selected, count) && passed <= |s| && (passed == |s| || |selected| == count)
    requires forall j :: 0 <= j < passed ==> s[j].id in Ids(selected)
    ensures |selected| == Min(count, |Ids(s)|)
  {
    IdCount(selected);
    ZonesWithin(Rack, selected, s);
    SubsetSize(Ids(selected), Ids(s));
    if passed == |s| {
      forall n | n in s
        ensures n.id in Ids(selected)
      {
        var j :| 0 <= j < |s| && s[j] == n;
      }
      assert Ids(s) == Ids(selected);
    }
  }

  lemma StillWidest(level: Level, s: seq<Node>, start: seq<Node>, selected: seq<Node>, count: nat)
    requires Widest(level, s, start, count) && Choice(s, selected, count) && start <= selected &&
             (|start| == count ==> selected == start)
    requires |start| <= count
    ensures Widest(level, s, selected, count)
  {}

  lemma BestTaken(s: seq<Node>, first: seq<Node>, selected: seq<Node>, passed: nat, m: Node, n: Node)
    requires Taken(s, first, selected, passed) && Descending(s) && m in selected && m !in first && n in s &&
             n.id !in Ids(selected)
    ensures Weight(m) >= Weight(n)
  {}

  /** As many eligible nodes as asked for or available, each once, the preferred one first; spread over as many
      racks -- or data centers -- as possible when one of the two is asked for; the best ones when neither is. */
  method AssignWithContext(nodes: seq<Node>, count: nat, ctx: Context) returns (selected: seq<Node>)
    ensures |selected| == Min(count, |Ids(Scored(nodes))|) && Distinct(selected)
    ensures forall n :: n in selected ==> n in nodes && Eligible(n)
    ensures count > 0 && ctx.preferred.Some? && ctx.preferred.value in Ids(Scored(nodes)) ==>
              selected[0].id == ctx.preferred.value
    ensures Distinct(nodes) && ctx.rackAware && !ctx.dataCenterAware ==>
              |Zones(Rack, selected)| == Min(count, |Zones(Rack, Scored(nodes))|)
    ensures Distinct(nodes) && ctx.dataCenterAware && !ctx.rackAware ==>
              |Zones(DataCenter, selected)| == Min(count, |Zones(DataCenter, Scored(nodes))|)
    ensures !ctx.rackAware && !ctx.dataCenterAware ==>
              forall m, n :: m in selected && ctx.preferred != Some(m.id) &&
                             n in nodes && Eligible(n) && n.id !in Ids(selected) ==>
                               Preferable(m, n)
  {
    hide Zones, Ids, Fresh, Spreading, Distinct, Taken, Widest, Eligible, Sort, Weight, Descending, Preferable;
    var s := Candidates(nodes);
    CandidatesAre(nodes);
    if nodes == [] || count == 0 || s == [] {
      NoneChosen(nodes, count);
      return [];
    }
    var first := Preferred(s, ctx.preferred);
    FirstChoice(s, first, count);
    ghost var passed;
    selected, passed := Spread(s, first, count, ctx);
    ghost var start := selected;
    if |selected| < count {
      selected := Fill(s, selected, count);
    } else {
      FullChoice(s, selected, count);
    }
    Assigned(nodes, s, first, start, selected, count, passed, ctx);
    if !ctx.rackAware && !ctx.dataCenterAware {
      forall m, n | m in selected && ctx.preferred != Some(m.id) && n in nodes && Eligible(n) && n.id !in Ids(selected)
        ensures Preferable(m, n)
      {
        WeightPrefers(m, n);
      }
    }
  }

  lemma CandidatesAre(nodes: seq<Node>)
    ensures var s := Candidates(nodes);
            && (forall n :: n in s <==> n in nodes && Eligible(n))
            && Ids(s) == Ids(Scored(nodes)) && Zones(Rack, s) == Zones(Rack, Scored(nodes)) &&
               Zones(DataCenter, s) == Zones(DataCenter, Scored(nodes))
            && Descending(s) && (Distinct(nodes) ==> Distinct(s))
  {
    SortDescends(Scored(nodes));
    if Distinct(nodes) {
      CandidatesDistinct(nodes);
    }
  }

  lemma NoneChosen(nodes: seq<Node>, count: nat)
    requires nodes == [] || count == 0 || Candidates(nodes) == []
    ensures Distinct([]) && Ids([]) == {} && Zones(Rack, []) == {} && Zones(DataCenter, []) == {}
    ensures count == 0 || (Ids(Scored(nodes)) == {} && Zones(Rack, Scored(nodes)) == {} &&
                           Zones(DataCenter, Scored(nodes)) == {} && forall n :: n in nodes ==> !Eligible(n))
  {}

  lemma FirstChoice(s: seq<Node>, first: seq<Node>, count: nat)
    requires |first| <= 1 && count >= 1 && forall n :: n in first ==> n in s
    ensures Choice(s, first, count)
  {}

  lemma FullChoice(s: seq<Node>, selected: seq<Node>, count: nat)
    requires Choice(s, selected, count) && |selected| == count
    ensures |selected| == Min(count, |Ids(s)|)
  {
    IdCount(selected);
    ZonesWithin(Rack, selected, s);
    SubsetSize(Ids(selected), Ids(s));
  }

  lemma Assigned(nodes: seq<Node>, s: seq<Node>, first: seq<Node>, start: seq<Node>, selected: seq<Node>, count: nat,
                 passed: nat, ctx: Context)
    requires s == Candidates(nodes) && Choice(s, start, count) && Choice(s, selected, count) &&
             first <= start <= selected
    requires |start| == count ==> selected == start
    requires first == Preferred(s, ctx.preferred)
    ensures Distinct(s) && Widest(Rack, s, start, count) ==> |Zones(Rack, selected)| == Min(count, |Zones(Rack, s)|)
    ensures Distinct(s) && Widest(DataCenter, s, start, count) ==>
              |Zones(DataCenter, selected)| == Min(count, |Zones(DataCenter, s)|)
    ensures Descending(s) && Taken(s, first, start, passed) && (passed == |s| || |start| == count) ==>
              forall m, n :: m in selected && n in s && n.id !in Ids(selected) && ctx.preferred != Some(m.id) ==>
                    Weight(m) >= Weight(n)
  {
    hide Zones, Fresh, Spreading, Weight, Descending, Taken, Sort, Distinct;
    if Widest(Rack, s, start, count) {
      StillWidest(Rack, s, start, selected, count);
    }
    if Widest(DataCenter, s, start, count) {
      StillWidest(DataCenter, s, start, selected, count);
    }
    if Descending(s) && Taken(s, first, start, passed) && (passed == |s| || |start| == count) {
      forall m, n | m in selected && n in s && n.id !in Ids(selected) && ctx.preferred != Some(m.id)
        ensures Weight(m) >= Weight(n)
      {
        NobodyLeft(s, first, start, selected, count, passed, n);
        BestTaken(s, first, start, passed, m, n);
      }
    }
  }

  lemma NobodyLeft(s: seq<Node>, first: seq<Node>, start: seq<Node>, selected: seq<Node>, count: nat, passed: nat,
                   n: Node)
    requires Taken(s, first, start, passed) && start <= selected && (passed == |s| || |start| == count) &&
             (|start| == count ==> selected == start)
    requires n in s && n.id !in Ids(selected)
    ensures selected == start
  {}
}
