/** The shard table: contiguous inode ranges, split to add a shard, drained and merged away to remove one. */
module ShardMap {
  import opened Bytes
  import opened Options

  const RANGE: nat := 1_000_000

  datatype State = Active | Draining

  datatype Entry = Entry(start: nat, end: nat, shard: nat, state: State)

  type Table = seq<Entry>

  datatype Error = ShardNotFound(shard: nat) | InvalidSplitPoint(point: nat) | ShardAlreadyExists(shard: nat)
                 | ShardNotDraining(shard: nat) | NoActiveShardToSplit

  datatype Result<T> = Ok(value: T) | Err(error: Error)

  datatype Plan = Plan(splitFrom: nat, splitPoint: nat, newShard: nat, range: (nat, nat), affected: nat)

  /** Ranges are non-empty, contiguous and in order, and every shard owns one of them. */
  ghost predicate Sound(t: Table) {
    && (forall i :: 0 <= i < |t| ==> t[i].start < t[i].end)
    && (forall i :: 0 < i < |t| ==> t[i - 1].end == t[i].start)
    && (forall i, j :: 0 <= i < j < |t| ==> t[i].shard != t[j].shard)
  }

  lemma {:induction false} Ordered(t: Table, i: nat, j: nat)
    requires Sound(t) && i < j < |t|
    ensures t[i].end <= t[j].start
    decreases j - i
  {
    if i + 1 < j {
      Ordered(t, i, j - 1);
      assert t[j - 1].end == t[j].start;
    }
  }

  // ---------- routing ----------

  /** Linear search for the entry that contains the inode; |t| if none does. */
  function Containing(t: Table, inode: nat): (r: nat)
    ensures r <= |t| && (r < |t| ==> t[r].start <= inode < t[r].end)
    ensures forall i :: 0 <= i < r ==> !(t[i].start <= inode < t[i].end)
  {
    if t == [] then 0
    else if t[0].start <= inode < t[0].end then 0
    else
      var r := Containing(t[1..], inode);
      assert forall i :: 0 < i < |t| ==> t[i] == t[1..][i - 1];
      1 + r
  }

  /** The shard whose range contains the inode; an inode before or after all ranges goes to the first or last
      shard, and every inode to shard 0 when there is none. */
  function RouteOf(t: Table, inode: nat): nat {
    if t == [] then 0
    else if inode < t[0].start then t[0].shard
    else if Containing(t, inode) < |t| then t[Containing(t, inode)].shard
    else t[|t| - 1].shard
  }

  /** Entry i answers for the inode. */
  ghost predicate Owns(t: Table, i: nat, inode: nat) {
    i < |t| && (i == 0 || t[i].start <= inode) && (i == |t| - 1 || inode < t[i].end)
  }

  lemma OwnerRoutes(t: Table, i: nat, inode: nat)
    requires Sound(t) && Owns(t, i, inode)
    ensures RouteOf(t, inode) == t[i].shard
  {
    var c := Containing(t, inode);
    if i > 0 {
      Ordered(t, 0, i);
    }
    if i + 1 < |t| {
      Ordered(t, i, |t| - 1);
    }
    if c < i {
      Ordered(t, c, i);
    } else if i < c < |t| {
      Ordered(t, i, c);
    }
  }

  lemma HasOwner(t: Table, inode: nat) returns (i: nat)
    requires Sound(t) && t != []
    ensures Owns(t, i, inode)
  {
    i := 0;
    while i + 1 < |t| && t[i].end <= inode
      invariant i < |t| && (i == 0 || t[i].start <= inode)
    {
      i := i + 1;
    }
  }

  lemma OneOwner(t: Table, i: nat, j: nat, inode: nat)
    requires Sound(t) && Owns(t, i, inode) && Owns(t, j, inode)
    ensures i == j
  {
    if i < j {
      Ordered(t, i, j);
    } else if j < i {
      Ordered(t, j, i);
    }
  }

  // ---------- finding entries ----------

  function Find(t: Table, shard: nat): (r: nat)
    ensures r <= |t| && (r < |t| ==> t[r].shard == shard)
    ensures forall i :: 0 <= i < r ==> t[i].shard != shard
  {
    if t == [] || t[0].shard == shard then 0
    else
      var r := Find(t[1..], shard);
      assert forall i :: 0 < i < |t| ==> t[i] == t[1..][i - 1];
      1 + r
  }

  function FindActive(t: Table, shard: nat): (r: nat)
    ensures r <= |t| && (r < |t| ==> t[r].shard == shard && t[r].state == Active)
    ensures forall i :: 0 <= i < r ==> !(t[i].shard == shard && t[i].state == Active)
  {
    if t == [] || (t[0].shard == shard && t[0].state == Active) then 0
    else
      var r := FindActive(t[1..], shard);
      assert forall i :: 0 < i < |t| ==> t[i] == t[1..][i - 1];
      1 + r
  }

  function Size(e: Entry): nat {
    if e.end < e.start then 0 else e.end - e.start
  }

  /** Of the active entries the last of the largest ones; |t| if none is active. */
  function Largest(t: Table): (r: nat)
    ensures r <= |t| && (r < |t| ==> t[r].state == Active)
    ensures forall i :: 0 <= i < |t| && t[i].state == Active ==>
              r < |t| && Size(t[i]) <= Size(t[r]) && (r < i ==> Size(t[i]) < Size(t[r]))
    decreases |t|
  {
    if t == [] then 0
    else
      var init, last := t[..|t| - 1], t[|t| - 1];
      var r := Largest(init);
      assert forall i :: 0 <= i < |t| - 1 ==> t[i] == init[i];
      if last.state == Active && (r == |init| || Size(init[r]) <= Size(last)) then |t| - 1
      else if r == |init| then |t| else r
  }

  function MaxShard(t: Table): (r: nat)
    ensures forall i :: 0 <= i < |t| ==> t[i].shard <= r
    ensures t == [] ==> r == 0
    ensures t != [] ==> exists i :: 0 <= i < |t| && t[i].shard == r
  {
    if t == [] then 0
    else
      var r := MaxShard(t[1..]);
      assert forall i :: 0 < i < |t| ==> t[i] == t[1..][i - 1];
      if |t| == 1 || t[0].shard > r then t[0].shard
      else
        assert exists i :: 0 <= i < |t| && t[i].shard == r by {
          var i :| 0 <= i < |t[1..]| && t[1..][i].shard == r;
          assert t[i + 1].shard == r;
        }
        r
  }

  // ---------- splitting ----------

  function Split(t: Table, i: nat, shard: nat, point: nat): Table
    requires i < |t|
  {
    t[..i] + [t[i].(end := point), Entry(point, t[i].end, shard, Active)] + t[i + 1..]
  }

  /** What a split checks, in this order. */
  function SplitError(t: Table, shard: nat, from: nat, point: nat): Option<Error> {
    var i := FindActive(t, from);
    if i == |t| then Some(ShardNotFound(from))
    else if point <= t[i].start || point >= t[i].end then Some(InvalidSplitPoint(point))
    else if Find(t, shard) < |t| then Some(ShardAlreadyExists(shard))
    else None
  }

  lemma SplitAt(t: Table, i: nat, shard: nat, point: nat, k: nat)
    requires i < |t| && k < |t| + 1
    ensures |Split(t, i, shard, point)| == |t| + 1
    ensures Split(t, i, shard, point)[k] ==
            if k < i then t[k] else if k == i then t[i].(end := point)
            else if k == i + 1 then Entry(point, t[i].end, shard, Active) else t[k - 1]
  {}

  lemma SplitSound(t: Table, shard: nat, from: nat, point: nat)
    requires Sound(t) && SplitError(t, shard, from, point).None?
    ensures Sound(Split(t, FindActive(t, from), shard, point))
  {
    var i := FindActive(t, from);
    var t' := Split(t, i, shard, point);
    assert |t'| == |t| + 1;
    assert t[i].start < point < t[i].end && forall j :: 0 <= j < |t| ==> t[j].shard != shard;
    hide Split, Find, FindActive, SplitError;
    forall k | 0 <= k < |t'|
      ensures t'[k].start < t'[k].end
    {
      SplitAt(t, i, shard, point, k);
    }
    forall k | 0 < k < |t'|
      ensures t'[k - 1].end == t'[k].start
    {
      SplitAt(t, i, shard, point, k - 1);
      SplitAt(t, i, shard, point, k);
    }
    forall k, l | 0 <= k < l < |t'|
      ensures t'[k].shard != t'[l].shard
    {
      SplitAt(t, i, shard, point, k);
      SplitAt(t, i, shard, point, l);
    }
  }

  /** A split reroutes exactly the inodes of the split shard at or above the split point. */
  lemma SplitReroutes(t: Table, shard: nat, from: nat, point: nat, inode: nat)
    requires Sound(t) && SplitError(t, shard, from, point).None?
    ensures RouteOf(Split(t, FindActive(t, from), shard, point), inode) ==
            if RouteOf(t, inode) == from && inode >= point then shard else RouteOf(t, inode)
  {
    var i := FindActive(t, from);
    var t' := Split(t, i, shard, point);
    SplitSound(t, shard, from, point);
    var o := HasOwner(t, inode);
    OwnerRoutes(t, o, inode);
    var o' := if o < i || (o == i && inode < point) then o else o + 1;
    SplitAt(t, i, shard, point, o');
    hide Split, RouteOf, Find, FindActive;
    OwnerRoutes(t', o', inode);
  }

  // ---------- draining ----------

  function Drain(t: Table, shard: nat): (r: Table)
    ensures |r| == |t|
    ensures forall i :: 0 <= i < |t| ==> r[i] == if t[i].shard == shard then t[i].(state := Draining) else t[i]
  {
    seq(|t|, i requires 0 <= i < |t| => if t[i].shard == shard then t[i].(state := Draining) else t[i])
  }

  /** Draining reroutes nothing. */
  lemma DrainReroutes(t: Table, shard: nat, inode: nat)
    requires Sound(t)
    ensures Sound(Drain(t, shard)) && RouteOf(Drain(t, shard), inode) == RouteOf(t, inode)
  {
    hide RouteOf;
    if t != [] {
      var o := HasOwner(t, inode);
      OwnerRoutes(t, o, inode);
      OwnerRoutes(Drain(t, shard), o, inode);
    } else {
      assert Drain(t, shard) == t;
    }
  }

  // ---------- removing ----------

  function Remove(t: Table, i: nat): Table
    requires i < |t|
  {
    if i == 0 then t[1..] else t[..i - 1] + [t[i - 1].(end := t[i].end)] + t[i + 1..]
  }

  predicate IsDraining(t: Table, shard: nat) {
    exists i :: 0 <= i < |t| && t[i].shard == shard && t[i].state == Draining
  }

  function RemoveError(t: Table, shard: nat): Option<Error> {
    if IsDraining(t, shard) then None
    else if Find(t, shard) < |t| then Some(ShardNotDraining(shard))
    else Some(ShardNotFound(shard))
  }

  lemma RemoveAt(t: Table, i: nat, k: nat)
    requires i < |t| && k < |t| - 1
    ensures |Remove(t, i)| == |t| - 1
    ensures Remove(t, i)[k] == if k + 1 < i then t[k] else if k + 1 == i then t[i - 1].(end := t[i].end) else t[k + 1]
  {}

  lemma RemoveSound(t: Table, i: nat)
    requires Sound(t) && i < |t|
    ensures Sound(Remove(t, i))
  {
    var t' := Remove(t, i);
    assert |t'| == |t| - 1;
    hide Remove;
    forall k | 0 <= k < |t| - 1
      ensures t'[k] == if k + 1 < i then t[k] else if k + 1 == i then t[i - 1].(end := t[i].end) else t[k + 1]
    {
      RemoveAt(t, i, k);
    }
  }

  /** The shard that takes over: the one before, or the one after if the first is removed, or shard 0 if it
      was the only one. */
  function Heir(t: Table, i: nat): nat
    requires i < |t|
  {
    if i > 0 then t[i - 1].shard else if |t| > 1 then t[1].shard else 0
  }

  /** Removal reroutes exactly the inodes of the removed shard, all to its heir. */
  lemma RemoveReroutes(t: Table, i: nat, inode: nat)
    requires Sound(t) && i < |t|
    ensures RouteOf(Remove(t, i), inode) == if RouteOf(t, inode) == t[i].shard then Heir(t, i) else RouteOf(t, inode)
  {
    RemoveSound(t, i);
    var o := HasOwner(t, inode);
    OwnerRoutes(t, o, inode);
    if |t| > 1 {
      var o' := if o < i || o == 0 then o else o - 1;
      RemoveAt(t, i, o');
      var t' := Remove(t, i);
      hide RouteOf, Remove;
      if o == i == 0 {
        assert t[0].end == t[1].start;
      }
      OwnerRoutes(t', o', inode);
    }
  }

  /** Splitting a shard off and merging it away again restores the exact table. */
  lemma SplitDrainRemove(t: Table, shard: nat, from: nat, point: nat)
    requires Sound(t) && SplitError(t, shard, from, point).None?
    ensures var split := Split(t, FindActive(t, from), shard, point);
            var drained := Drain(split, shard);
            && RemoveError(drained, shard).None?
            && Remove(drained, Find(drained, shard)) == t
  {
    hide Split, Drain, Find, FindActive, Remove;
    var i := FindActive(t, from);
    var split := Split(t, i, shard, point);
    var drained := Drain(split, shard);
    assert forall k :: 0 <= k < |t| ==> t[k].shard != shard;
    DrainedTail(t, i, shard, point, drained);
    FoundTail(t, i, shard, point, drained);
  }

  lemma FoundTail(t: Table, i: nat, shard: nat, point: nat, drained: Table)
    requires i < |t| && |drained| == |t| + 1 && drained[..i] == t[..i] && drained[i + 2..] == t[i + 1..]
    requires drained[i] == t[i].(end := point) && drained[i + 1] == Entry(point, t[i].end, shard, Draining)
    requires forall k :: 0 <= k < |t| ==> t[k].shard != shard
    ensures IsDraining(drained, shard) && Find(drained, shard) == i + 1 && Remove(drained, i + 1) == t
  {}

  lemma DrainedTail(t: Table, i: nat, shard: nat, point: nat, drained: Table)
    requires i < |t| && drained == Drain(Split(t, i, shard, point), shard) &&
             forall k :: 0 <= k < |t| ==> t[k].shard != shard
    ensures |drained| == |t| + 1 && drained[..i] == t[..i] && drained[i + 2..] == t[i + 1..]
    ensures drained[i] == t[i].(end := point) && drained[i + 1] == Entry(point, t[i].end, shard, Draining)
  {}

  // ---------- planning ----------

  /** The next free id by counting up from the largest; it wraps in 64 bits. */
  function NextShard(t: Table): nat {
    (MaxShard(t) + 1) % U64_LIMIT
  }

  function PlanFor(t: Table, i: nat): Plan
    requires i < |t|
  {
    var size := Size(t[i]);
    var point := t[i].start + size / 2;
    Plan(t[i].shard, point, NextShard(t), (point, t[i].end), size / 2)
  }

  /** Which entry a plan would split: the named one, or the largest. */
  function Target(t: Table, from: Option<nat>): nat {
    match from
    case Some(shard) => FindActive(t, shard)
    case None => Largest(t)
  }

  function PlanAdd(t: Table, from: Option<nat>): Result<Plan> {
    var i := Target(t, from);
    if i < |t| then Ok(PlanFor(t, i))
    else Err(if from.Some? then ShardNotFound(from.value) else NoActiveShardToSplit)
  }

  /** A plan executed at once succeeds exactly when the range has room for two and the counted-up id did not
      wrap onto a shard in use. */
  lemma PlanSucceeds(t: Table, from: Option<nat>)
    requires Sound(t) && forall i :: 0 <= i < |t| ==> t[i].shard < U64_LIMIT
    ensures var i := Target(t, from);
            i < |t| ==> var plan := PlanFor(t, i);
                        (SplitError(t, plan.newShard, plan.splitFrom, plan.splitPoint).None? <==>
                         Size(t[i]) >= 2 && (MaxShard(t) < U64_LIMIT - 1 || Find(t, 0) == |t|))
  {
    hide FindActive, Find, Largest, MaxShard, Sound, NextShard;
    var i := Target(t, from);
    if i < |t| {
      ActiveAt(t, i);
      NextShardIs(t);
    }
  }

  /** A plan halves the range to within one inode, the new half being the larger; the range it names is the one whose
      inodes move to the new shard when it is executed, and the count it reports is the size of the half that stays. */
  lemma PlanHalves(t: Table, from: Option<nat>, inode: nat)
    requires Sound(t) && Target(t, from) < |t|
    ensures var i := Target(t, from);
            var plan := PlanFor(t, i);
            var stays, moves := plan.splitPoint - t[i].start, t[i].end - plan.splitPoint;
            && stays <= moves <= stays + 1
            && plan.range == (plan.splitPoint, t[i].end) && plan.affected == stays
            && (SplitError(t, plan.newShard, plan.splitFrom, plan.splitPoint).None? &&
                t[i].start <= inode < t[i].end ==>
                  RouteOf(Split(t, i, plan.newShard, plan.splitPoint), inode) ==
                  if inode < plan.range.0 then t[i].shard else plan.newShard)
  {
    var i := Target(t, from);
    var plan := PlanFor(t, i);
    hide FindActive, Largest, RouteOf, NextShard, Split;
    ActiveAt(t, i);
    if SplitError(t, plan.newShard, plan.splitFrom, plan.splitPoint).None? && t[i].start <= inode < t[i].end {
      SplitReroutes(t, plan.newShard, plan.splitFrom, plan.splitPoint, inode);
      OwnerRoutes(t, i, inode);
    }
  }

  lemma NextShardIs(t: Table)
    requires forall i :: 0 <= i < |t| ==> t[i].shard < U64_LIMIT
    ensures NextShard(t) == if MaxShard(t) < U64_LIMIT - 1 then MaxShard(t) + 1 else 0
    ensures MaxShard(t) < U64_LIMIT - 1 ==> Find(t, NextShard(t)) == |t|
  {
    hide MaxShard, Find;
    var top := MaxShard(t);
    if t != [] {
      var i :| 0 <= i < |t| && t[i].shard == top;
    }
  }

  lemma ActiveAt(t: Table, i: nat)
    requires Sound(t) && i < |t| && t[i].state == Active
    ensures FindActive(t, t[i].shard) == i
  {}

  // ---------- sorting a snapshot ----------

  function Insert(e: Entry, t: Table): Table {
    if t == [] || e.start <= t[0].start then [e] + t else [t[0]] + Insert(e, t[1..])
  }

  /** Stable sort by range start. */
  function SortByStart(t: Table): Table {
    if t == [] then [] else Insert(t[0], SortByStart(t[1..]))
  }

  ghost predicate Ascending(t: Table) {
    forall i, j :: 0 <= i < j < |t| ==> t[i].start <= t[j].start
  }

  lemma {:induction false} InsertPermutes(e: Entry, t: Table)
    ensures multiset(Insert(e, t)) == multiset([e]) + multiset(t)
  {
    if t != [] && e.start > t[0].start {
      InsertPermutes(e, t[1..]);
      assert t == [t[0]] + t[1..];
    }
  }

  lemma {:induction false} SortPermutes(t: Table)
    ensures multiset(SortByStart(t)) == multiset(t)
  {
    if t != [] {
      SortPermutes(t[1..]);
      InsertPermutes(t[0], SortByStart(t[1..]));
      assert t == [t[0]] + t[1..];
    }
  }

  lemma {:induction false} InsertAscends(e: Entry, t: Table)
    requires Ascending(t)
    ensures Ascending(Insert(e, t))
  {
    if t != [] && e.start > t[0].start {
      InsertAscends(e, t[1..]);
      InsertPermutes(e, t[1..]);
      var rest := Insert(e, t[1..]);
      forall j | 0 <= j < |rest|
        ensures t[0].start <= rest[j].start
      {
        assert rest[j] in multiset(rest);
        assert rest[j] == e || rest[j] in t[1..];
      }
    }
  }

  lemma {:induction false} SortAscends(t: Table)
    ensures Ascending(SortByStart(t))
  {
    if t != [] {
      SortAscends(t[1..]);
      InsertAscends(t[0], SortByStart(t[1..]));
    }
  }

  /** A sound table is the only ascending arrangement of its entries. */
  lemma {:induction false} OneArrangement(t: Table, u: Table)
    requires Sound(t) && Ascending(u) && multiset(u) == multiset(t)
    ensures u == t
    decreases |t|
  {
    SameLength(t, u);
    if t != [] {
      var n := |t| - 1;
      SameLast(t, u, n);
      SameRest(t, u, n);
      OneArrangement(t[..n], u[..n]);
      assert t == t[..n] + [t[n]] && u == u[..n] + [u[n]];
    }
  }

  lemma SameLength(t: Table, u: Table)
    requires multiset(u) == multiset(t)
    ensures |u| == |t|
  {
    assert |multiset(u)| == |u| && |multiset(t)| == |t|;
  }

  lemma SameRest(t: Table, u: Table, n: nat)
    requires |t| == |u| == n + 1 && multiset(u) == multiset(t) && u[n] == t[n]
    ensures multiset(u[..n]) == multiset(t[..n])
  {
    assert t == t[..n] + [t[n]] && u == u[..n] + [u[n]];
    assert multiset(t[..n]) == multiset(t) - multiset([t[n]]);
    assert multiset(u[..n]) == multiset(u) - multiset([u[n]]);
  }

  lemma SameLast(t: Table, u: Table, n: nat)
    requires Sound(t) && Ascending(u) && multiset(u) == multiset(t) && |t| == |u| == n + 1
    ensures u[n] == t[n]
  {
    assert u[n] in multiset(u) && t[n] in multiset(t);
    var i :| 0 <= i < |t| && t[i] == u[n];
    var j :| 0 <= j < |u| && u[j] == t[n];
    if i < n {
      Ordered(t, i, n);
    }
  }

  /** A snapshot rebuilds the table it was taken of, in whatever order its entries arrive. */
  lemma SnapshotRestores(t: Table, shuffled: Table)
    requires Sound(t) && multiset(shuffled) == multiset(t)
    ensures SortByStart(shuffled) == t
  {
    SortAscends(shuffled);
    SortPermutes(shuffled);
    OneArrangement(t, SortByStart(shuffled));
  }

  // ---------- whole runs ----------

  datatype Op =
    | Add(shard: nat, from: nat, point: nat)
    | Execute(plan: Plan)
    | AddAuto(source: Option<nat>)
    | DrainOp(shard: nat)
    | RemoveOp(shard: nat)

  function AddResult(t: Table, shard: nat, from: nat, point: nat): Table {
    if SplitError(t, shard, from, point).None? then Split(t, FindActive(t, from), shard, point) else t
  }

  function Step(t: Table, op: Op): Table {
    match op
    case Add(shard, from, point) => AddResult(t, shard, from, point)
    case Execute(plan) => AddResult(t, plan.newShard, plan.splitFrom, plan.splitPoint)
    case AddAuto(from) =>
      var plan := PlanAdd(t, from);
      if plan.Ok? then AddResult(t, plan.value.newShard, plan.value.splitFrom, plan.value.splitPoint) else t
    case DrainOp(shard) => if FindActive(t, shard) < |t| then Drain(t, shard) else t
    case RemoveOp(shard) => if RemoveError(t, shard).None? then Remove(t, Find(t, shard)) else t
  }

  function Run(t: Table, ops: seq<Op>): Table
    decreases |ops|
  {
    if ops == [] then t else Step(Run(t, ops[..|ops| - 1]), ops[|ops| - 1])
  }

  lemma AddSound(t: Table, shard: nat, from: nat, point: nat)
    requires Sound(t)
    ensures Sound(AddResult(t, shard, from, point))
  {
    if SplitError(t, shard, from, point).None? {
      SplitSound(t, shard, from, point);
    }
  }

  lemma StepSound(t: Table, op: Op)
    requires Sound(t)
    ensures Sound(Step(t, op))
  {
    match op
    case Add(shard, from, point) => AddSound(t, shard, from, point);
    case Execute(plan) => AddSound(t, plan.newShard, plan.splitFrom, plan.splitPoint);
    case AddAuto(from) =>
      var plan := PlanAdd(t, from);
      if plan.Ok? {
        AddSound(t, plan.value.newShard, plan.value.splitFrom, plan.value.splitPoint);
      }
    case DrainOp(shard) => DrainReroutes(t, shard, 0);
    case RemoveOp(shard) =>
      if RemoveError(t, shard).None? {
        RemoveSound(t, Find(t, shard));
      }
  }

  /** Every run of splits, plans of any age, drains and removals keeps the table sound. */
  lemma {:induction false} RunSound(t: Table, ops: seq<Op>)
    requires Sound(t)
    ensures Sound(Run(t, ops))
    decreases |ops|
  {
    if ops != [] {
      RunSound(t, ops[..|ops| - 1]);
      StepSound(Run(t, ops[..|ops| - 1]), ops[|ops| - 1]);
    }
  }

  /** In any step an inode moves only from an active shard to a brand-new one, or at a removal from the removed
      shard to its heir. */
  lemma StepReroutes(t: Table, op: Op, inode: nat)
    requires Sound(t)
    ensures var before, after := RouteOf(t, inode), RouteOf(Step(t, op), inode);
            before != after ==>
              (if op.RemoveOp? then before == op.shard && after == Heir(t, Find(t, op.shard))
               else !op.DrainOp? && (forall e :: e in t ==> e.shard != after) &&
                    exists i :: 0 <= i < |t| && t[i].shard == before && t[i].state == Active && t[i].start < inode)
  {
    hide Split, Drain, Remove, RouteOf, Sound;
    match op
    case Add(shard, from, point) => AddReroutes(t, shard, from, point, inode);
    case Execute(plan) => AddReroutes(t, plan.newShard, plan.splitFrom, plan.splitPoint, inode);
    case AddAuto(from) =>
      var plan := PlanAdd(t, from);
      if plan.Ok? {
        AddReroutes(t, plan.value.newShard, plan.value.splitFrom, plan.value.splitPoint, inode);
      }
    case DrainOp(shard) => DrainReroutes(t, shard, inode);
    case RemoveOp(shard) =>
      if RemoveError(t, shard).None? {
        RemoveReroutes(t, Find(t, shard), inode);
      }
  }

  lemma AddReroutes(t: Table, shard: nat, from: nat, point: nat, inode: nat)
    requires Sound(t)
    ensures var before, after := RouteOf(t, inode), RouteOf(AddResult(t, shard, from, point), inode);
            before != after ==>
              && after == shard && (forall e :: e in t ==> e.shard != after)
              && exists i :: 0 <= i < |t| && t[i].shard == before && t[i].state == Active && t[i].start < inode
  {
    if SplitError(t, shard, from, point).None? {
      SplitReroutes(t, shard, from, point, inode);
      var i := FindActive(t, from);
      assert t[i].shard == from && t[i].state == Active && t[i].start < point;
    }
  }

  // ---------- the map itself ----------

  function Evenly(n: nat, each: nat): (r: Table)
    ensures |r| == n && forall i :: 0 <= i < n ==> r[i] == Entry(i * each, (i + 1) * each, i, Active)
  {
    seq(n, i requires 0 <= i < n => Entry(i * each, (i + 1) * each, i, Active))
  }

  lemma EvenlySound(n: nat, each: nat)
    requires each > 0
    ensures Sound(Evenly(n, each))
  {}

  function PerShard(n: nat): nat {
    if n == 0 then RANGE else Min((U64_LIMIT - 1) / n, RANGE)
  }

  /** The ranges have a million inodes each whenever that fits 64 bits, and otherwise the most that does. */
  lemma PerShardIs(n: nat)
    requires n > 0
    ensures n * 1_000_000 < U64_LIMIT ==> PerShard(n) == 1_000_000
    ensures n * 1_000_000 >= U64_LIMIT ==> n * PerShard(n) < U64_LIMIT <= n * (PerShard(n) + 1)
  {
    var q := (U64_LIMIT - 1) / n;
    assert q * n <= U64_LIMIT - 1 < (q + 1) * n;
    if q < 1_000_000 {
      MulMono(q + 1, 1_000_000, n);
    } else {
      MulMono(1_000_000, q, n);
    }
  }

  lemma NoSaturation(n: nat, i: nat)
    requires i < n < U64_LIMIT
    ensures PerShard(n) > 0 && i * PerShard(n) + PerShard(n) < U64_LIMIT
  {
    var q := (U64_LIMIT - 1) / n;
    var each := PerShard(n);
    assert q * n <= U64_LIMIT - 1;
    assert (i + 1) * each <= n * each <= n * q by {
      MulMono(i + 1, n, each);
      MulMono(each, q, n);
    }
    assert (i + 1) * each == i * each + each;
  }

  lemma MulMono(a: nat, b: nat, c: nat)
    requires a <= b
    ensures a * c <= b * c
  {}

  lemma RemoveForm(t: Table, i: nat)
    requires i < |t|
    ensures var u := if i > 0 then t[i - 1 := t[i - 1].(end := t[i].end)] else t;
            u[..i] + u[i + 1..] == Remove(t, i)
  {}

  class Map {
    var entries: Table

    ghost predicate Valid()
      reads this
    {
      Sound(entries)
    }

    /** Equal ranges of at most a million inodes; the saturating sum never saturates. */
    constructor FromShardCount(n: nat)
      requires n < U64_LIMIT
      ensures Valid() && entries == Evenly(n, PerShard(n))
    {
      var each := PerShard(n);
      var t: Table := [];
      var start := 0;
      for i := 0 to n
        invariant t == Evenly(i, each) && start == i * each
      {
        NoSaturation(n, i);
        var end := Min(start + each, U64_LIMIT - 1);
        assert end == (i + 1) * each;
        t := t + [Entry(start, end, i, Active)];
        start := end;
      }
      if n > 0 {
        NoSaturation(n, 0);
      }
      EvenlySound(n, each);
      entries := t;
    }

    /** Rebuild from a snapshot whose entries may come in any order. */
    constructor FromEntries(snapshot: Table)
      ensures Ascending(entries) && multiset(entries) == multiset(snapshot)
      ensures forall t :: Sound(t) && multiset(t) == multiset(snapshot) ==> entries == t
    {
      SortAscends(snapshot);
      SortPermutes(snapshot);
      forall t | Sound(t) && multiset(t) == multiset(snapshot)
        ensures SortByStart(snapshot) == t
      {
        OneArrangement(t, SortByStart(snapshot));
      }
      entries := SortByStart(snapshot);
    }

    /** Binary search for the last entry that starts at or before the inode. */
    method Route(inode: nat) returns (shard: nat)
      requires Valid()
      ensures shard == RouteOf(entries, inode)
    {
      if entries == [] {
        return 0;
      }
      var lo, hi := 0, |entries|;
      while lo < hi
        invariant 0 <= lo <= hi <= |entries|
        invariant lo > 0 ==> entries[lo - 1].start <= inode
        invariant hi < |entries| ==> inode < entries[hi].start
      {
        var mid := (lo + hi) / 2;
        if entries[mid].start <= inode {
          lo := mid + 1;
        } else {
          hi := mid;
        }
      }
      var idx := if lo == 0 then 0 else lo - 1;
      if idx + 1 < |entries| {
        Ordered(entries, idx, idx + 1);
      }
      OwnerRoutes(entries, idx, inode);
      shard := entries[idx].shard;
    }

    method AddShard(shard: nat, from: nat, point: nat) returns (r: Result<()>)
      requires Valid()
      modifies this
      ensures Valid() && entries == Step(old(entries), Add(shard, from, point))
      ensures r == match SplitError(old(entries), shard, from, point) case Some(e) => Err(e) case None => Ok(())
    {
      StepSound(entries, Add(shard, from, point));
      var i := FindActive(entries, from);
      if i == |entries| {
        return Err(ShardNotFound(from));
      }
      var end := entries[i].end;
      if point <= entries[i].start || point >= end {
        return Err(InvalidSplitPoint(point));
      }
      if Find(entries, shard) < |entries| {
        return Err(ShardAlreadyExists(shard));
      }
      var t := entries[i := entries[i].(end := point)];
      assert t[..i + 1] == entries[..i] + [t[i]];
      entries := t[..i + 1] + [Entry(point, end, shard, Active)] + t[i + 1..];
      assert entries == Split(old(entries), i, shard, point);
      r := Ok(());
    }

    /** Any plan, however old, is checked again before it is carried out. */
    method ExecuteAddShard(plan: Plan) returns (r: Result<()>)
      requires Valid()
      modifies this
      ensures Valid() && entries == Step(old(entries), Execute(plan))
      ensures r.Err? ==> entries == old(entries)
      ensures r.Ok? <==> SplitError(old(entries), plan.newShard, plan.splitFrom, plan.splitPoint).None?
    {
      hide SplitError, Split;
      r := AddShard(plan.newShard, plan.splitFrom, plan.splitPoint);
    }

    method AddShardAuto(from: Option<nat>, dryRun: bool) returns (r: Result<Plan>)
      requires Valid()
      modifies this
      ensures Valid() && entries == if dryRun then old(entries) else Step(old(entries), AddAuto(from))
      ensures r.Ok? || dryRun ==> r == PlanAdd(old(entries), from)
      ensures !dryRun && r.Ok? ==>
                SplitError(old(entries), r.value.newShard, r.value.splitFrom, r.value.splitPoint).None?
      ensures r.Err? ==> entries == old(entries)
    {
      hide SplitError, Split, PlanAdd;
      r := PlanAdd(entries, from);
      if r.Ok? && !dryRun {
        var done := ExecuteAddShard(r.value);
        if done.Err? {
          r := Err(done.error);
        }
      }
    }

    method DrainShard(shard: nat) returns (r: Result<()>)
      requires Valid()
      modifies this
      ensures Valid() && entries == Step(old(entries), DrainOp(shard))
      ensures r == if FindActive(old(entries), shard) < |old(entries)| then Ok(()) else Err(ShardNotFound(shard))
    {
      StepSound(entries, DrainOp(shard));
      if FindActive(entries, shard) == |entries| {
        return Err(ShardNotFound(shard));
      }
      for i := 0 to |entries|
        invariant |entries| == |old(entries)|
        invariant forall j :: 0 <= j < |entries| ==>
                    entries[j] == if j < i then Drain(old(entries), shard)[j] else old(entries)[j]
      {
        if entries[i].shard == shard {
          entries := entries[i := entries[i].(state := Draining)];
        }
      }
      assert entries == Drain(old(entries), shard);
      r := Ok(());
    }

    method RemoveShard(shard: nat) returns (r: Result<()>)
      requires Valid()
      modifies this
      ensures Valid() && entries == Step(old(entries), RemoveOp(shard))
      ensures r == match RemoveError(old(entries), shard) case Some(e) => Err(e) case None => Ok(())
    {
      StepSound(entries, RemoveOp(shard));
      hide Find, Remove, Sound;
      var i := Find(entries, shard);
      if !IsDraining(entries, shard) {
        if i < |entries| {
          return Err(ShardNotDraining(shard));
        }
        return Err(ShardNotFound(shard));
      }
      RemoveForm(entries, i);
      if i > 0 {
        entries := entries[i - 1 := entries[i - 1].(end := entries[i].end)];
      }
      entries := entries[..i] + entries[i + 1..];
      r := Ok(());
    }
  }
}
