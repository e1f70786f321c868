/** The key-value cache engine: sessions, blocks, buffer pool, memory budget, replicated slots and the
    orphan-needle queue, updated together by every operation. */
module KvEngine {
  import opened Bytes
  import opened MapSum
  import opened Options
  import opened Sets
  import opened KvBlocks
  import opened KvGc
  import opened KvTracking
  import R = KvReplication

  datatype Session = Session(blockIds: seq<int>, ttl: Option<nat>, lastAccessed: nat)

  type Sessions = map<string, Session>

  datatype Stats = Stats(used: nat, blocks: nat, sessions: nat, evictions: nat)

  datatype Result<T> = Ok(value: T) | Err

  predicate SameCounts(before: Stats, after: Stats) {
    after.blocks == before.blocks && after.sessions == before.sessions
  }

  /** The allocator's bound once it has moved past the id. */
  function Past(nextId: int, id: int): int {
    if nextId <= id then id + 1 else nextId
  }

  // ---------- the invariant, piece by piece ----------

  ghost predicate PoolOk(free: seq<Bytes>, blockSize: nat) {
    forall i :: 0 <= i < |free| ==> |free[i]| == blockSize
  }

  /** A resident block holds, in a buffer of the pool's size, as much of its bytes as fits; an evicted
      block holds nothing. */
  ghost predicate BlockOk(b: Block, blockSize: nat, bytes: Bytes) {
    && b.meta.size == |bytes|
    && (b.resident ==> |b.data| == blockSize && b.data[..Min(|bytes|, blockSize)] == bytes[..Min(|bytes|, blockSize)])
    && (!b.resident ==> b.data == [])
  }

  ghost predicate BlocksOk(blocks: Blocks, blockSize: nat, nextId: int, written: map<int, Bytes>) {
    forall id :: id in blocks ==> id < nextId && id in written && BlockOk(blocks[id], blockSize, written[id])
  }

  ghost predicate Accounted(blocks: Blocks, stats: Stats, budget: nat) {
    stats.used == ResidentBytes(blocks) && stats.blocks == |blocks| && stats.used <= budget
  }

  /** Every block is listed by its own session. */
  ghost predicate Listed(blocks: Blocks, sessions: Sessions) {
    forall id :: id in blocks ==>
                   blocks[id].meta.session in sessions && id in sessions[blocks[id].meta.session].blockIds
  }

  ghost predicate Mapped(blocks: Blocks, fids: FidMap) {
    forall id :: id in blocks ==> id in fids && fids[id] == blocks[id].meta.fid
  }

  /** Every id mapped or listed came from the allocator. */
  ghost predicate Below(fids: FidMap, sessions: Sessions, nextId: int) {
    (forall id :: id in fids ==> id < nextId) &&
    (forall s, id :: s in sessions && id in sessions[s].blockIds ==> id < nextId)
  }

  // ---------- choosing the next group ----------

  /** Of the blocks looked at so far, `session` is that of the oldest one with this pin mode. */
  ghost predicate Tracks(blocks: Blocks, left: set<int>, pin: Pin, time: nat, session: Option<string>) {
    && (forall c :: c in blocks && c !in left && blocks[c].resident && blocks[c].meta.pin == pin ==>
          time <= blocks[c].meta.lastAccessed)
    && (session.None? ==> time == U64_MAX)
    && (session.Some? ==> exists id :: id in blocks && blocks[id].resident && blocks[id].meta.pin == pin &&
                                      time == blocks[id].meta.lastAccessed < U64_MAX &&
                                      blocks[id].meta.session == session.value)
  }

  lemma TracksNext(blocks: Blocks, left: set<int>, pin: Pin, time: nat, session: Option<string>, id: int)
    requires Tracks(blocks, left, pin, time, session) && id in left && id in blocks
    ensures var b := blocks[id];
            if b.resident && b.meta.pin == pin && b.meta.lastAccessed < time
            then time <= U64_MAX ==> Tracks(blocks, left - {id}, pin, b.meta.lastAccessed, Some(b.meta.session))
            else Tracks(blocks, left - {id}, pin, time, session)
  {}

  lemma TracksAll(blocks: Blocks, pin: Pin, time: nat, session: Option<string>)
    requires Tracks(blocks, {}, pin, time, session)
    ensures session.Some? ==> exists id :: Anchors(blocks, id, pin) && blocks[id].meta.session == session.value
    ensures session.None? ==> Spent(blocks, pin)
  {}

  /** One pass over the blocks, in no particular order, remembering the oldest of each pin mode. */
  method FindVictim(blocks: Blocks) returns (g: Option<Group>)
    ensures g.Some? ==> Next(blocks, g.value)
    ensures g.None? ==> NothingEvictable(blocks)
  {
    var noneTime: nat, softTime: nat := U64_MAX, U64_MAX;
    var noneSession: Option<string>, softSession: Option<string> := None, None;
    var left := blocks.Keys;
    while left != {}
      invariant left <= blocks.Keys && noneTime <= U64_MAX && softTime <= U64_MAX
      invariant Tracks(blocks, left, Unpinned, noneTime, noneSession)
      invariant Tracks(blocks, left, Soft, softTime, softSession)
      decreases left
    {
      hide Tracks;
      var id := Pick(left);
      var b := blocks[id];
      TracksNext(blocks, left, Unpinned, noneTime, noneSession, id);
      TracksNext(blocks, left, Soft, softTime, softSession, id);
      if b.resident {
        if b.meta.pin == Unpinned && b.meta.lastAccessed < noneTime {
          noneTime, noneSession := b.meta.lastAccessed, Some(b.meta.session);
        } else if b.meta.pin == Soft && b.meta.lastAccessed < softTime {
          softTime, softSession := b.meta.lastAccessed, Some(b.meta.session);
        }
      }
      left := left - {id};
    }
    TracksAll(blocks, Unpinned, noneTime, noneSession);
    TracksAll(blocks, Soft, softTime, softSession);
    g := if noneSession.Some? then Some(Group(noneSession.value, Unpinned))
         else if softSession.Some? then Some(Group(softSession.value, Soft))
         else None;
  }

  class KVCacheEngine {
    const maxMemory: nat
    const blockSize: nat
    var free: seq<Bytes>
    var blocks: Blocks
    var sessions: Sessions
    var namespaces: set<string>
    var fids: FidMap
    var queue: Queue
    var slots: R.Slots
    var stats: Stats
    var nextId: int
    ghost var written: map<int, Bytes>   // the bytes each block id was stored with
    ghost var owed: set<string>          // fids installed and not reclaimed since

    /** Memory and listing: what every operation keeps. */
    ghost predicate Valid()
      reads this
    {
      ValidBelow(nextId)
    }

    /** The invariant, with every id in use below the bound. */
    ghost predicate ValidBelow(bound: int)
      reads this
    {
      && blockSize > 0 && PoolOk(free, blockSize) && BlocksOk(blocks, blockSize, bound, written)
      && Accounted(blocks, stats, maxMemory) && stats.sessions == |sessions|
      && Listed(blocks, sessions) && Below(fids, sessions, bound)
    }

    /** Needle tracking: every fid owed is still referenced or waits in the queue. */
    ghost predicate Tracked()
      reads this
    {
      Mapped(blocks, fids) && Deduped(queue) && NoLeak(owed, slots, fids, queue)
    }

    constructor (maxMemory: nat, blockSize: nat)
      requires blockSize > 0
      ensures Valid() && Tracked() && blocks == map[] && sessions == map[] && stats.used == 0 && owed == {}
      ensures slots == map[] && fids == map[] && nextId == 1 && stats == Stats(0, 0, 0, 0)
      ensures this.maxMemory == maxMemory && this.blockSize == blockSize
    {
      this.maxMemory, this.blockSize := maxMemory, blockSize;
      var initial := maxMemory / blockSize / 10;
      free := seq(if initial < 1 then 1 else initial, i => Zeros(blockSize));
      blocks, sessions, namespaces, fids := map[], map[], {}, map[];
      queue, slots, stats, nextId := [], map[], Stats(0, 0, 0, 0), 1;
      written, owed := map[], {};
      new;
      assert Resident(blocks) == map[];
    }

    // ---------- buffer pool ----------

    method Allocate() returns (buf: Bytes)
      requires PoolOk(free, blockSize)
      modifies this`free
      ensures |buf| == blockSize && PoolOk(free, blockSize)
      ensures |free| == SatSub(|old(free)|, 1)
    {
      if |free| > 0 {
        buf := free[|free| - 1];
        free := free[..|free| - 1];
      } else {
        buf := Zeros(blockSize);
      }
    }

    method Deallocate(buf: Bytes)
      requires PoolOk(free, blockSize) && (buf == [] || |buf| == blockSize)
      modifies this`free
      ensures PoolOk(free, blockSize)
      ensures free == if buf == [] then old(free) else old(free) + [buf]
    {
      if buf == [] {
        return;
      }
      free := free + [buf];
    }

    // ---------- eviction ----------

    /** Release the bytes of every block of the group; the buffers go back to the pool. */
    method EvictOneGroup(g: Group, ghost bound: int) returns (freed: nat)
      requires PoolOk(free, blockSize) && BlocksOk(blocks, blockSize, bound, written) && blockSize > 0
      requires stats.used == ResidentBytes(blocks)
      modifies this`blocks, this`free, this`stats
      ensures blocks == EvictGroup(old(blocks), g)
      ensures PoolOk(free, blockSize) && BlocksOk(blocks, blockSize, bound, written)
      ensures stats.used == ResidentBytes(blocks) && freed + stats.used == old(stats).used &&
              SameCounts(old(stats), stats)
      ensures |free| + |Resident(blocks)| == |old(free)| + |Resident(old(blocks))|
      ensures stats.evictions + |old(free)| == old(stats).evictions + |free|
    {
      hide PoolOk, BlocksOk, ResidentBytes, Resident, Evict, EvictSome, EvictGroup;
      freed := 0;
      var group := set id | id in blocks && InGroup(blocks[id], g);
      EvictNone(blocks);
      ghost var all := group;
      assert all - group == {};
      GroupIsResident(blocks, g, all);
      hide InGroup;
      while group != {}
        invariant group <= all && blocks == EvictSome(old(blocks), all - group)
        invariant PoolOk(free, blockSize) && BlocksOk(blocks, blockSize, bound, written)
        invariant stats.used == ResidentBytes(blocks) && freed + stats.used == old(stats).used &&
                  SameCounts(old(stats), stats)
        invariant |free| + |Resident(blocks)| == |old(free)| + |Resident(old(blocks))|
        invariant stats.evictions + |old(free)| == old(stats).evictions + |free|
        decreases group
      {
        var id := Pick(group);
        EvictSomeStep(old(blocks), all - group, id);
        assert all - group + {id} == all - (group - {id});
        freed := freed + blocks[id].meta.size;
        EvictBlock(id, bound);
        group := group - {id};
      }
      assert all - group == all;
      EvictedAll(old(blocks), g, all);
    }

    method EvictBlock(id: int, ghost bound: int)
      requires id in blocks && blocks[id].resident
      requires PoolOk(free, blockSize) && BlocksOk(blocks, blockSize, bound, written) && blockSize > 0
      requires stats.used == ResidentBytes(blocks)
      modifies this`blocks, this`free, this`stats
      ensures blocks == old(blocks)[id := Evict(old(blocks)[id])]
      ensures PoolOk(free, blockSize) && BlocksOk(blocks, blockSize, bound, written)
      ensures stats.used == ResidentBytes(blocks) && stats.used + old(blocks)[id].meta.size == old(stats).used &&
              SameCounts(old(stats), stats)
      ensures |free| + |Resident(blocks)| == |old(free)| + |Resident(old(blocks))|
      ensures stats.evictions + |old(free)| == old(stats).evictions + |free|
    {
      ResidentEvict(blocks, id);
      ResidentCount(blocks, id);
      var b := blocks[id];
      Deallocate(b.data);
      blocks := blocks[id := Evict(b)];
      stats := stats.(used := SatSub(stats.used, b.meta.size), evictions := stats.evictions + 1);
    }

    /** Evict group after group until enough bytes are free or nothing evictable is left.  The groups go in
        the order of EvictionRun, and no group goes that was not needed. */
    method EvictLru(needed: nat, ghost bound: int) returns (ok: bool, ghost groups: seq<Group>)
      requires ValidBelow(bound)
      modifies this`blocks, this`free, this`stats
      ensures ValidBelow(bound)
      ensures EvictionRun(old(blocks), groups) && blocks == EvictAll(old(blocks), groups)
      ensures stats.used <= old(stats).used && (ok <==> old(stats).used - stats.used >= needed)
      ensures SameCounts(old(stats), stats)
      ensures !ok ==> NothingEvictable(blocks)
      ensures groups != [] ==> old(stats).used - ResidentBytes(EvictAll(old(blocks), groups[..|groups| - 1])) < needed
      ensures |free| + |Resident(blocks)| == |old(free)| + |Resident(old(blocks))|
      ensures stats.evictions + |old(free)| == old(stats).evictions + |free|
      ensures forall id :: id in old(blocks) && old(blocks)[id].meta.pin == Hard ==>
                             id in blocks && blocks[id] == old(blocks)[id]
    {
      hide PoolOk, BlocksOk, ResidentBytes, Resident, EvictGroup, Next, NothingEvictable, Listed, Below;
      var evicted: nat := 0;
      groups := [];
      var stuck := false;
      while evicted < needed && blocks != map[] && !stuck
        invariant PoolOk(free, blockSize) && BlocksOk(blocks, blockSize, bound, written)
        invariant stats.used == ResidentBytes(blocks) && evicted + stats.used == old(stats).used &&
                  SameCounts(old(stats), stats)
        invariant EvictionRun(old(blocks), groups) && blocks == EvictAll(old(blocks), groups)
        invariant stuck ==> NothingEvictable(blocks)
        invariant groups != [] ==>
                    old(stats).used - ResidentBytes(EvictAll(old(blocks), groups[..|groups| - 1])) < needed
        invariant |free| + |Resident(blocks)| == |old(free)| + |Resident(old(blocks))|
        invariant stats.evictions + |old(free)| == old(stats).evictions + |free|
        decreases |Resident(blocks)|, !stuck
      {
        var g := FindVictim(blocks);
        if g.None? {
          stuck := true;
        } else {
          NextShrinks(blocks, g.value);
          var freed := EvictOneGroup(g.value, bound);
          evicted := evicted + freed;
          assert (groups + [g.value])[..|groups|] == groups;
          groups := groups + [g.value];
        }
      }
      if blocks == map[] {
        EmptyIsSpent();
      }
      ok := evicted >= needed;
      EvictionKeeps(old(blocks), groups, sessions);
      EvictionKeepsIdentity(old(blocks), groups);
    }

    /** Make room for a request: nothing goes when it fits already, and otherwise it succeeds exactly when the
        groups that went held as many bytes as it needs. */
    method EnsureMemory(needed: nat, ghost bound: int) returns (ok: bool, ghost groups: seq<Group>)
      requires ValidBelow(bound)
      modifies this`blocks, this`free, this`stats
      ensures ValidBelow(bound)
      ensures EvictionRun(old(blocks), groups) && blocks == EvictAll(old(blocks), groups)
      ensures SameIdentity(old(blocks), blocks)
      ensures SameCounts(old(stats), stats)
      ensures old(stats).used + needed <= maxMemory ==> ok && groups == [] && stats == old(stats)
      ensures old(stats).used + needed > maxMemory ==> (ok <==> old(stats).used - stats.used >= needed)
      ensures ok ==> stats.used + needed <= maxMemory
      ensures !ok ==> NothingEvictable(blocks)
    {
      hide EvictAll, EvictionRun, NothingEvictable, PoolOk, BlocksOk, Listed, Below, ResidentBytes, SameIdentity;
      if stats.used + needed <= maxMemory {
        EvictNothing(blocks);
        ok, groups := true, [];
      } else {
        ok, groups := EvictLru(needed, bound);
      }
      EvictionTracks(old(blocks), groups);
    }

    // ---------- storing and reading blocks ----------

    /** Copy the bytes into a pool buffer and insert the block.  The counters are right afterwards exactly when there
        was no block under this id: one that was is overwritten and counted twice. */
    method InsertBlock(id: int, meta: Meta, data: Bytes, ghost bound: int)
      requires PoolOk(free, blockSize) && BlocksOk(blocks, blockSize, bound, written) &&
               Accounted(blocks, stats, maxMemory)
      requires id < bound && meta.size == |data| && stats.used + |data| <= maxMemory
      modifies this`free, this`blocks, this`stats, this`written
      ensures PoolOk(free, blockSize) && BlocksOk(blocks, blockSize, bound, written)
      ensures Accounted(blocks, stats, maxMemory) <==> id !in old(blocks)
      ensures stats.blocks == old(stats).blocks + 1
      ensures id in blocks && blocks == old(blocks)[id := blocks[id]] && blocks[id].resident && blocks[id].meta == meta
      ensures written == old(written)[id := data] && stats.used == old(stats).used + |data|
      ensures stats.sessions == old(stats).sessions
    {
      hide PoolOk, BlocksOk, ResidentBytes, Accounted, BlockOk;
      var buf := Allocate();
      var n := Min(|data|, |buf|);
      var block := Block(meta, data[..n] + buf[n..], true);
      FreshBlockOk(block, blockSize, buf, data);
      CacheKeeps(blocks, blockSize, bound, written, id, block, data);
      if id in blocks {
        OverwriteMiscounts(blocks, stats, maxMemory, id, block);
      } else {
        CacheAccounts(blocks, stats, maxMemory, id, block);
      }
      blocks := blocks[id := block];
      stats := stats.(blocks := stats.blocks + 1, used := stats.used + |data|);
      written := written[id := data];
    }

    /** Give the session its new list and touch it. */
    method ListBlock(session: string, ids: seq<int>, now: nat)
      requires session in sessions
      modifies this`sessions
      ensures sessions == old(sessions)[session := Session(ids, old(sessions)[session].ttl, now)]
    {
      sessions := sessions[session := Session(ids, sessions[session].ttl, now)];
    }

    method MapBlock(id: int, fid: string)
      modifies this`fids, this`owed
      ensures fids == old(fids)[id := fid] && owed == old(owed) + {fid}
    {
      fids := fids[id := fid];
      owed := owed + {fid};
    }

    /** Install a block under every index; `ids` is the session's list with the id added. */
    method CacheBlock(id: int, session: string, ids: seq<int>, data: Bytes, fid: string, pin: Pin, now: nat,
                      ghost bound: int)
      requires ValidBelow(bound) && session in sessions && id < bound && stats.used + |data| <= maxMemory
      requires forall x :: x in ids <==> x in sessions[session].blockIds || x == id
      modifies this`free, this`blocks, this`stats, this`written, this`sessions, this`fids, this`owed
      ensures (ValidBelow(bound) <==> id !in old(blocks)) && sessions.Keys == old(sessions).Keys
      ensures Accounted(blocks, stats, maxMemory) <==> id !in old(blocks)
      ensures stats.blocks == old(stats).blocks + 1
      ensures id in blocks && blocks == old(blocks)[id := blocks[id]]
      ensures blocks[id].resident && blocks[id].meta == Meta(session, |data|, now, old(sessions)[session].ttl, fid, pin)
      ensures written == old(written)[id := data] && stats.used == old(stats).used + |data|
      ensures fids == old(fids)[id := fid] && owed == old(owed) + {fid}
      ensures sessions == old(sessions)[session := Session(ids, old(sessions)[session].ttl, now)]
      ensures old(Tracked()) && (id in old(fids) ==> old(fids)[id] == fid) ==> Tracked()
    {
      hide PoolOk, BlocksOk, ResidentBytes, Accounted, Listed, Below, NoLeak, Deduped, Mapped, BlockOk;
      var meta := Meta(session, |data|, now, sessions[session].ttl, fid, pin);
      BelowPut(fids, sessions, bound, id, fid, session, ids, now);
      InsertBlock(id, meta, data, bound);
      CacheTracks(old(blocks), owed, slots, fids, queue, id, blocks[id]);
      CacheLists(old(blocks), sessions, id, blocks[id], ids, now);
      ListBlock(session, ids, now);
      MapBlock(id, fid);
    }

    /** Store a new block under the next id, making room first.  Where every id in use came from the allocator the
        invariant is kept; in general exactly when the next id is not in use: the block under it is overwritten
        and counted twice. */
    method PutBlock(session: string, data: Bytes, fid: string, pin: Pin, now: nat, ghost bound: int)
      returns (r: Result<int>)
      requires ValidBelow(bound) && nextId <= bound
      modifies this`free, this`blocks, this`stats, this`written, this`sessions, this`fids, this`owed, this`nextId
      ensures bound == old(nextId) ==> Valid() && (old(Tracked()) ==> Tracked())
      ensures r.Err? ==> ValidBelow(bound)
      ensures r.Ok? ==> (ValidBelow(Past(bound, old(nextId))) <==> old(nextId) !in old(blocks))
      ensures r.Ok? ==> (Accounted(blocks, stats, maxMemory) <==> old(nextId) !in old(blocks))
      ensures r.Ok? ==> stats.blocks == old(stats).blocks + 1
      ensures r.Ok? ==> session in old(sessions) && r.value == old(nextId) && nextId == old(nextId) + 1
      ensures r.Ok? ==> r.value in blocks && blocks[r.value].resident && written == old(written)[r.value := data]
      ensures r.Ok? ==> blocks[r.value].meta == Meta(session, |data|, now, old(sessions)[session].ttl, fid, pin)
      ensures r.Ok? ==> var was := old(sessions)[session];
                        sessions == old(sessions)[session := Session(was.blockIds + [r.value], was.ttl, now)]
      ensures r.Ok? ==> fids == old(fids)[r.value := fid] && owed == old(owed) + {fid}
      ensures r.Err? ==> written == old(written) && nextId == old(nextId) && fids == old(fids) && owed == old(owed)
      ensures r.Err? ==> sessions == old(sessions)
      ensures r.Err? ==> session !in old(sessions) || NothingEvictable(blocks)
      ensures session in old(sessions) && old(stats).used + |data| <= maxMemory ==>
                r.Ok? && stats.used == old(stats).used + |data| && blocks.Keys == old(blocks).Keys + {old(nextId)}
      ensures r.Ok? ==> SameIdentity(Drop(old(blocks), {r.value}), Drop(blocks, {r.value}))
      ensures r.Err? ==> SameIdentity(old(blocks), blocks)
    {
      hide PoolOk, BlocksOk, ResidentBytes, Accounted, Listed, Below, NoLeak, Deduped, Mapped, NothingEvictable,
           EvictAll, EvictionRun, SameIdentity;
      if session !in sessions {
        SameIsSame(blocks);
        return Err;
      }
      var ok, _ := EnsureMemory(|data|, bound);
      SameIdentityTracks(old(blocks), blocks, fids);
      if !ok {
        return Err;
      }
      var id := nextId;
      NextIsFree(blocks, blockSize, nextId, written, fids, sessions);
      ghost var raised := Past(bound, id);
      RaiseKeeps(blocks, blockSize, bound, written, fids, sessions, raised);
      ghost var kept := blocks;
      SameKeys(old(blocks), blocks);
      nextId := nextId + 1;
      CacheBlock(id, session, sessions[session].blockIds + [id], data, fid, pin, now, raised);
      SameIdentityDrops(old(blocks), kept, id);
      DropNew(kept, id, blocks[id]);
      r := Ok(id);
    }

    /** Reserve an id; the bytes and the mapping come later. */
    method AllocBlockId() returns (id: int)
      requires Valid()
      modifies this`nextId
      ensures Valid() && (old(Tracked()) ==> Tracked())
      ensures id == old(nextId) && nextId == id + 1 && id !in blocks && id !in fids
    {
      hide PoolOk, BlocksOk, Accounted, Listed, Below, NoLeak, Deduped, Mapped;
      NextIsFree(blocks, blockSize, nextId, written, fids, sessions);
      RaiseKeeps(blocks, blockSize, nextId, written, fids, sessions, nextId + 1);
      id := nextId;
      nextId := nextId + 1;
    }

    /** The leader caches bytes under an id; a repetition changes nothing.  The invariant survives exactly when the
        id was reserved before -- the allocator would hand out any other id again -- and needle tracking when the
        id keeps its fid. */
    method StoreLeaderBlock(id: int, session: string, data: Bytes, fid: string, pin: Pin, now: nat)
      returns (r: Result<()>)
      requires Valid()
      modifies this`free, this`blocks, this`stats, this`written, this`sessions, this`fids, this`owed
      ensures ValidBelow(Past(nextId, id)) && (Valid() <==> r.Err? || id < nextId)
      ensures old(Tracked()) && (id in old(fids) ==> old(fids)[id] == fid) ==> Tracked()
      ensures id in old(blocks) ==> r.Ok? && blocks == old(blocks) && stats == old(stats) && written == old(written)
      ensures id in old(blocks) ==> sessions == old(sessions) && fids == old(fids)
      ensures id !in old(blocks) && r.Ok? ==>
                session in old(sessions) && id in blocks && blocks[id].resident && written == old(written)[id := data]
      ensures id !in old(blocks) && r.Ok? ==>
                blocks[id].meta == Meta(session, |data|, now, old(sessions)[session].ttl, fid, pin)
      ensures id !in old(blocks) && r.Ok? ==>
                var was := old(sessions)[session];
                var ids := if id in was.blockIds then was.blockIds else was.blockIds + [id];
                sessions == old(sessions)[session := Session(ids, was.ttl, now)]
      ensures id !in old(blocks) && r.Ok? ==> fids == old(fids)[id := fid] && owed == old(owed) + {fid}
      ensures r.Err? ==> written == old(written) && fids == old(fids) && owed == old(owed) && sessions == old(sessions)
      ensures r.Err? ==> session !in old(sessions) || NothingEvictable(blocks)
      ensures session in old(sessions) && old(stats).used + |data| <= maxMemory ==> r.Ok?
      ensures id !in old(blocks) && r.Ok? ==> stats.blocks == old(stats).blocks + 1
      ensures session in old(sessions) && old(stats).used + |data| <= maxMemory && id !in old(blocks) ==>
                stats.used == old(stats).used + |data| &&
                blocks.Keys == old(blocks).Keys + {id}
      ensures SameIdentity(old(blocks), if id !in old(blocks) && r.Ok? then Drop(blocks, {id}) else blocks)
    {
      hide PoolOk, BlocksOk, ResidentBytes, Accounted, Listed, Below, NoLeak, Deduped, Mapped, NothingEvictable,
           EvictAll, EvictionRun, SameIdentity;
      SameIsSame(blocks);
      ghost var bound := Past(nextId, id);
      RaiseKeeps(blocks, blockSize, nextId, written, fids, sessions, bound);
      if id in blocks {
        InUseIsReserved(blocks, blockSize, nextId, written, id);
        return Ok(());
      }
      if session !in sessions {
        return Err;
      }
      var ok, _ := EnsureMemory(|data|, nextId);
      SameIdentityTracks(old(blocks), blocks, fids);
      SameKeys(old(blocks), blocks);
      RaiseKeeps(blocks, blockSize, nextId, written, fids, sessions, bound);
      if !ok {
        return Err;
      }
      ghost var kept := blocks;
      CacheBlock(id, session, WithId(sessions[session].blockIds, id), data, fid, pin, now, bound);
      InUseIsReserved(blocks, blockSize, nextId, written, id);
      DropNew(kept, id, blocks[id]);
      r := Ok(());
    }

    /** A read returns nothing, or the block's own bytes as far as they fit a buffer. */
    method GetBlockData(id: int, now: nat) returns (r: Option<(Meta, Bytes)>)
      requires Valid()
      modifies this`blocks
      ensures Valid() && (old(Tracked()) ==> Tracked())
      ensures r.None? <==> id !in old(blocks) || !old(blocks)[id].resident
      ensures r.None? ==> blocks == old(blocks)
      ensures r.Some? ==> id in written && blocks == old(blocks)[id :=
                            Block(old(blocks)[id].meta.(lastAccessed := now), old(blocks)[id].data, true)]
      ensures r.Some? ==> r.value == (blocks[id].meta, written[id][..Min(|written[id]|, blockSize)])
      ensures r.Some? && |written[id]| <= blockSize ==> r.value.1 == written[id]
    {
      hide PoolOk, BlocksOk, ResidentBytes, Accounted, Listed, Below, NoLeak, Deduped, Mapped;
      if id !in blocks || !blocks[id].resident {
        return None;
      }
      HoldsItsBytes(blocks, blockSize, nextId, written, id);
      TouchKeeps(blocks, blockSize, nextId, written, stats, maxMemory, id, now);
      TouchLists(blocks, sessions, fids, id, now);
      var b := Touch(blocks[id], now);
      var take := Min(b.meta.size, |b.data|);
      r := Some((b.meta, b.data[..take]));
      blocks := blocks[id := b];
    }

    // ---------- sessions ----------

    method CreateSession(session: string, ttl: nat, now: nat) returns (r: Result<()>)
      requires Valid()
      modifies this`sessions, this`stats
      ensures Valid() && (old(Tracked()) ==> Tracked())
      ensures r.Err? <==> session in old(sessions)
      ensures r.Err? ==> sessions == old(sessions) && stats == old(stats)
      ensures r.Ok? ==> sessions == old(sessions)[session := Session([], if ttl > 0 then Some(ttl) else None, now)]
      ensures r.Ok? ==> stats == old(stats).(sessions := old(stats).sessions + 1)
    {
      hide PoolOk, BlocksOk, ResidentBytes, Listed, Below, NoLeak, Deduped, Mapped;
      if session in sessions {
        return Err;
      }
      var s := Session([], if ttl > 0 then Some(ttl) else None, now);
      NewSessionLists(blocks, fids, sessions, nextId, session, s);
      sessions := sessions[session := s];
      stats := stats.(sessions := stats.sessions + 1);
      r := Ok(());
    }

    /** Remove a block, account for its bytes and return its buffer, but only while it is resident: an evicted
        block gave both back already. */
    method RemoveBlock(id: int) returns (gone: Option<Block>)
      requires PoolOk(free, blockSize) && BlocksOk(blocks, blockSize, nextId, written) &&
               Accounted(blocks, stats, maxMemory)
      modifies this`free, this`blocks, this`stats
      ensures PoolOk(free, blockSize) && BlocksOk(blocks, blockSize, nextId, written) &&
              Accounted(blocks, stats, maxMemory)
      ensures blocks == Drop(old(blocks), {id}) && stats.sessions == old(stats).sessions
      ensures gone == if id in old(blocks) then Some(old(blocks)[id]) else None
    {
      hide PoolOk, BlocksOk, ResidentBytes;
      if id !in blocks {
        assert Drop(blocks, {id}) == blocks;
        return None;
      }
      var b := blocks[id];
      DropKeeps(blocks, blockSize, nextId, written, id);
      DropAccounts(blocks, stats, maxMemory, id);
      if b.resident {
        stats := stats.(used := SatSub(stats.used, b.meta.size));
        Deallocate(b.data);
      }
      stats := stats.(blocks := SatSub(stats.blocks, 1));
      blocks := Drop(blocks, {id});
      gone := Some(b);
    }

    /** Remove every listed block together with its mapping. */
    method RemoveAll(ids: seq<int>)
      requires PoolOk(free, blockSize) && BlocksOk(blocks, blockSize, nextId, written) &&
               Accounted(blocks, stats, maxMemory)
      modifies this`free, this`blocks, this`stats, this`fids
      ensures PoolOk(free, blockSize) && BlocksOk(blocks, blockSize, nextId, written) &&
              Accounted(blocks, stats, maxMemory)
      ensures blocks == Drop(old(blocks), IdSet(ids)) && fids == Drop(old(fids), IdSet(ids))
      ensures stats.sessions == old(stats).sessions
    {
      hide PoolOk, BlocksOk, Accounted, IdSet, Drop;
      NoIds(blocks);
      NoIds(fids);
      for i := 0 to |ids|
        invariant PoolOk(free, blockSize) && BlocksOk(blocks, blockSize, nextId, written) &&
                  Accounted(blocks, stats, maxMemory)
        invariant blocks == Drop(old(blocks), IdSet(ids[..i])) && fids == Drop(old(fids), IdSet(ids[..i]))
        invariant stats.sessions == old(stats).sessions
      {
        var id := ids[i];
        var _ := RemoveBlock(id);
        fids := Drop(fids, {id});
        OneMoreId(old(blocks), ids, i);
        OneMoreId(old(fids), ids, i);
      }
      assert ids[..|ids|] == ids;
    }

    /** Remove a session, every block it lists and their mappings. */
    method DropSession(session: string)
      requires Valid() && session in sessions
      modifies this`free, this`blocks, this`stats, this`fids, this`sessions
      ensures Valid() && sessions == Drop(old(sessions), {session})
      ensures var gone := IdSet(old(sessions)[session].blockIds);
              blocks == Drop(old(blocks), gone) && fids == Drop(old(fids), gone)
    {
      hide PoolOk, BlocksOk, Accounted, Listed, Below, IdSet, Drop;
      DeletionLists(blocks, fids, sessions, nextId, session);
      var ids := sessions[session].blockIds;
      sessions := Drop(sessions, {session});
      RemoveAll(ids);
      StatsOnly(blocks, stats, maxMemory, SatSub(stats.sessions, 1), stats.evictions);
      stats := stats.(sessions := SatSub(stats.sessions, 1));
    }

    /** Delete a session and queue the needles its ids were mapped to. */
    method DeleteSession(session: string, now: nat) returns (r: Result<()>)
      requires Valid()
      modifies this`free, this`blocks, this`stats, this`fids, this`sessions, this`queue
      ensures Valid() && (old(Tracked()) ==> Tracked())
      ensures r.Err? <==> session !in old(sessions)
      ensures r.Err? ==> blocks == old(blocks) && sessions == old(sessions) && fids == old(fids)
      ensures r.Err? ==> queue == old(queue) && stats == old(stats)
      ensures r.Ok? ==> var ids := old(sessions)[session].blockIds;
                        && sessions == Drop(old(sessions), {session})
                        && blocks == Drop(old(blocks), IdSet(ids)) && fids == Drop(old(fids), IdSet(ids))
                        && queue == EnqueueAll(old(queue), Entries(MappedFids(ids, old(fids)), now, 3))
    {
      hide PoolOk, BlocksOk, Accounted, Listed, Below, NoLeak, Deduped, Mapped, MappedFids, Entries, EnqueueAll, IdSet,
           Drop;
      if session !in sessions {
        return Err;
      }
      var ids := sessions[session].blockIds;
      var gcFids := MappedFids(ids, fids);
      DropSession(session);
      DeletionTracks(old(blocks), owed, slots, old(fids), queue, ids, now);
      ApplyGcEnqueue(Entries(gcFids, now, 3));
      r := Ok(());
    }

    // ---------- the orphan queue ----------

    method ApplyGcEnqueue(entries: seq<GcEntry>)
      modifies this`queue
      ensures queue == EnqueueAll(old(queue), entries)
      ensures (old(Valid()) ==> Valid()) && (old(Tracked()) ==> Tracked())
    {
      EnqueueAllAdds(queue, entries);
      hide PoolOk, BlocksOk, Accounted, Listed, Below, Mapped, Fids, Referenced, Deduped;
      for i := 0 to |entries|
        invariant queue == EnqueueAll(old(queue), entries[..i])
      {
        EnqueueLast(old(queue), entries, i);
        if !Queued(queue, entries[i].fid) {
          queue := queue + [entries[i]];
        }
      }
      assert entries[..|entries|] == entries;
    }

    // ---------- expiry ----------

    method DeleteSessions(dead: set<string>, millis: nat) returns (count: nat)
      requires Valid() && dead <= sessions.Keys
      modifies this`free, this`blocks, this`stats, this`fids, this`sessions, this`queue
      ensures Valid() && (old(Tracked()) ==> Tracked())
      ensures sessions == Drop(old(sessions), dead) && count == |dead|
      ensures blocks == Drop(old(blocks), ListedBy(old(sessions), dead)) &&
              fids == Drop(old(fids), ListedBy(old(sessions), dead))
    {
      hide Valid, Tracked, MappedFids, Entries, EnqueueAll, IdSet, ListedBy, Drop;
      var left := dead;
      ghost var done: set<string> := {};
      count := 0;
      NoneListed(blocks, fids, sessions);
      while left != {}
        invariant Valid() && (old(Tracked()) ==> Tracked())
        invariant done == dead - left && left <= dead && count + |left| == |dead|
        invariant sessions == Drop(old(sessions), done)
        invariant blocks == Drop(old(blocks), ListedBy(old(sessions), done)) &&
                  fids == Drop(old(fids), ListedBy(old(sessions), done))
        decreases left
      {
        var session := Pick(left);
        OneMoreListed(old(blocks), old(fids), old(sessions), done, session);
        var r := DeleteSession(session, millis);
        if r.Ok? {
          count := count + 1;
        }
        left, done := left - {session}, done + {session};
      }
      assert done == dead;
    }

    /** Delete every session whose time to live is over. */
    method ExpireSessions(now: nat, millis: nat) returns (count: nat)
      requires Valid()
      modifies this`free, this`blocks, this`stats, this`fids, this`sessions, this`queue
      ensures Valid() && (old(Tracked()) ==> Tracked())
      ensures var dead := DeadSessions(old(sessions), now);
              && sessions == Drop(old(sessions), dead) && count == |dead|
              && blocks == Drop(old(blocks), ListedBy(old(sessions), dead)) &&
                 fids == Drop(old(fids), ListedBy(old(sessions), dead))
    {
      hide PoolOk, BlocksOk, Accounted, Listed, Below, NoLeak, Deduped, Mapped, ListedBy, SessionExpired;
      count := DeleteSessions(DeadSessions(sessions, now), millis);
    }

    /** Drop one expired block from every index; its needle becomes a candidate. */
    method ExpireBlock(id: int) returns (fid: string)
      requires Valid() && id in blocks
      modifies this`free, this`blocks, this`stats, this`fids, this`sessions
      ensures Valid() && fid == old(blocks)[id].meta.fid
      ensures blocks == Drop(old(blocks), {id}) && fids == Drop(old(fids), {id})
      ensures sessions == Unlist(old(sessions), old(blocks)[id].meta.session, id)
    {
      hide PoolOk, BlocksOk, Accounted, Listed, Below, Without, Drop;
      UnlistKeeps(blocks, fids, sessions, nextId, id);
      var gone := RemoveBlock(id);
      var b := gone.value;
      if b.resident {
        StatsOnly(blocks, stats, maxMemory, stats.sessions, stats.evictions + 1);
        stats := stats.(evictions := stats.evictions + 1);
      }
      fids := Drop(fids, {id});
      if b.meta.session in sessions {
        sessions := Unlist(sessions, b.meta.session, id);
      }
      fid := b.meta.fid;
    }

    method DropBlocks(dead: set<int>) returns (cands: seq<string>)
      requires Valid() && dead <= blocks.Keys
      modifies this`free, this`blocks, this`stats, this`fids, this`sessions
      ensures Valid() && blocks == Drop(old(blocks), dead) && fids == Drop(old(fids), dead) && |cands| == |dead|
      ensures FidSet(cands) == FidsOf(old(blocks), dead)
      ensures UnlistedOnly(old(sessions), sessions, old(blocks), dead)
    {
      hide Valid, Unlist, UnlistedOnly, FidsOf, FidSet, Drop;
      var left := dead;
      ghost var done: set<int> := {};
      cands := [];
      NothingGone(sessions, blocks, fids);
      while left != {}
        invariant Valid() && done == dead - left && left <= dead && |cands| + |left| == |dead|
        invariant blocks == Drop(old(blocks), done) && fids == Drop(old(fids), done)
        invariant FidSet(cands) == FidsOf(old(blocks), done)
        invariant UnlistedOnly(old(sessions), sessions, old(blocks), done)
        decreases left
      {
        var id := Pick(left);
        OneLessBlock(old(blocks), old(fids), done, id);
        OneMoreFid(old(blocks), done, id, cands);
        UnlistMore(old(sessions), sessions, old(blocks), done, id);
        var fid := ExpireBlock(id);
        cands := cands + [fid];
        left, done := left - {id}, done + {id};
      }
      assert done == dead;
    }

    /** Drop every block whose own time to live is over and queue its needle. */
    method ExpireBlocks(now: nat, millis: nat) returns (count: nat)
      requires Valid()
      modifies this`free, this`blocks, this`stats, this`fids, this`sessions, this`queue
      ensures Valid() && (old(Tracked()) ==> Tracked())
      ensures var dead := DeadBlocks(old(blocks), now);
              && blocks == Drop(old(blocks), dead) && fids == Drop(old(fids), dead) && count == |dead|
              && Fids(queue) == Fids(old(queue)) + FidsOf(old(blocks), dead) && old(queue) <= queue
      ensures UnlistedOnly(old(sessions), sessions, old(blocks), DeadBlocks(old(blocks), now))
    {
      hide PoolOk, BlocksOk, Accounted, Listed, Below, NoLeak, Deduped, Mapped, Entries, EnqueueAll, UnlistedOnly, Fids,
           FidsOf, FidSet, BlockExpired, Drop;
      var dead := DeadBlocks(blocks, now);
      var cands := DropBlocks(dead);
      ExpiryTracks(old(blocks), owed, slots, old(fids), queue, dead, cands, millis);
      ApplyGcEnqueue(Entries(cands, millis, 1));
      count := |cands|;
    }

    /** One sweep: expired sessions with all they list, then expired blocks of the sessions that remain. */
    method CleanupExpired(now: nat, millis: nat) returns (count: nat)
      requires Valid()
      modifies this`free, this`blocks, this`stats, this`fids, this`sessions, this`queue
      ensures Valid() && (old(Tracked()) ==> Tracked())
      ensures DeadBlocks(blocks, now) == {} && sessions.Keys == old(sessions).Keys - DeadSessions(old(sessions), now)
      ensures var listed := ListedBy(old(sessions), DeadSessions(old(sessions), now));
              var dead := DeadBlocks(Drop(old(blocks), listed), now);
              && blocks == Drop(Drop(old(blocks), listed), dead) && fids == Drop(Drop(old(fids), listed), dead)
              && count == |DeadSessions(old(sessions), now)| + |dead|
      ensures forall s :: s in old(sessions) ==>
                (s in sessions <==> Outlasts(old(sessions)[s].ttl, old(sessions)[s].lastAccessed, now, 0))
      ensures forall id :: id in blocks ==> Outlasts(blocks[id].meta.ttl, blocks[id].meta.lastAccessed, now, 1)
    {
      ExpiryMeans(old(sessions), map[], now);
      hide PoolOk, BlocksOk, Accounted, Listed, Below, NoLeak, Deduped, Mapped, ListedBy, Fids, FidsOf, DeadSessions,
           DeadBlocks;
      var a := ExpireSessions(now, millis);
      ghost var mid := sessions;
      var b := ExpireBlocks(now, millis);
      KeepsSessions(mid, sessions, Drop(old(blocks), ListedBy(old(sessions), DeadSessions(old(sessions), now))), now);
      NoneDead(Drop(old(blocks), ListedBy(old(sessions), DeadSessions(old(sessions), now))), now);
      ExpiryMeans(map[], blocks, now);
      count := a + b;
    }

    // ---------- replicated commands ----------

    /** Install id-to-fid mappings and list the ids.  Memory is untouched; needle tracking survives when every
        id keeps one fid. */
    method ApplySaveBlocks(list: seq<Saved>)
      requires Valid()
      modifies this`nextId, this`fids, this`owed, this`sessions
      ensures Valid() && (old(Tracked()) && OneFid(old(fids), list) ==> Tracked())
      ensures fids == SavedFids(old(fids), list) && owed == old(owed) + SavedOwed(list)
      ensures ListedToo(old(sessions), sessions, list)
      ensures nextId >= old(nextId) && forall i :: 0 <= i < |list| ==> list[i].id < nextId
    {
      hide PoolOk, BlocksOk, Accounted, Listed, Below, NoLeak, Deduped, Mapped, OneFid, SavedFids, SavedOwed, ListedToo;
      MapBlocks(list);
      NothingListed(sessions);
      for i := 0 to |list|
        invariant Valid() && ListedToo(old(sessions), sessions, list[..i])
        modifies this`sessions
      {
        var b := list[i];
        ListOneMore(old(sessions), sessions, list, i);
        ListingKeeps(blocks, fids, sessions, nextId, b);
        if b.session in sessions {
          var s := sessions[b.session];
          sessions := sessions[b.session := s.(blockIds := WithId(s.blockIds, b.id))];
        }
      }
      assert list[..|list|] == list;
    }

    method MapBlocks(list: seq<Saved>)
      requires Valid()
      modifies this`nextId, this`fids, this`owed
      ensures Valid() && (old(Tracked()) && OneFid(old(fids), list) ==> Tracked())
      ensures fids == SavedFids(old(fids), list) && owed == old(owed) + SavedOwed(list)
      ensures nextId >= old(nextId) && forall i :: 0 <= i < |list| ==> list[i].id < nextId
    {
      hide PoolOk, BlocksOk, Accounted, Listed, Below, NoLeak, Deduped, Mapped, OneFid, SavedFids, SavedOwed;
      NothingSaved(fids, owed);
      for i := 0 to |list|
        invariant Valid() && (old(Tracked()) && OneFid(old(fids), list) ==> Tracked())
        invariant fids == SavedFids(old(fids), list[..i]) && owed == old(owed) + SavedOwed(list[..i])
        invariant nextId >= old(nextId) && forall j :: 0 <= j < i ==> list[j].id < nextId
      {
        var b := list[i];
        SaveOneMore(old(fids), old(owed), list, i);
        MappingTracks(blocks, owed, slots, old(fids), fids, queue, list, i);
        var next := if nextId < b.id + 1 then b.id + 1 else nextId;
        AdvanceKeeps(blocks, blockSize, nextId, written, fids, sessions, next, b.id, b.fid);
        nextId := next;
        MapBlock(b.id, b.fid);
      }
      assert list[..|list|] == list;
    }

    /** A versioned upsert: slots change as ApplyPut says, the displaced needle is queued, and no needle
        drops out of sight except in the one case PutLeaks describes. */
    method ApplyKvPut(c: R.Command, at: nat) returns (r: Result<()>)
      requires Valid() && c.Put?
      modifies this`slots, this`queue, this`owed
      ensures Valid() && (r.Err? <==> c.ns !in namespaces)
      ensures slots == R.ApplyPut(namespaces, old(slots), c) &&
              queue == PutQueue(namespaces, old(slots), old(queue), c, at)
      ensures R.Accepted(namespaces, old(slots), c.ns, c.key, c.version) ==>
                slots == old(slots)["kv:" + c.ns + ":" + c.key :=
                           if c.inline then R.Inline(c.data, c.owner, c.version)
                           else R.External(c.fid, c.size, c.owner, c.version)]
      ensures !R.Accepted(namespaces, old(slots), c.ns, c.key, c.version) ==> slots == old(slots)
      ensures owed == PutOwed(namespaces, old(slots), old(owed), c)
      ensures old(Tracked()) ==>
        (Tracked() <==> (Forgets(namespaces, old(slots), c) ==>
           c.fid !in old(owed) || c.fid in Referenced(old(slots) - {R.SlotKey(c.ns, c.key)}, fids) + Fids(old(queue))))
    {
      hide PoolOk, BlocksOk, Accounted, Listed, Below, NoLeak, Mapped, Fids, Referenced, R.SlotKey, Deduped;
      if old(Tracked()) {
        PutLeaks(namespaces, owed, slots, fids, queue, c, at);
        PutQueueFids(namespaces, slots, queue, c, at);
      }
      R.PutStores(namespaces, slots, c);
      if c.ns !in namespaces {
        return Err;
      }
      var k := R.SlotKey(c.ns, c.key);
      r := Ok(());
      if R.Stale(slots, k, c.version) {
        return;
      }
      if k in slots && slots[k].External? && slots[k].fid != c.fid {
        assert Entries([slots[k].fid], at, 0) == [GcEntry(slots[k].fid, at, 0)];
        ApplyGcEnqueue([GcEntry(slots[k].fid, at, 0)]);
      }
      slots := slots[k := R.NewSlot(c)];
      if !c.inline {
        owed := owed + {c.fid};
      }
    }

    /** Delete keys; every needle their slots pointed at is queued once. */
    method ApplyKvDeleteKeys(c: R.Command, at: nat)
      requires Valid() && c.DeleteKeys?
      modifies this`slots, this`queue
      ensures Valid() && (old(Tracked()) ==> Tracked())
      ensures slots == R.Apply(namespaces, old(slots), c)
      ensures queue == EnqueueAll(old(queue), Entries(DeletedFids(old(slots), c.ns, c.keys), at, 1))
    {
      hide PoolOk, BlocksOk, Accounted, Listed, Below, NoLeak, Mapped, Fids, Referenced, R.SlotKey, Deduped,
           DeletedFids, R.DeletedKeys, Entries, EnqueueAll;
      var gcFids: seq<string> := [];
      NothingDeleted(slots, c.ns);
      for i := 0 to |c.keys|
        invariant slots == Drop(old(slots), R.DeletedKeys(R.DeleteKeys(c.ns, c.keys[..i])))
        invariant gcFids == DeletedFids(old(slots), c.ns, c.keys[..i])
        modifies this`slots
      {
        DeleteOneMore(old(slots), c.ns, c.keys, i);
        var k := R.SlotKey(c.ns, c.keys[i]);
        if k in slots && slots[k].External? && slots[k].fid !in gcFids {
          gcFids := gcFids + [slots[k].fid];
        }
        slots := Drop(slots, {k});
      }
      assert c.keys[..|c.keys|] == c.keys;
      DeletionQueues(owed, old(slots), fids, queue, c, at);
      ApplyGcEnqueue(Entries(gcFids, at, 1));
    }

    // ---------- reclaiming needles ----------

    /** One round of the reclaiming worker: of the candidates past their grace period, those that nothing
        refers to are deleted and leave the queue once the deletion is confirmed.  A needle in use is never
        deleted, and a failed deletion stays queued. */
    method GcTick(now: nat, grace: nat, outcome: string -> Deletion)
      requires Valid()
      modifies this`queue, this`owed
      ensures Valid() && (old(Tracked()) ==> Tracked())
      ensures var gone := Reclaimed(Due(old(queue), now, grace), Referenced(slots, fids), outcome);
              && gone !! Referenced(slots, fids) && gone <= Fids(Due(old(queue), now, grace))
              && Fids(queue) == Fids(old(queue)) - gone && owed == old(owed) - gone
      ensures forall e :: e in queue ==> e in old(queue)
      ensures forall e :: e in old(queue) ==>
                (e.fid !in Fids(queue) <==> Collectable(old(queue), e.fid, now, grace, slots, fids, outcome))
    {
      hide PoolOk, BlocksOk, Accounted, Listed, Below, Mapped, Fids, Referenced, Deduped, NoLeak, Due, Complete,
           Reclaimed;
      var due := Due(queue, now, grace);
      var referenced := Referenced(slots, fids);
      NothingReclaimed(queue, owed, slots, fids, referenced, outcome);
      for i := 0 to |due|
        invariant old(Tracked()) ==> Tracked()
        invariant Fids(queue) == Fids(old(queue)) - Reclaimed(due[..i], referenced, outcome)
        invariant owed == old(owed) - Reclaimed(due[..i], referenced, outcome)
        invariant forall e :: e in queue ==> e in old(queue)
      {
        var fid := due[i].fid;
        ReclaimOneMore(due, referenced, outcome, i);
        if fid !in referenced && outcome(fid) != Retry {
          CompleteFids(queue, fid);
          CompletionTracks(owed, slots, fids, queue, fid);
          queue := Complete(queue, fid);
          owed := owed - {fid};
        }
      }
      assert due[..|due|] == due;
      OnlyUnreferenced(due, referenced, outcome);
      CollectedExactly(old(queue), now, grace, slots, fids, outcome);
    }

    method ApplyCreateNamespace(ns: string)
      requires Valid()
      modifies this`namespaces
      ensures Valid() && (old(Tracked()) ==> Tracked()) && namespaces == old(namespaces) + {ns}
    {
      namespaces := namespaces + {ns};
    }
  }

  /** It does happen: a leader block stored under an id that was not handed out yet is overwritten by the next put,
      and both are counted. */
  method ReusedIdIsCountedTwice(maxMemory: nat, blockSize: nat, first: Bytes, second: Bytes)
    returns (e: KVCacheEngine)
    requires blockSize > 0 && |first| + |second| <= maxMemory
    ensures e.blocks.Keys == {1} && e.stats.blocks == 2 && e.stats.used == |first| + |second|
    ensures !Accounted(e.blocks, e.stats, maxMemory)
  {
    hide Accounted, KVCacheEngine.Tracked;
    e := new KVCacheEngine(maxMemory, blockSize);
    var _ := e.CreateSession("s", 0, 0);
    var _ := e.StoreLeaderBlock(1, "s", first, "3,a", Unpinned, 0);
    var _ := e.PutBlock("s", second, "3,b", Unpinned, 0, 2);
  }

  /** A block put with a hard pin is there, byte for byte as far as a buffer holds it, whatever is evicted later. */
  method HardBlockStays(e: KVCacheEngine, session: string, data: Bytes, fid: string, now: nat, needs: seq<nat>,
                        later: nat)
    returns (r: Result<int>, got: Option<(Meta, Bytes)>)
    requires e.Valid()
    modifies e
    ensures e.Valid()
    ensures r.Ok? ==> session in old(e.sessions) && got.Some?
    ensures r.Ok? ==> got.value.0 == Meta(session, |data|, later, old(e.sessions)[session].ttl, fid, Hard)
    ensures r.Ok? ==> got.value.1 == data[..Min(|data|, e.blockSize)]
  {
    hide KVCacheEngine.ValidBelow, KVCacheEngine.Tracked, EvictionRun, EvictAll, ResidentBytes, Resident,
         NothingEvictable, SameIdentity, Accounted;
    r := e.PutBlock(session, data, fid, Hard, now, e.nextId);
    got := None;
    if r.Ok? {
      ghost var put := e.blocks[r.value];
      for i := 0 to |needs|
        invariant e.Valid() && r.value in e.written && e.written[r.value] == data
        invariant r.value in e.blocks && e.blocks[r.value] == put
      {
        var _, _ := e.EvictLru(needs[i], e.nextId);
      }
      got := e.GetBlockData(r.value, later);
    }
  }

  ghost function EvictSome(blocks: Blocks, done: set<int>): Blocks {
    map id | id in blocks :: if id in done then Evict(blocks[id]) else blocks[id]
  }

  lemma EvictNone(blocks: Blocks)
    ensures EvictSome(blocks, {}) == blocks
  {}

  lemma GroupIsResident(blocks: Blocks, g: Group, ids: set<int>)
    requires ids == set id | id in blocks && InGroup(blocks[id], g)
    ensures forall id :: id in ids ==> id in blocks && blocks[id].resident
  {}

  lemma EvictSomeStep(blocks: Blocks, done: set<int>, id: int)
    requires id in blocks && id !in done
    ensures id in EvictSome(blocks, done) && EvictSome(blocks, done)[id] == blocks[id]
    ensures EvictSome(blocks, done)[id := Evict(blocks[id])] == EvictSome(blocks, done + {id})
  {}

  lemma EvictedAll(blocks: Blocks, g: Group, done: set<int>)
    requires done == set id | id in blocks && InGroup(blocks[id], g)
    ensures EvictSome(blocks, done) == EvictGroup(blocks, g)
  {}

  lemma NextShrinks(blocks: Blocks, g: Group)
    requires Next(blocks, g)
    ensures |Resident(EvictGroup(blocks, g))| < |Resident(blocks)|
  {
    var id :| Anchors(blocks, id, g.pin) && blocks[id].meta.session == g.session;
    var before, after := Resident(blocks).Keys, Resident(EvictGroup(blocks, g)).Keys;
    forall x | x in after
      ensures x in before && x != id
    {}
    SubsetSize(after, before - {id});
    assert |Resident(blocks)| == |before| && |Resident(EvictGroup(blocks, g))| == |after|;
  }

  lemma EmptyIsSpent()
    ensures NothingEvictable(map[])
  {}

  lemma EvictNothing(blocks: Blocks)
    ensures EvictionRun(blocks, []) && EvictAll(blocks, []) == blocks
  {}

  /** Eviction changes neither the number of blocks nor who lists them. */
  lemma EvictionKeeps(blocks: Blocks, groups: seq<Group>, sessions: Sessions)
    requires EvictionRun(blocks, groups)
    ensures |EvictAll(blocks, groups)| == |blocks|
    ensures Listed(blocks, sessions) ==> Listed(EvictAll(blocks, groups), sessions)
  {
    EvictionKeepsIdentity(blocks, groups);
    var after := EvictAll(blocks, groups);
    hide EvictAll, EvictionRun;
    assert |after| == |after.Keys| && |blocks| == |blocks.Keys|;
  }

  function Touch(b: Block, now: nat): Block {
    b.(meta := b.meta.(lastAccessed := now))
  }

  /** Same ids, and every block still the same block. */
  ghost predicate SameIdentity(before: Blocks, after: Blocks) {
    after.Keys == before.Keys && forall id :: id in before ==> after[id].meta == before[id].meta
  }

  lemma EvictionTracks(blocks: Blocks, groups: seq<Group>)
    requires EvictionRun(blocks, groups)
    ensures SameIdentity(blocks, EvictAll(blocks, groups))
  {}

  lemma SameIdentityTracks(before: Blocks, after: Blocks, fids: FidMap)
    requires SameIdentity(before, after)
    ensures Mapped(before, fids) ==> Mapped(after, fids)
  {}

  lemma NextIsFree(blocks: Blocks, blockSize: nat, nextId: int, written: map<int, Bytes>, fids: FidMap,
                   sessions: Sessions)
    ensures BlocksOk(blocks, blockSize, nextId, written) ==> nextId !in blocks
    ensures Below(fids, sessions, nextId) ==> nextId !in fids
  {}

  lemma RaiseKeeps(blocks: Blocks, blockSize: nat, nextId: int, written: map<int, Bytes>, fids: FidMap,
                   sessions: Sessions, bound: int)
    requires BlocksOk(blocks, blockSize, nextId, written) && Below(fids, sessions, nextId) && nextId <= bound
    ensures BlocksOk(blocks, blockSize, bound, written) && Below(fids, sessions, bound)
  {}

  lemma InUseIsReserved(blocks: Blocks, blockSize: nat, nextId: int, written: map<int, Bytes>, id: int)
    requires id in blocks
    ensures BlocksOk(blocks, blockSize, nextId, written) ==> id < nextId
  {}

  lemma FreshBlockOk(b: Block, blockSize: nat, spare: Bytes, data: Bytes)
    requires |spare| == blockSize && b.resident && b.meta.size == |data|
    requires var n := Min(|data|, blockSize); b.data == data[..n] + spare[n..]
    ensures BlockOk(b, blockSize, data)
  {}

  lemma CacheKeeps(blocks: Blocks, blockSize: nat, nextId: int, written: map<int, Bytes>, id: int, b: Block,
                   data: Bytes)
    requires BlocksOk(blocks, blockSize, nextId, written) && id < nextId && BlockOk(b, blockSize, data)
    ensures BlocksOk(blocks[id := b], blockSize, nextId, written[id := data])
  {}

  lemma CacheAccounts(blocks: Blocks, stats: Stats, budget: nat, id: int, b: Block)
    requires Accounted(blocks, stats, budget) && id !in blocks && b.resident && stats.used + b.meta.size <= budget
    ensures Accounted(blocks[id := b], stats.(blocks := stats.blocks + 1, used := stats.used + b.meta.size), budget)
  {
    ResidentInsert(blocks, id, b);
    hide ResidentBytes;
    var after := blocks[id := b];
    assert after.Keys == blocks.Keys + {id};
    assert |after| == |after.Keys| && |blocks| == |blocks.Keys|;
  }

  /** Append an id to a session's list unless it is there already. */
  function WithId(ids: seq<int>, id: int): (r: seq<int>)
    ensures forall x :: x in r <==> x in ids || x == id
  {
    if id in ids then ids else ids + [id]
  }

  lemma OverwriteMiscounts(blocks: Blocks, stats: Stats, budget: nat, id: int, b: Block)
    requires Accounted(blocks, stats, budget) && id in blocks
    ensures !Accounted(blocks[id := b], stats.(blocks := stats.blocks + 1, used := stats.used + b.meta.size), budget)
  {
    hide ResidentBytes;
    var after := blocks[id := b];
    assert after.Keys == blocks.Keys;
    assert |after| == |after.Keys| && |blocks| == |blocks.Keys|;
  }

  lemma CacheLists(blocks: Blocks, sessions: Sessions, id: int, b: Block, ids: seq<int>, now: nat)
    requires Listed(blocks, sessions) && b.meta.session in sessions
    requires forall x :: x in ids <==> x in sessions[b.meta.session].blockIds || x == id
    ensures var s := sessions[b.meta.session];
            var after := sessions[b.meta.session := Session(ids, s.ttl, now)];
            Listed(blocks[id := b], after) && |after| == |sessions| && after.Keys == sessions.Keys
  {}

  lemma BelowPut(fids: FidMap, sessions: Sessions, nextId: int, id: int, fid: string, session: string, ids: seq<int>,
                 now: nat)
    requires Below(fids, sessions, nextId) && id < nextId && session in sessions
    requires forall x :: x in ids <==> x in sessions[session].blockIds || x == id
    ensures Below(fids[id := fid], sessions[session := Session(ids, sessions[session].ttl, now)], nextId)
  {}

  lemma CacheTracks(blocks: Blocks, owed: set<string>, slots: R.Slots, fids: FidMap, queue: Queue, id: int, b: Block)
    ensures NoLeak(owed, slots, fids, queue) && (id in fids ==> fids[id] == b.meta.fid) ==>
              NoLeak(owed + {b.meta.fid}, slots, fids[id := b.meta.fid], queue)
    ensures Mapped(blocks, fids) ==> Mapped(blocks[id := b], fids[id := b.meta.fid])
  {
    hide NoLeak;
    if NoLeak(owed, slots, fids, queue) {
      RemapLeaks(owed, slots, fids, queue, id, b.meta.fid);
    }
  }

  lemma ResidentCount(blocks: Blocks, id: int)
    requires id in blocks && blocks[id].resident
    ensures |Resident(blocks[id := Evict(blocks[id])])| == |Resident(blocks)| - 1
  {
    var after := blocks[id := Evict(blocks[id])];
    assert Resident(after) == Resident(blocks) - {id};
    assert (Resident(blocks) - {id}).Keys == Resident(blocks).Keys - {id};
  }

  lemma SameIsSame(blocks: Blocks)
    ensures SameIdentity(blocks, blocks)
  {}

  lemma SameKeys(before: Blocks, after: Blocks)
    requires SameIdentity(before, after)
    ensures after.Keys == before.Keys
  {}

  lemma DropNew(blocks: Blocks, id: int, b: Block)
    ensures Drop(blocks[id := b], {id}) == Drop(blocks, {id})
    ensures id !in blocks ==> Drop(blocks, {id}) == blocks
  {}

  lemma SameIdentityDrops(before: Blocks, after: Blocks, id: int)
    requires SameIdentity(before, after)
    ensures SameIdentity(Drop(before, {id}), Drop(after, {id}))
  {}

  lemma HoldsItsBytes(blocks: Blocks, blockSize: nat, nextId: int, written: map<int, Bytes>, id: int)
    requires BlocksOk(blocks, blockSize, nextId, written) && id in blocks && blocks[id].resident
    ensures id in written && blocks[id].meta.size == |written[id]| && |blocks[id].data| == blockSize
    ensures var n := Min(|written[id]|, blockSize); blocks[id].data[..n] == written[id][..n]
  {}

  lemma TouchKeeps(blocks: Blocks, blockSize: nat, nextId: int, written: map<int, Bytes>, stats: Stats, budget: nat,
                   id: int, now: nat)
    requires BlocksOk(blocks, blockSize, nextId, written) && Accounted(blocks, stats, budget) && id in blocks
    ensures BlocksOk(blocks[id := Touch(blocks[id], now)], blockSize, nextId, written)
    ensures Accounted(blocks[id := Touch(blocks[id], now)], stats, budget)
  {
    hide Sum;
    var after := blocks[id := Touch(blocks[id], now)];
    assert Resident(after) == Resident(blocks);
    assert after.Keys == blocks.Keys;
    assert |after| == |after.Keys| && |blocks| == |blocks.Keys|;
  }

  lemma TouchLists(blocks: Blocks, sessions: Sessions, fids: FidMap, id: int, now: nat)
    requires id in blocks
    ensures Listed(blocks, sessions) ==> Listed(blocks[id := Touch(blocks[id], now)], sessions)
    ensures Mapped(blocks, fids) ==> Mapped(blocks[id := Touch(blocks[id], now)], fids)
  {}

  lemma NewSessionLists(blocks: Blocks, fids: FidMap, sessions: Sessions, nextId: int, session: string, s: Session)
    requires Listed(blocks, sessions) && Below(fids, sessions, nextId) && session !in sessions && s.blockIds == []
    ensures Listed(blocks, sessions[session := s]) && Below(fids, sessions[session := s], nextId)
    ensures |sessions[session := s]| == |sessions| + 1
  {}

  lemma EnqueueLast(queue: Queue, entries: seq<GcEntry>, i: nat)
    requires i < |entries|
    ensures EnqueueAll(queue, entries[..i + 1]) == Enqueue(EnqueueAll(queue, entries[..i]), entries[i])
  {
    assert entries[..i + 1][..i] == entries[..i];
  }

  function Drop<K, V>(m: map<K, V>, gone: set<K>): map<K, V> {
    m - gone
  }

  function IdSet(ids: seq<int>): set<int> {
    set id | id in ids
  }

  lemma NoIds<T>(m: map<int, T>)
    ensures Drop(m, IdSet([])) == m
  {}

  lemma OneMoreId<T>(m: map<int, T>, ids: seq<int>, i: nat)
    requires i < |ids|
    ensures Drop(Drop(m, IdSet(ids[..i])), {ids[i]}) == Drop(m, IdSet(ids[..i + 1]))
  {}

  lemma DropKeeps(blocks: Blocks, blockSize: nat, nextId: int, written: map<int, Bytes>, id: int)
    requires BlocksOk(blocks, blockSize, nextId, written) && id in blocks
    ensures BlocksOk(Drop(blocks, {id}), blockSize, nextId, written)
    ensures if blocks[id].resident then |blocks[id].data| == blockSize else blocks[id].data == []
  {}

  lemma DropAccounts(blocks: Blocks, stats: Stats, budget: nat, id: int)
    requires Accounted(blocks, stats, budget) && id in blocks
    ensures var b := blocks[id];
            var size := if b.resident then b.meta.size else 0;
            && stats.used >= size && stats.blocks >= 1
            && Accounted(Drop(blocks, {id}), stats.(used := stats.used - size, blocks := stats.blocks - 1), budget)
  {
    ResidentDrop(blocks, id);
    hide ResidentBytes;
    var after := Drop(blocks, {id});
    assert after.Keys == blocks.Keys - {id};
    assert |after| == |after.Keys| && |blocks| == |blocks.Keys|;
  }

  lemma StatsOnly(blocks: Blocks, stats: Stats, budget: nat, sessions: nat, evictions: nat)
    requires Accounted(blocks, stats, budget)
    ensures Accounted(blocks, stats.(sessions := sessions, evictions := evictions), budget)
  {}

  lemma DeletionLists(blocks: Blocks, fids: FidMap, sessions: Sessions, nextId: int, session: string)
    requires Listed(blocks, sessions) && Below(fids, sessions, nextId) && session in sessions
    ensures var gone := IdSet(sessions[session].blockIds);
            Listed(Drop(blocks, gone), Drop(sessions, {session})) &&
            Below(Drop(fids, gone), Drop(sessions, {session}), nextId)
    ensures |Drop(sessions, {session})| == |sessions| - 1
  {}

  lemma DeletionTracks(blocks: Blocks, owed: set<string>, slots: R.Slots, fids: FidMap, queue: Queue, ids: seq<int>,
                       now: nat)
    ensures var gone := IdSet(ids);
            var queue' := EnqueueAll(queue, Entries(MappedFids(ids, fids), now, 3));
            && (Mapped(blocks, fids) ==> Mapped(Drop(blocks, gone), Drop(fids, gone)))
            && (Deduped(queue) ==> Deduped(queue'))
            && (NoLeak(owed, slots, fids, queue) ==> NoLeak(owed, slots, Drop(fids, gone), queue'))
  {
    var gone := IdSet(ids);
    var fs := MappedFids(ids, fids);
    EntriesFids(fs, now, 3);
    EnqueueAllAdds(queue, Entries(fs, now, 3));
    if NoLeak(owed, slots, fids, queue) {
      hide NoLeak, Fids, Deduped, MappedFids;
      UnmapTracks(owed, slots, fids, gone, queue, EnqueueAll(queue, Entries(fs, now, 3)));
    }
  }

  // ---------- expiry ----------

  predicate SessionExpired(s: Session, now: nat) {
    s.ttl.Some? && SatSub(now, s.lastAccessed) >= s.ttl.value
  }

  /** A block outlives its time to live by one unit more than a session does. */
  predicate BlockExpired(b: Block, now: nat) {
    b.meta.ttl.Some? && SatSub(now, b.meta.lastAccessed) > b.meta.ttl.value
  }

  /** No time to live, or one that the time since the last access has not used up. */
  predicate Outlasts(ttl: Option<nat>, lastAccessed: nat, now: nat, slack: nat) {
    ttl.None? || (ttl.value + slack > 0 && now < lastAccessed + ttl.value + slack)
  }

  lemma ExpiryMeans(sessions: Sessions, blocks: Blocks, now: nat)
    ensures forall s :: s in sessions ==>
              (s in DeadSessions(sessions, now) <==> !Outlasts(sessions[s].ttl, sessions[s].lastAccessed, now, 0))
    ensures forall id :: id in blocks ==>
              (id in DeadBlocks(blocks, now) <==>
               !Outlasts(blocks[id].meta.ttl, blocks[id].meta.lastAccessed, now, 1))
  {}

  function DeadSessions(sessions: Sessions, now: nat): set<string> {
    set s | s in sessions && SessionExpired(sessions[s], now)
  }

  function DeadBlocks(blocks: Blocks, now: nat): set<int> {
    set id | id in blocks && BlockExpired(blocks[id], now)
  }

  ghost function ListedBy(sessions: Sessions, which: set<string>): set<int> {
    set s, id | s in which && s in sessions && id in sessions[s].blockIds :: id
  }

  ghost function FidSet(fids: seq<string>): set<string> {
    set f | f in fids
  }

  ghost function FidsOf(blocks: Blocks, ids: set<int>): set<string> {
    set id | id in ids && id in blocks :: blocks[id].meta.fid
  }

  function Without(ids: seq<int>, id: int): (r: seq<int>)
    ensures forall x :: x in r <==> x in ids && x != id
  {
    if ids == [] then []
    else
      var rest := Without(ids[1..], id);
      assert ids == [ids[0]] + ids[1..];
      if ids[0] == id then rest else [ids[0]] + rest
  }

  function Unlist(sessions: Sessions, session: string, id: int): Sessions {
    if session !in sessions then sessions
    else sessions[session := sessions[session].(blockIds := Without(sessions[session].blockIds, id))]
  }

  /** The same sessions, each without exactly those of its own blocks that are gone. */
  ghost predicate UnlistedOnly(before: Sessions, after: Sessions, blocks: Blocks, gone: set<int>) {
    && after.Keys == before.Keys
    && forall s :: s in before ==>
         && after[s].ttl == before[s].ttl && after[s].lastAccessed == before[s].lastAccessed
         && forall id :: id in after[s].blockIds <==>
              id in before[s].blockIds && !(id in gone && id in blocks && blocks[id].meta.session == s)
  }

  lemma NoneListed(blocks: Blocks, fids: FidMap, sessions: Sessions)
    ensures Drop(blocks, ListedBy(sessions, {})) == blocks && Drop(fids, ListedBy(sessions, {})) == fids &&
            Drop(sessions, {}) == sessions
  {}

  lemma OneMoreListed(blocks: Blocks, fids: FidMap, sessions: Sessions, done: set<string>, session: string)
    requires session in sessions && session !in done
    ensures session in Drop(sessions, done) && Drop(sessions, done)[session] == sessions[session]
    ensures Drop(Drop(sessions, done), {session}) == Drop(sessions, done + {session})
    ensures var more := IdSet(sessions[session].blockIds);
            && Drop(Drop(blocks, ListedBy(sessions, done)), more) == Drop(blocks, ListedBy(sessions, done + {session}))
            && Drop(Drop(fids, ListedBy(sessions, done)), more) == Drop(fids, ListedBy(sessions, done + {session}))
  {
    var all := ListedBy(sessions, done + {session});
    var some, more := ListedBy(sessions, done), IdSet(sessions[session].blockIds);
    forall id
      ensures id in all <==> id in some || id in more
    {
      if id in some {
        var s :| s in done && s in sessions && id in sessions[s].blockIds;
        assert s in done + {session};
      }
    }
  }

  lemma UnlistKeeps(blocks: Blocks, fids: FidMap, sessions: Sessions, nextId: int, id: int)
    requires Listed(blocks, sessions) && Below(fids, sessions, nextId) && id in blocks
    ensures blocks[id].meta.session in sessions
    ensures var after := Unlist(sessions, blocks[id].meta.session, id);
            Listed(Drop(blocks, {id}), after) && Below(Drop(fids, {id}), after, nextId) && |after| == |sessions|
  {}

  lemma NothingGone(sessions: Sessions, blocks: Blocks, fids: FidMap)
    ensures UnlistedOnly(sessions, sessions, blocks, {}) && FidSet([]) == FidsOf(blocks, {})
    ensures Drop(blocks, {}) == blocks && Drop(fids, {}) == fids
  {}

  lemma UnlistMore(before: Sessions, mid: Sessions, blocks: Blocks, gone: set<int>, id: int)
    requires UnlistedOnly(before, mid, blocks, gone) && id in blocks
    ensures UnlistedOnly(before, Unlist(mid, blocks[id].meta.session, id), blocks, gone + {id})
  {}

  lemma OneLessBlock(blocks: Blocks, fids: FidMap, done: set<int>, id: int)
    requires id in blocks && id !in done
    ensures id in Drop(blocks, done) && Drop(blocks, done)[id] == blocks[id]
    ensures Drop(Drop(blocks, done), {id}) == Drop(blocks, done + {id}) &&
            Drop(Drop(fids, done), {id}) == Drop(fids, done + {id})
  {}

  lemma OneMoreFid(blocks: Blocks, done: set<int>, id: int, cands: seq<string>)
    requires id in blocks && FidSet(cands) == FidsOf(blocks, done)
    ensures FidSet(cands + [blocks[id].meta.fid]) == FidsOf(blocks, done + {id})
  {
    var fid := blocks[id].meta.fid;
    var all := FidsOf(blocks, done + {id});
    assert fid in all;
    forall f | f in FidsOf(blocks, done)
      ensures f in all
    {
      var i :| i in done && i in blocks && blocks[i].meta.fid == f;
      assert i in done + {id};
    }
    assert all == FidsOf(blocks, done) + {fid};
    assert FidSet(cands + [fid]) == FidSet(cands) + {fid};
  }

  lemma ExpiryTracks(blocks: Blocks, owed: set<string>, slots: R.Slots, fids: FidMap, queue: Queue, gone: set<int>,
                     cands: seq<string>, at: nat)
    requires gone <= blocks.Keys && FidSet(cands) == FidsOf(blocks, gone)
    ensures var queue' := EnqueueAll(queue, Entries(cands, at, 1));
            && Fids(queue') == Fids(queue) + FidsOf(blocks, gone) && queue <= queue'
            && (Deduped(queue) ==> Deduped(queue'))
            && (Mapped(blocks, fids) ==> Mapped(Drop(blocks, gone), Drop(fids, gone)))
            && (Mapped(blocks, fids) && NoLeak(owed, slots, fids, queue) ==>
                NoLeak(owed, slots, Drop(fids, gone), queue'))
  {
    EntriesFids(cands, at, 1);
    EnqueueAllAdds(queue, Entries(cands, at, 1));
    if Mapped(blocks, fids) && NoLeak(owed, slots, fids, queue) {
      hide NoLeak, Fids, Deduped;
      UnmapTracks(owed, slots, fids, gone, queue, EnqueueAll(queue, Entries(cands, at, 1)));
    }
  }

  lemma KeepsSessions(before: Sessions, after: Sessions, blocks: Blocks, now: nat)
    requires UnlistedOnly(before, after, blocks, DeadBlocks(blocks, now))
    ensures after.Keys == before.Keys
  {}

  lemma NoneDead(blocks: Blocks, now: nat)
    ensures DeadBlocks(Drop(blocks, DeadBlocks(blocks, now)), now) == {}
  {}

  // ---------- replicated commands ----------

  datatype Saved = Saved(id: int, session: string, fid: string)

  ghost function SavedFids(fids: FidMap, list: seq<Saved>): FidMap
    decreases |list|
  {
    if list == [] then fids else SavedFids(fids, list[..|list| - 1])[list[|list| - 1].id := list[|list| - 1].fid]
  }

  ghost function SavedOwed(list: seq<Saved>): set<string> {
    set i | 0 <= i < |list| :: list[i].fid
  }

  /** Every id of the list keeps one fid: the one it is mapped to, and the same wherever it recurs. */
  ghost predicate OneFid(fids: FidMap, list: seq<Saved>) {
    && (forall i :: 0 <= i < |list| && list[i].id in fids ==> fids[list[i].id] == list[i].fid)
    && (forall i, j :: 0 <= i < j < |list| && list[i].id == list[j].id ==> list[i].fid == list[j].fid)
  }

  /** The same sessions, each listing in addition exactly the ids saved for it. */
  ghost predicate ListedToo(before: Sessions, after: Sessions, list: seq<Saved>) {
    && after.Keys == before.Keys
    && forall s :: s in before ==>
         && after[s].ttl == before[s].ttl && after[s].lastAccessed == before[s].lastAccessed
         && forall id :: id in after[s].blockIds <==> id in before[s].blockIds || Saves(list, s, id)
  }

  ghost predicate Saves(list: seq<Saved>, session: string, id: int) {
    exists i :: 0 <= i < |list| && list[i].session == session && list[i].id == id
  }

  lemma NothingListed(sessions: Sessions)
    ensures ListedToo(sessions, sessions, [])
  {}

  lemma SavesOneMore(list: seq<Saved>, i: nat, session: string, id: int)
    requires i < |list|
    ensures Saves(list[..i + 1], session, id) <==>
              Saves(list[..i], session, id) || (list[i].session == session && list[i].id == id)
  {}

  lemma ListOneMore(before: Sessions, mid: Sessions, list: seq<Saved>, i: nat)
    requires i < |list| && ListedToo(before, mid, list[..i])
    ensures var b := list[i];
            var after := if b.session !in mid then mid
                         else mid[b.session := mid[b.session].(blockIds := WithId(mid[b.session].blockIds, b.id))];
            ListedToo(before, after, list[..i + 1])
  {
    hide Saves, WithId;
    var b := list[i];
    var after := if b.session !in mid then mid
                 else mid[b.session := mid[b.session].(blockIds := WithId(mid[b.session].blockIds, b.id))];
    assert after.Keys == before.Keys;
    forall s, id | s in before
      ensures id in after[s].blockIds <==> id in before[s].blockIds || Saves(list[..i + 1], s, id)
    {
      SavesOneMore(list, i, s, id);
      assert id in mid[s].blockIds <==> id in before[s].blockIds || Saves(list[..i], s, id);
    }
  }

  lemma ListingKeeps(blocks: Blocks, fids: FidMap, sessions: Sessions, nextId: int, b: Saved)
    requires Listed(blocks, sessions) && Below(fids, sessions, nextId) && b.id < nextId
    ensures b.session in sessions ==>
              var listed := WithId(sessions[b.session].blockIds, b.id);
              var after := sessions[b.session := sessions[b.session].(blockIds := listed)];
              Listed(blocks, after) && Below(fids, after, nextId) && |after| == |sessions|
  {}

  lemma NothingSaved(fids: FidMap, owed: set<string>)
    ensures SavedFids(fids, []) == fids && owed + SavedOwed([]) == owed
  {}

  lemma SaveOneMore(fids: FidMap, owed: set<string>, list: seq<Saved>, i: nat)
    requires i < |list|
    ensures SavedFids(fids, list[..i + 1]) == SavedFids(fids, list[..i])[list[i].id := list[i].fid]
    ensures owed + SavedOwed(list[..i + 1]) == (owed + SavedOwed(list[..i])) + {list[i].fid}
  {
    assert list[..i + 1][..i] == list[..i];
    var more, some := list[..i + 1], list[..i];
    assert forall j :: 0 <= j < i ==> more[j] == some[j];
    assert more[i] == list[i];
    forall f
      ensures f in SavedOwed(more) <==> f in SavedOwed(some) || f == list[i].fid
    {
      if f in SavedOwed(some) {
        var j :| 0 <= j < |some| && some[j].fid == f;
        assert more[j].fid == f;
      }
      if f == list[i].fid {
        assert more[i].fid == f;
      }
    }
  }

  lemma {:induction false} SavedAgree(fids: FidMap, list: seq<Saved>, i: nat, n: nat)
    requires n <= i < |list| && OneFid(fids, list) && list[i].id in SavedFids(fids, list[..n])
    ensures SavedFids(fids, list[..n])[list[i].id] == list[i].fid
  {
    if n > 0 {
      assert list[..n][..n - 1] == list[..n - 1];
      assert list[..n][n - 1] == list[n - 1];
      if list[n - 1].id != list[i].id {
        SavedAgree(fids, list, i, n - 1);
      }
    }
  }

  lemma MappingTracks(blocks: Blocks, owed: set<string>, slots: R.Slots, start: FidMap, fids: FidMap, queue: Queue,
                      list: seq<Saved>, i: nat)
    requires i < |list| && fids == SavedFids(start, list[..i])
    ensures OneFid(start, list) && Mapped(blocks, fids) && NoLeak(owed, slots, fids, queue) ==>
              Mapped(blocks, fids[list[i].id := list[i].fid]) &&
              NoLeak(owed + {list[i].fid}, slots, fids[list[i].id := list[i].fid], queue)
  {
    if OneFid(start, list) && Mapped(blocks, fids) && NoLeak(owed, slots, fids, queue) {
      if list[i].id in fids {
        SavedAgree(start, list, i, i);
      }
      RemapLeaks(owed, slots, fids, queue, list[i].id, list[i].fid);
    }
  }

  lemma AdvanceKeeps(blocks: Blocks, blockSize: nat, nextId: int, written: map<int, Bytes>, fids: FidMap,
                     sessions: Sessions, next: int, id: int, fid: string)
    requires BlocksOk(blocks, blockSize, nextId, written) && Below(fids, sessions, nextId) && nextId <= next &&
             id < next
    ensures BlocksOk(blocks, blockSize, next, written) && Below(fids[id := fid], sessions, next)
  {}

  /** How the deletion of a needle ends: gone (also when it was gone before), never deletable, or to be
      tried again. */
  datatype Deletion = Deleted | InvalidFid | Retry

  ghost function Reclaimed(due: Queue, referenced: set<string>, outcome: string -> Deletion): set<string> {
    set i | 0 <= i < |due| && due[i].fid !in referenced && outcome(due[i].fid) != Retry :: due[i].fid
  }

  /** Queued for longer than the grace period, named by no slot and no mapping, and confirmed gone or undeletable. */
  ghost predicate Collectable(queue: Queue, fid: string, now: nat, grace: nat, slots: R.Slots, fids: FidMap,
                              outcome: string -> Deletion) {
    && (exists e :: e in queue && e.fid == fid && (e.enqueuedAt + grace <= now || U128_MAX <= now))
    && (forall k :: k in slots && slots[k].External? ==> slots[k].fid != fid)
    && (forall id :: id in fids ==> fids[id] != fid)
    && (outcome(fid) == Deleted || outcome(fid) == InvalidFid)
  }

  lemma CollectedExactly(queue: Queue, now: nat, grace: nat, slots: R.Slots, fids: FidMap,
                         outcome: string -> Deletion)
    ensures forall e :: e in queue ==>
              && e.fid in Fids(queue)
              && (e.fid in Reclaimed(Due(queue, now, grace), Referenced(slots, fids), outcome) <==>
                  Collectable(queue, e.fid, now, grace, slots, fids, outcome))
  {
    var due, referenced := Due(queue, now, grace), Referenced(slots, fids);
    forall e | e in queue
      ensures e.fid in Fids(queue)
      ensures e.fid in Reclaimed(due, referenced, outcome) <==>
              Collectable(queue, e.fid, now, grace, slots, fids, outcome)
    {
      ReclaimedIs(queue, due, referenced, outcome, e, now, grace);
      hide Due, Reclaimed, Fids;
    }
  }

  lemma ReclaimedIs(queue: Queue, due: Queue, referenced: set<string>, outcome: string -> Deletion, e: GcEntry,
                    now: nat, grace: nat)
    requires e in queue && forall d :: d in due <==> d in queue && IsDue(d, now, grace)
    ensures e.fid in Fids(queue)
    ensures e.fid in Reclaimed(due, referenced, outcome) <==>
            e.fid !in referenced && outcome(e.fid) != Retry &&
            exists d :: d in queue && d.fid == e.fid && (d.enqueuedAt + grace <= now || U128_MAX <= now)
  {
    if d :| d in queue && d.fid == e.fid && (d.enqueuedAt + grace <= now || U128_MAX <= now) {
      assert d in due;
      var i :| 0 <= i < |due| && due[i] == d;
      assert due[i].fid == e.fid;
    }
    if e.fid in Reclaimed(due, referenced, outcome) {
      var i :| 0 <= i < |due| && due[i].fid !in referenced && outcome(due[i].fid) != Retry && due[i].fid == e.fid;
      assert due[i] in queue;
    }
  }

  lemma NothingReclaimed(queue: Queue, owed: set<string>, slots: R.Slots, fids: FidMap, referenced: set<string>,
                         outcome: string -> Deletion)
    ensures Fids(queue) - Reclaimed([], referenced, outcome) == Fids(queue) &&
            owed - Reclaimed([], referenced, outcome) == owed
  {}

  lemma ReclaimOneMore(due: Queue, referenced: set<string>, outcome: string -> Deletion, i: nat)
    requires i < |due|
    ensures Reclaimed(due[..i + 1], referenced, outcome) == Reclaimed(due[..i], referenced, outcome) +
              if due[i].fid !in referenced && outcome(due[i].fid) != Retry then {due[i].fid} else {}
  {}

  lemma OnlyUnreferenced(due: Queue, referenced: set<string>, outcome: string -> Deletion)
    ensures Reclaimed(due, referenced, outcome) !! referenced && Reclaimed(due, referenced, outcome) <= Fids(due)
  {}

  lemma CompletionTracks(owed: set<string>, slots: R.Slots, fids: FidMap, queue: Queue, fid: string)
    ensures NoLeak(owed, slots, fids, queue) ==> NoLeak(owed - {fid}, slots, fids, Complete(queue, fid))
    ensures Deduped(queue) ==> Deduped(Complete(queue, fid))
  {
    CompleteFids(queue, fid);
    if Deduped(queue) {
      CompleteStaysDeduped(queue, fid);
    }
  }

  lemma NothingDeleted(slots: R.Slots, ns: string)
    ensures Drop(slots, R.DeletedKeys(R.DeleteKeys(ns, []))) == slots && DeletedFids(slots, ns, []) == []
  {}

  lemma DeleteOneMore(slots: R.Slots, ns: string, keys: seq<string>, i: nat)
    requires i < |keys|
    ensures var k := R.SlotKey(ns, keys[i]);
            var mid := Drop(slots, R.DeletedKeys(R.DeleteKeys(ns, keys[..i])));
            var fs := DeletedFids(slots, ns, keys[..i]);
            && Drop(mid, {k}) == Drop(slots, R.DeletedKeys(R.DeleteKeys(ns, keys[..i + 1])))
            && DeletedFids(slots, ns, keys[..i + 1]) ==
                 if k in mid && mid[k].External? && mid[k].fid !in fs then fs + [mid[k].fid] else fs
  {
    hide R.SlotKey;
    var some, more := keys[..i], keys[..i + 1];
    assert more[..i] == some && more[i] == keys[i];
    assert more == some + [keys[i]];
    var k := R.SlotKey(ns, keys[i]);
    assert R.DeletedKeys(R.DeleteKeys(ns, more)) == R.DeletedKeys(R.DeleteKeys(ns, some)) + {k};
    var fs := DeletedFids(slots, ns, some);
    if k in slots && slots[k].External? && k in R.DeletedKeys(R.DeleteKeys(ns, some)) {
      var key :| key in some && R.SlotKey(ns, key) == k;
      assert slots[k].fid in fs;
    }
  }

  lemma DeletionQueues(owed: set<string>, slots: R.Slots, fids: FidMap, queue: Queue, c: R.Command, at: nat)
    requires c.DeleteKeys?
    ensures var queue' := EnqueueAll(queue, Entries(DeletedFids(slots, c.ns, c.keys), at, 1));
            && (Deduped(queue) ==> Deduped(queue'))
            && (NoLeak(owed, slots, fids, queue) ==> NoLeak(owed, Drop(slots, R.DeletedKeys(c)), fids, queue'))
  {
    var fs := DeletedFids(slots, c.ns, c.keys);
    EntriesFids(fs, at, 1);
    EnqueueAllAdds(queue, Entries(fs, at, 1));
    if NoLeak(owed, slots, fids, queue) {
      hide NoLeak, Fids, DeletedFids, R.DeletedKeys;
      DeleteTracks(owed, slots, fids, queue, c, EnqueueAll(queue, Entries(fs, at, 1)));
    }
  }
}
