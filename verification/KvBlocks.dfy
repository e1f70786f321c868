/** The block cache: resident and evicted blocks, the buffer pool, and which group of blocks goes next. */
module KvBlocks {
  import opened Bytes
  import opened Options
  import opened MapSum

  datatype Pin = Unpinned | Soft | Hard

  datatype Meta = Meta(session: string, size: nat, lastAccessed: nat, ttl: Option<nat>, fid: string, pin: Pin)

  datatype Block = Block(meta: Meta, data: Bytes, resident: bool)

  type Blocks = map<int, Block>

  /** All resident blocks of one session with one pin mode. */
  datatype Group = Group(session: string, pin: Pin)

  predicate InGroup(b: Block, g: Group) {
    b.resident && b.meta.pin == g.pin && b.meta.session == g.session
  }

  /** Memory eviction of one block: the bytes go, the identity stays. */
  function Evict(b: Block): Block {
    b.(data := [], resident := false)
  }

  function EvictGroup(blocks: Blocks, g: Group): Blocks {
    map id | id in blocks :: if InGroup(blocks[id], g) then Evict(blocks[id]) else blocks[id]
  }

  ghost function EvictAll(blocks: Blocks, groups: seq<Group>): Blocks
    decreases |groups|
  {
    if groups == [] then blocks else EvictGroup(EvictAll(blocks, groups[..|groups| - 1]), groups[|groups| - 1])
  }

  /** `id` is the least recently used resident block of its pin mode, and its time stamp can anchor a group. */
  ghost predicate Anchors(blocks: Blocks, id: int, pin: Pin) {
    && id in blocks && blocks[id].resident && blocks[id].meta.pin == pin && blocks[id].meta.lastAccessed < U64_MAX
    && forall c :: c in blocks && blocks[c].resident && blocks[c].meta.pin == pin ==>
                     blocks[id].meta.lastAccessed <= blocks[c].meta.lastAccessed
  }

  /** No resident block of this pin mode carries a time stamp that can anchor a group. */
  ghost predicate Spent(blocks: Blocks, pin: Pin) {
    forall c :: c in blocks && blocks[c].resident && blocks[c].meta.pin == pin ==>
                  blocks[c].meta.lastAccessed >= U64_MAX
  }

  /** The group that has to go next: that of the oldest unpinned block, and that of the oldest softly
      pinned block only when no unpinned one is left to choose. */
  ghost predicate Next(blocks: Blocks, g: Group) {
    && g.pin != Hard
    && (exists id :: Anchors(blocks, id, g.pin) && blocks[id].meta.session == g.session)
    && (g.pin == Soft ==> Spent(blocks, Unpinned))
  }

  ghost predicate EvictionRun(blocks: Blocks, groups: seq<Group>)
    decreases |groups|
  {
    groups == [] ||
    (EvictionRun(blocks, groups[..|groups| - 1]) &&
     Next(EvictAll(blocks, groups[..|groups| - 1]), groups[|groups| - 1]))
  }

  ghost predicate NothingEvictable(blocks: Blocks) {
    Spent(blocks, Unpinned) && Spent(blocks, Soft)
  }

  // ---------- resident bytes ----------

  ghost function Resident(blocks: Blocks): map<int, nat> {
    map id | id in blocks && blocks[id].resident :: blocks[id].meta.size
  }

  ghost function ResidentBytes(blocks: Blocks): nat {
    Sum(Resident(blocks))
  }

  // ---------- what any eviction run does ----------

  ghost predicate Evicted(before: Blocks, after: Blocks, id: int) {
    id in before && id in after && before[id].resident && !after[id].resident
  }

  lemma {:induction false} EvictAllTouches(blocks: Blocks, groups: seq<Group>)
    ensures EvictAll(blocks, groups).Keys == blocks.Keys
    ensures forall id :: id in blocks ==>
              var after := EvictAll(blocks, groups)[id];
              after == blocks[id] || (blocks[id].resident && after == Evict(blocks[id]))
    decreases |groups|
  {
    if groups != [] {
      EvictAllTouches(blocks, groups[..|groups| - 1]);
    }
  }

  /** Eviction keeps every block's identity -- key, session, size, fid, pin -- and takes nothing but the
      bytes, and only from resident blocks that are not hard-pinned. */
  lemma {:induction false} EvictionKeepsIdentity(blocks: Blocks, groups: seq<Group>)
    requires EvictionRun(blocks, groups)
    ensures var after := EvictAll(blocks, groups);
            && after.Keys == blocks.Keys
            && (forall id :: id in blocks ==> after[id].meta == blocks[id].meta)
            && (forall id :: id in blocks && blocks[id].meta.pin == Hard ==> after[id] == blocks[id])
            && (forall id :: id in blocks && !Evicted(blocks, after, id) ==> after[id] == blocks[id])
            && (forall id :: Evicted(blocks, after, id) ==> after[id].data == [])
    decreases |groups|
  {
    EvictAllTouches(blocks, groups);
    if groups != [] {
      EvictionKeepsIdentity(blocks, groups[..|groups| - 1]);
      EvictAllTouches(blocks, groups[..|groups| - 1]);
    }
  }

  /** All or nothing: an evicted block takes its whole (session, pin) group with it. */
  lemma {:induction false} EvictionTakesWholeGroups(blocks: Blocks, groups: seq<Group>, id: int, peer: int)
    requires EvictionRun(blocks, groups) && Evicted(blocks, EvictAll(blocks, groups), id)
    requires peer in blocks && InGroup(blocks[peer], Group(blocks[id].meta.session, blocks[id].meta.pin))
    ensures Evicted(blocks, EvictAll(blocks, groups), peer)
    decreases |groups|
  {
    EvictAllTouches(blocks, groups);
    if groups != [] {
      var init := groups[..|groups| - 1];
      EvictAllTouches(blocks, init);
      if Evicted(blocks, EvictAll(blocks, init), id) {
        EvictionTakesWholeGroups(blocks, init, id, peer);
      }
    }
  }

  /** Soft pins hold until no unpinned block is left to choose. */
  lemma {:induction false} SoftOnlyAfterUnpinned(blocks: Blocks, groups: seq<Group>, id: int)
    requires EvictionRun(blocks, groups) && Evicted(blocks, EvictAll(blocks, groups), id) && blocks[id].meta.pin == Soft
    ensures Spent(EvictAll(blocks, groups), Unpinned)
    decreases |groups|
  {
    EvictAllTouches(blocks, groups);
    if groups != [] {
      var init := groups[..|groups| - 1];
      EvictAllTouches(blocks, init);
      if Evicted(blocks, EvictAll(blocks, init), id) {
        SoftOnlyAfterUnpinned(blocks, init, id);
      }
    }
  }

  /** Coldest first: the oldest access in an evicted group is no more recent than any access of a block of
      the same pin mode that stayed. */
  lemma {:induction false} EvictedGroupsAreColdest(blocks: Blocks, groups: seq<Group>, id: int) returns (oldest: int)
    requires EvictionRun(blocks, groups) && Evicted(blocks, EvictAll(blocks, groups), id)
    ensures oldest in blocks && InGroup(blocks[oldest], Group(blocks[id].meta.session, blocks[id].meta.pin))
    ensures var after := EvictAll(blocks, groups);
            forall c :: c in after && after[c].resident && after[c].meta.pin == blocks[id].meta.pin ==>
                          blocks[oldest].meta.lastAccessed <= after[c].meta.lastAccessed
    decreases |groups|
  {
    EvictAllTouches(blocks, groups);
    var init, g := groups[..|groups| - 1], groups[|groups| - 1];
    var mid := EvictAll(blocks, init);
    EvictAllTouches(blocks, init);
    if Evicted(blocks, mid, id) {
      oldest := EvictedGroupsAreColdest(blocks, init, id);
    } else {
      oldest :| Anchors(mid, oldest, g.pin) && mid[oldest].meta.session == g.session;
    }
  }

  // ---------- bytes freed ----------

  lemma ResidentEvict(blocks: Blocks, id: int)
    requires id in blocks && blocks[id].resident
    ensures ResidentBytes(blocks[id := Evict(blocks[id])]) + blocks[id].meta.size == ResidentBytes(blocks)
  {
    hide Sum;
    var after := blocks[id := Evict(blocks[id])];
    assert Resident(after) == Resident(blocks) - {id};
    SumRemove(Resident(blocks), id);
  }

  lemma ResidentInsert(blocks: Blocks, id: int, b: Block)
    requires id !in blocks
    ensures ResidentBytes(blocks[id := b]) == ResidentBytes(blocks) + if b.resident then b.meta.size else 0
  {
    hide Sum;
    if b.resident {
      assert Resident(blocks[id := b]) == Resident(blocks)[id := b.meta.size];
      SumInsert(Resident(blocks), id, b.meta.size);
    } else {
      assert Resident(blocks[id := b]) == Resident(blocks);
    }
  }

  lemma ResidentDrop(blocks: Blocks, id: int)
    requires id in blocks
    ensures ResidentBytes(blocks) ==
            ResidentBytes(blocks - {id}) + if blocks[id].resident then blocks[id].meta.size else 0
  {
    hide Sum;
    if blocks[id].resident {
      assert Resident(blocks - {id}) == Resident(blocks) - {id};
      SumRemove(Resident(blocks), id);
    } else {
      assert Resident(blocks - {id}) == Resident(blocks);
    }
  }
}
