/** Opening a volume again: allocation counters and the file-key high-water mark are rebuilt from the
    index rows, whatever the stored counters say. */
module Restart {
  import opened Bytes
  import opened NeedleCodec
  import opened MapSum
  import opened Sets
  import opened VolumeModel
  import opened Compaction
  import opened VolumeRuns

  function SatAdd(a: nat, b: nat): nat {
    Min(a + b, U64_MAX)
  }

  // ---------- allocation counters ----------

  /** `end` is the furthest end of the rows, cut off at 64 bits, or `from` if no row reaches past it. */
  ghost predicate FurthestEnd(rows: map<NeedleId, Info>, from: nat, end: nat) {
    && end >= from
    && (forall id :: id in rows ==> Min(End(rows[id]), U64_MAX) <= end)
    && (end == from || exists id :: id in rows && end == Min(End(rows[id]), U64_MAX))
  }

  lemma FurthestEndStep(rows: map<NeedleId, Info>, left: map<NeedleId, Info>, id: NeedleId, from: nat, end: nat)
    requires id in left && id in rows && left[id] == rows[id]
    requires FurthestEnd(rows - left.Keys, from, end)
    ensures FurthestEnd(rows - (left - {id}).Keys, from, Max(end, Min(End(rows[id]), U64_MAX)))
  {
    var seen, next := rows - left.Keys, rows - (left - {id}).Keys;
    forall i | i in next
      ensures Min(End(next[i]), U64_MAX) <= Max(end, Min(End(rows[id]), U64_MAX))
    {
      if i != id {
        assert i in seen;
      }
    }
    if end != from {
      var i :| i in seen && end == Min(End(seen[i]), U64_MAX);
      assert i in next;
    }
    assert id in next;
  }

  /** Scan rows for the furthest end; addition saturates at 64 bits. */
  method ScanEnds(rows: map<NeedleId, Info>, from: nat) returns (end: nat)
    ensures FurthestEnd(rows, from, end)
  {
    end := from;
    var left := rows;
    assert rows - left.Keys == map[];
    while left.Keys != {}
      invariant forall id :: id in left ==> id in rows && left[id] == rows[id]
      invariant FurthestEnd(rows - left.Keys, from, end)
      decreases left.Keys
    {
      hide FurthestEnd;
      var id := Pick(left.Keys);
      FurthestEndStep(rows, left, id, from, end);
      var rowEnd := SatAdd(left[id].offset, Size(left[id].dataSize));
      if rowEnd > end {
        end := rowEnd;
      }
      left := left - {id};
    }
    assert rows - left.Keys == rows;
  }

  /** Add up the sizes of the live rows, saturating at 64 bits. */
  method ScanUsed(rows: map<NeedleId, Info>) returns (used: nat)
    ensures used == Min(Sum(Sizes(rows)), U64_MAX)
  {
    used := 0;
    var left := rows;
    while left.Keys != {}
      invariant Sum(Sizes(left)) <= Sum(Sizes(rows))
      invariant used == Min(SatSub(Sum(Sizes(rows)), Sum(Sizes(left))), U64_MAX)
      decreases left.Keys
    {
      hide Sum, Sizes;
      var id := Pick(left.Keys);
      SizesDrop(left, id);
      SizesHas(left, id);
      SumRemove(Sizes(left), id);
      used := SatAdd(used, Size(left[id].dataSize));
      left := left - {id};
    }
    SumEmpty(left);
  }

  ghost predicate EndBy(rows: map<NeedleId, Info>, bound: nat) {
    forall id :: id in rows ==> End(rows[id]) <= bound
  }

  /** The counters the volume starts with: rebuilt from the rows, except that the append offset never
      goes back behind the stored one.  Whatever the stored counters were, nothing live lies past the new
      append offset -- exactly as long as every live extent ends within 64 bits. */
  method SyncAllocation(stats: Alloc, size: nat, index: map<NeedleId, Info>, deleted: map<NeedleId, Info>,
                        ghost bound: nat)
    returns (a: Alloc)
    requires stats.appendOffset <= U64_MAX
    ensures EndBy(index, a.appendOffset) <==> EndBy(index, U64_MAX)
    ensures EndBy(deleted, a.appendOffset) <==> EndBy(deleted, U64_MAX)
    ensures a.appendOffset >= Max(stats.appendOffset, DATA_OFFSET)
    ensures a.used == Min(Sum(Sizes(index)), U64_MAX)
    ensures a.free == SatSub(size, a.used) && a.active == |index| && a.deletedCount == |deleted|
    ensures a.garbage == SatSub(SatSub(a.appendOffset, DATA_OFFSET), a.used)
    ensures Max(stats.appendOffset, DATA_OFFSET) <= bound && EndBy(index, bound) && EndBy(deleted, bound) ==>
              a.appendOffset <= bound
  {
    hide Sum, Sizes;
    var used := ScanUsed(index);
    var live := ScanEnds(index, DATA_OFFSET);
    var rebuilt := ScanEnds(deleted, live);
    var end := Max(Max(stats.appendOffset, rebuilt), DATA_OFFSET);
    a := Alloc(used, SatSub(size, used), end, |index|, |deleted|, SatSub(SatSub(end, DATA_OFFSET), used));
    assert end <= U64_MAX;
  }

  // ---------- reopening restores the invariant ----------

  lemma {:induction false} LastRow(index: map<NeedleId, Info>) returns (last: NeedleId)
    requires index.Keys != {}
    ensures last in index && forall id :: id in index ==> index[id].offset <= index[last].offset
    decreases |index|
  {
    var some := Witness(index.Keys);
    var rest := index - {some};
    last := some;
    if rest.Keys != {} {
      SizesDrop(index, some);
      var other := LastRow(rest);
      if index[some].offset < index[other].offset {
        last := other;
      }
    }
    forall id | id in index
      ensures index[id].offset <= index[last].offset
    {
      if id != some {
        assert id in rest;
      }
    }
  }

  /** Disjoint live extents between the data offset and `bound` cannot be longer than the gap. */
  lemma {:induction false} DisjointFits(index: map<NeedleId, Info>, bound: nat)
    requires Disjoint(index) && EndBy(index, bound) && DATA_OFFSET <= bound
    requires forall id :: id in index ==> DATA_OFFSET <= index[id].offset
    ensures DATA_OFFSET + Sum(Sizes(index)) <= bound
    decreases |index|
  {
    hide Sum, Sizes;
    if index.Keys == {} {
      SumEmpty(index);
    } else {
      var last := LastRow(index);
      SizesDrop(index, last);
      SizesHas(index, last);
      SumRemove(Sizes(index), last);
      var rest := index - {last};
      forall id | id in rest
        ensures End(rest[id]) <= index[last].offset
      {
        assert id in index && id != last;
      }
      DisjointFits(rest, index[last].offset);
    }
  }

  /** `high` is the largest of the ids, 0 if there are none. */
  ghost predicate HighWater(ids: set<NeedleId>, high: int) {
    (forall id :: id in ids ==> id <= high) && (high == 0 || high in ids)
  }

  /** The largest id among the live and the deleted rows. */
  method RecoverMaxId(index: map<NeedleId, Info>, deleted: map<NeedleId, Info>) returns (high: int)
    requires forall id :: id in index.Keys + deleted.Keys ==> id >= 0
    ensures HighWater(index.Keys + deleted.Keys, high)
  {
    high := 0;
    ghost var all := index.Keys + deleted.Keys;
    var left := index.Keys + deleted.Keys;
    while left != {}
      invariant left <= all && HighWater(all - left, high)
      decreases left
    {
      var id := Pick(left);
      if high < id {
        high := id;
      }
      assert all - (left - {id}) == all - left + {id};
      left := left - {id};
    }
    assert all - left == all;
  }

  /** Reopening a volume whose file and rows are in order re-establishes the whole invariant, whatever the
      stored counters say, exactly when the stored append offset lies inside the volume: one past its end is
      kept. */
  method Reopen(ck: Checksum, size: nat, file: Bytes, index: map<NeedleId, Info>, deleted: map<NeedleId, Info>,
                stats: Alloc, ghost stored: map<NeedleId, Bytes>) returns (alloc: Alloc, maxId: int)
    requires Stored(ck, file, index, stored) && Disjoint(index)
    requires forall id :: id in index.Keys + deleted.Keys ==> IsKey(id)
    requires size + DATA_OFFSET <= U64_MAX && stats.appendOffset <= U64_MAX
    requires EndBy(index, size + DATA_OFFSET) && EndBy(deleted, size + DATA_OFFSET)
    ensures Valid(ck, Vol(size, file, index, deleted, map[], alloc, Available, maxId), stored) <==>
            stats.appendOffset <= size + DATA_OFFSET
    ensures alloc.appendOffset == DATA_OFFSET + alloc.used + alloc.garbage && EndBy(index, alloc.appendOffset)
    ensures HighWater(index.Keys + deleted.Keys, maxId)
  {
    hide Sum, Sizes, Disjoint, Stored, HighWater, EndBy, Valid, IsKey;
    KeysArePositive(index.Keys + deleted.Keys);
    alloc := SyncAllocation(stats, size, index, deleted, size + DATA_OFFSET);
    maxId := RecoverMaxId(index, deleted);
    EndBy64(index, size + DATA_OFFSET);
    ghost var v := Vol(size, file, index, deleted, map[], alloc, Available, maxId);
    UsedFits(ck, v, stored, alloc.appendOffset);
    UsedFits(ck, v, stored, size + DATA_OFFSET);
    ReopenBounded(v);
    ReopenAccounted(ck, v, stored);
  }

  lemma KeysArePositive(ids: set<NeedleId>)
    requires forall id :: id in ids ==> IsKey(id)
    ensures forall id :: id in ids ==> id >= 0
  {}

  lemma UsedFits(ck: Checksum, v: Vol, stored: map<NeedleId, Bytes>, end: nat)
    requires Stored(ck, v.file, v.index, stored) && Disjoint(v.index) && EndBy(v.index, end) && DATA_OFFSET <= end
    ensures DATA_OFFSET + Sum(Sizes(v.index)) <= end
  {
    hide Sum, Sizes, Disjoint;
    AfterDataOffset(ck, v.file, v.index, stored);
    hide Stored;
    DisjointFits(v.index, end);
  }

  lemma ReopenAccounted(ck: Checksum, v: Vol, stored: map<NeedleId, Bytes>)
    requires Stored(ck, v.file, v.index, stored) && Disjoint(v.index) && Bounded(v)
    requires v.alloc.used == Sum(Sizes(v.index)) && v.alloc.active == |v.index| && v.alloc.used <= v.size
    requires v.alloc.free == v.size - v.alloc.used
    requires v.alloc.appendOffset == DATA_OFFSET + v.alloc.used + v.alloc.garbage
    ensures Valid(ck, v, stored) <==> v.alloc.appendOffset <= v.size + DATA_OFFSET
  {
    hide Sum, Sizes, Disjoint, Stored, Bounded;
  }

  /** A crash after the image of a new version has reached the file, whole or in part, and before its row has reached
      the index: reopening gives a valid volume in which every stored needle reads as before. */
  method ReopenAfterCrash(ck: Checksum, v: Vol, torn: Bytes, ghost stored: map<NeedleId, Bytes>) returns (w: Vol)
    requires Valid(ck, v, stored) && v.size + DATA_OFFSET <= U64_MAX
    requires EndBy(v.deleted, v.size + DATA_OFFSET) && forall id :: id in v.deleted ==> IsKey(id)
    ensures w.file == Patch(v.file, v.alloc.appendOffset, torn) && w.index == v.index && w.deleted == v.deleted
    ensures Valid(ck, w, stored) && View(w, stored) == stored
  {
    hide Sum, Sizes, Disjoint, Patch, EndBy, HighWater, Accounted;
    var file := Patch(v.file, v.alloc.appendOffset, torn);
    TornTail(ck, v, torn, stored);
    var alloc, maxId := Reopen(ck, v.size, file, v.index, v.deleted, v.alloc, stored);
    w := Vol(v.size, file, v.index, v.deleted, map[], alloc, Available, maxId);
    assert Merged(w.dirty) == map[];
  }

  lemma TornTail(ck: Checksum, v: Vol, torn: Bytes, stored: map<NeedleId, Bytes>)
    requires Valid(ck, v, stored)
    ensures Stored(ck, Patch(v.file, v.alloc.appendOffset, torn), v.index, stored)
    ensures EndBy(v.index, v.size + DATA_OFFSET) && v.alloc.appendOffset <= v.size + DATA_OFFSET
    ensures forall id :: id in v.index ==> IsKey(id)
  {
    hide Sum, Sizes, Disjoint, Patch;
    forall id | id in v.index
      ensures ImageAt(ck, Patch(v.file, v.alloc.appendOffset, torn), id, v.index[id], stored[id])
    {
      ImageKept(ck, v.file, v.alloc.appendOffset, torn, id, v.index[id], stored[id]);
    }
  }

  lemma EndBy64(rows: map<NeedleId, Info>, bound: nat)
    requires EndBy(rows, bound) && bound <= U64_MAX
    ensures EndBy(rows, U64_MAX)
  {}

  lemma ReopenBounded(v: Vol)
    requires EndBy(v.index, v.alloc.appendOffset) && HighWater(v.index.Keys + v.deleted.Keys, v.maxId) &&
             v.dirty == map[]
    ensures Bounded(v)
  {}

  // ---------- file keys ----------

  const BLOCK: nat := 1_048_576

  predicate IsBlockStart(k: int) {
    k >= 1 && (k - 1) % BLOCK == 0
  }

  function BlockOf(id: int): int {
    1 + (id - 1) / BLOCK * BLOCK
  }

  /** The next key to hand out, in 64-bit wrapping arithmetic. */
  function NextFileKey(high: nat): nat {
    if high == 0 then 1 else (1 + ((high - 1) / BLOCK + 1) * BLOCK % U64_LIMIT) % U64_LIMIT
  }

  /** The next key is the least block start above the high-water mark -- except when the mark lies in the
      last block of the 64-bit space, where the computation wraps round to 1. */
  lemma NextFileKeyExact(high: nat)
    requires high < U64_LIMIT
    ensures var k := NextFileKey(high);
            (IsBlockStart(k) && k > high && forall j :: IsBlockStart(j) && j > high ==> k <= j) <==>
                  high <= U64_LIMIT - BLOCK
    ensures high > U64_LIMIT - BLOCK ==> NextFileKey(high) == 1
  {
    if high > 0 {
      var q := (high - 1) / BLOCK;
      if high <= U64_LIMIT - BLOCK {
        assert NextFileKey(high) == 1 + (q + 1) * BLOCK;
        forall j | IsBlockStart(j) && j > high
          ensures NextFileKey(high) <= j
        {
          var p := (j - 1) / BLOCK;
          assert j == 1 + p * BLOCK;
        }
      } else {
        assert q + 1 == U64_LIMIT / BLOCK;
      }
    }
  }

  /** Below the wrap, the block handed out next is disjoint from the block of every id up to the mark. */
  lemma NextBlockIsUnused(high: nat, id: int)
    requires 1 <= id <= high <= U64_LIMIT - BLOCK
    ensures BlockOf(id) <= id < BlockOf(id) + BLOCK <= NextFileKey(high)
  {
    NextFileKeyExact(high);
    assert IsBlockStart(BlockOf(id));
  }

  lemma NextFileKeyMonotone(a: nat, b: nat)
    requires a <= b <= U64_LIMIT - BLOCK
    ensures NextFileKey(a) <= NextFileKey(b)
  {
    NextFileKeyExact(a);
    NextFileKeyExact(b);
  }

  // ---------- the high-water mark over runs ----------

  /** The mark covers every live id. */
  ghost predicate Marked(v: Vol) {
    forall id :: id in v.index.Keys ==> id <= v.maxId
  }

  /** The mark has not fallen, still covers every live id, and moved only onto a live one. */
  ghost predicate Rises(v: Vol, w: Vol) {
    Marked(w) && w.maxId >= v.maxId && (w.maxId == v.maxId || w.maxId in w.index)
  }

  lemma PublishRises(ck: Checksum, v: Vol, dirty: map<NeedleId, Dirty>, id: NeedleId, data: Bytes, cookie: nat)
    requires Marked(v)
    ensures Rises(v, Publish(ck, v.(dirty := dirty), id, data, cookie))
  {
    hide ToBytes, Patch;
  }

  lemma FlushRises(ck: Checksum, v: Vol, dirty: map<NeedleId, Dirty>, id: NeedleId, cookie: nat, entry: Dirty)
    requires Marked(v)
    ensures Rises(v, WriteNowait(ck, v.(dirty := dirty), id, cookie, entry.merged).0)
    ensures Rises(v, FlushEntry(ck, v.(dirty := dirty), id, entry).0)
  {
    hide Publish, Identical;
    PublishRises(ck, v, dirty - {id}, id, entry.merged, cookie);
    PublishRises(ck, v, dirty - {id}, id, entry.merged, 0);
    if id in v.index {
      PublishRises(ck, v, dirty, id, entry.merged, v.index[id].cookie);
    }
  }

  lemma BlobRises(ck: Checksum, v: Vol, disabled: bool, id: NeedleId, offset: nat, data: Bytes)
    requires Marked(v)
    ensures Rises(v, WriteBlob(ck, v, disabled, id, offset, data).0)
  {
    hide FlushEntry, Patch, FromBytes;
    FlushRises(ck, v, v.dirty, id, 0, Dirty(Patch([], offset, data), true));
    if id in v.index && ReadImage(v, v.index[id]).Data? {
      var parsed := FromBytes(ck, ReadImage(v, v.index[id]).bytes);
      if parsed.Parsed? {
        FlushRises(ck, v, v.dirty, id, 0, Dirty(Patch(parsed.needle.data, offset, data), false));
      }
    }
  }

  /** One command, of whatever outcome and size. */
  lemma StepHighWater(ck: Checksum, s: Run, cmd: Command)
    requires Marked(s.vol)
    ensures Rises(s.vol, Step(ck, s, cmd).vol)
  {
    hide WriteNowait, WriteBlob, FlushEntry, Slide;
    match cmd
    case Compact(order) =>
      if ByOffset(s.vol.index, order) && InFile(s.vol.file, s.vol.index, order) {
        SlideTouches(s.vol.file, s.vol.index, order, DATA_OFFSET);
      }
    case Put(id, cookie, data) => FlushRises(ck, s.vol, s.vol.dirty, id, cookie, Dirty(data, true));
    case Region(id, offset, data) => BlobRises(ck, s.vol, s.disabled, id, offset, data);
    case Flush(id) =>
      if id in s.vol.dirty {
        FlushRises(ck, s.vol, s.vol.dirty - {id}, id, 0, s.vol.dirty[id]);
      }
    case Remove(_) =>
  }

  /** Every id that was ever live during the run. */
  ghost function EverLive(ck: Checksum, s: Run, cmds: seq<Command>): set<NeedleId>
    decreases |cmds|
  {
    s.vol.index.Keys + if cmds == [] then {} else EverLive(ck, Step(ck, s, cmds[0]), cmds[1..])
  }

  /** Over any run of any commands, the mark never falls and is the largest id ever stored, deleted or not. */
  lemma {:induction false} RunHighWater(ck: Checksum, s: Run, cmds: seq<Command>)
    requires Marked(s.vol) && forall i :: 0 <= i < |cmds| ==> HasId(cmds[i])
    ensures var t := StepAll(ck, s, cmds);
            && Marked(t.vol) && t.vol.maxId >= s.vol.maxId
            && (forall id :: id in EverLive(ck, s, cmds) ==> id <= t.vol.maxId)
            && (t.vol.maxId == s.vol.maxId || t.vol.maxId in EverLive(ck, s, cmds))
    decreases |cmds|
  {
    hide Step, Marked;
    MarkedAll(s.vol);
    if cmds != [] {
      var next := Step(ck, s, cmds[0]);
      StepHighWater(ck, s, cmds[0]);
      RunHighWater(ck, next, cmds[1..]);
      assert next.vol.index.Keys <= EverLive(ck, next, cmds[1..]);
    }
  }

  lemma MarkedAll(v: Vol)
    requires Marked(v)
    ensures forall id :: id in v.index.Keys ==> id <= v.maxId
  {}

  /** So over any run the next key never goes down below the wrap, is the least block start above every id ever
      stored, and its block is disjoint from the blocks of all of them. */
  lemma RunNextKey(ck: Checksum, s: Run, cmds: seq<Command>)
    requires Marked(s.vol) && 0 <= s.vol.maxId && forall i :: 0 <= i < |cmds| ==> HasId(cmds[i])
    requires StepAll(ck, s, cmds).vol.maxId <= U64_LIMIT - BLOCK
    ensures var mark := StepAll(ck, s, cmds).vol.maxId;
            && 0 <= s.vol.maxId <= mark && NextFileKey(s.vol.maxId) <= NextFileKey(mark)
            && (forall id :: id in EverLive(ck, s, cmds) ==> id < NextFileKey(mark))
            && (forall id :: id in EverLive(ck, s, cmds) && id >= 1 ==> BlockOf(id) + BLOCK <= NextFileKey(mark))
            && (s.vol.maxId == 0 ==>
                  forall k :: IsBlockStart(k) && (forall id :: id in EverLive(ck, s, cmds) ==> id < k) ==>
                                NextFileKey(mark) <= k)
  {
    RunHighWater(ck, s, cmds);
    var mark := StepAll(ck, s, cmds).vol.maxId;
    var live := EverLive(ck, s, cmds);
    hide StepAll, EverLive, NextFileKey, Marked;
    NextFileKeyMonotone(s.vol.maxId, mark);
    NextFileKeyExact(mark);
    forall id | id in live && id >= 1
      ensures BlockOf(id) + BLOCK <= NextFileKey(mark)
    {
      NextBlockIsUnused(mark, id);
    }
  }

  // ---------- the mark that a restart recovers ----------

  /** The mark is the largest id that has a row, live or deleted. */
  ghost predicate Tight(v: Vol) {
    v.maxId >= 0 && HighWater(v.index.Keys + v.deleted.Keys, v.maxId)
  }

  /** No row is lost and the mark stays tight. */
  ghost predicate KeepsRows(v: Vol, w: Vol) {
    v.index.Keys + v.deleted.Keys <= w.index.Keys + w.deleted.Keys && Tight(w)
  }

  lemma PublishKeepsRows(ck: Checksum, v: Vol, dirty: map<NeedleId, Dirty>, id: NeedleId, data: Bytes, cookie: nat)
    requires Tight(v)
    ensures KeepsRows(v, Publish(ck, v.(dirty := dirty), id, data, cookie))
  {
    hide ToBytes, Patch;
    var w := Publish(ck, v.(dirty := dirty), id, data, cookie);
    assert w.index.Keys == v.index.Keys + {id} && w.deleted == v.deleted;
    assert w.maxId == if v.maxId < id then id else v.maxId;
  }

  lemma FlushKeepsRows(ck: Checksum, v: Vol, dirty: map<NeedleId, Dirty>, id: NeedleId, cookie: nat, entry: Dirty)
    requires Tight(v)
    ensures KeepsRows(v, WriteNowait(ck, v.(dirty := dirty), id, cookie, entry.merged).0)
    ensures KeepsRows(v, FlushEntry(ck, v.(dirty := dirty), id, entry).0)
  {
    hide Publish, Identical, HighWater;
    PublishKeepsRows(ck, v, dirty - {id}, id, entry.merged, cookie);
    PublishKeepsRows(ck, v, dirty - {id}, id, entry.merged, 0);
    if id in v.index {
      PublishKeepsRows(ck, v, dirty, id, entry.merged, v.index[id].cookie);
    }
  }

  lemma BlobKeepsRows(ck: Checksum, v: Vol, disabled: bool, id: NeedleId, offset: nat, data: Bytes)
    requires Tight(v)
    ensures KeepsRows(v, WriteBlob(ck, v, disabled, id, offset, data).0)
  {
    hide FlushEntry, Patch, FromBytes, HighWater;
    FlushKeepsRows(ck, v, v.dirty, id, 0, Dirty(Patch([], offset, data), true));
    if id in v.index && ReadImage(v, v.index[id]).Data? {
      var parsed := FromBytes(ck, ReadImage(v, v.index[id]).bytes);
      if parsed.Parsed? {
        FlushKeepsRows(ck, v, v.dirty, id, 0, Dirty(Patch(parsed.needle.data, offset, data), false));
      }
    }
  }

  lemma StepKeepsRows(ck: Checksum, s: Run, cmd: Command)
    requires Tight(s.vol) && !cmd.Compact?
    ensures KeepsRows(s.vol, Step(ck, s, cmd).vol)
  {
    hide WriteNowait, WriteBlob, FlushEntry, HighWater;
    match cmd
    case Put(id, cookie, data) => FlushKeepsRows(ck, s.vol, s.vol.dirty, id, cookie, Dirty(data, true));
    case Region(id, offset, data) => BlobKeepsRows(ck, s.vol, s.disabled, id, offset, data);
    case Flush(id) =>
      if id in s.vol.dirty {
        FlushKeepsRows(ck, s.vol, s.vol.dirty - {id}, id, 0, s.vol.dirty[id]);
      }
    case Remove(id) =>
      var w := Delete(s.vol, id).0;
      assert w.index.Keys + w.deleted.Keys == s.vol.index.Keys + s.vol.deleted.Keys;
  }

  lemma NewIsTight(size: nat)
    ensures Tight(NewVolume(size))
  {}

  /** Over any run without compaction every needle ever stored keeps a row, live or deleted, so that a restart recovers
      exactly the mark the volume had, and with it the next key. */
  lemma {:induction false} RestartRecovers(ck: Checksum, s: Run, cmds: seq<Command>, after: nat)
    requires Tight(s.vol) && forall i :: 0 <= i < |cmds| ==> !cmds[i].Compact?
    requires var t := StepAll(ck, s, cmds).vol; HighWater(t.index.Keys + t.deleted.Keys, after)
    ensures var t := StepAll(ck, s, cmds).vol;
            && EverLive(ck, s, cmds) <= t.index.Keys + t.deleted.Keys
            && s.vol.index.Keys + s.vol.deleted.Keys <= t.index.Keys + t.deleted.Keys
            && after == t.maxId
    decreases |cmds|
  {
    if cmds != [] {
      StepKeepsRows(ck, s, cmds[0]);
      hide Step;
      RestartRecovers(ck, Step(ck, s, cmds[0]), cmds[1..], after);
    }
  }

  lemma NextIsBlockEnd(high: nat)
    requires 1 <= high <= U64_LIMIT - BLOCK
    ensures NextFileKey(high) == BlockOf(high) + BLOCK > 1
  {}

  /** Restarting keeps the next key exactly when some row that still exists -- live or deleted -- lies in
      the block of the mark. */
  lemma RestartKeepsKey(before: nat, ids: set<NeedleId>, after: nat)
    requires before <= U64_LIMIT - BLOCK && HighWater(ids, after)
    requires forall id :: id in ids ==> 1 <= id <= before
    ensures NextFileKey(after) == NextFileKey(before) <==>
            (before == 0 || exists id :: id in ids && BlockOf(id) == BlockOf(before))
  {
    if before > 0 {
      NextIsBlockEnd(before);
      if after > 0 {
        NextIsBlockEnd(after);
        hide NextFileKey;
        if id :| id in ids && BlockOf(id) == BlockOf(before) {
          BlockMonotone(id, after);
          BlockMonotone(after, before);
          hide BlockOf;
        }
      }
    }
  }

  lemma BlockMonotone(a: int, b: int)
    requires 1 <= a <= b
    ensures BlockOf(a) <= BlockOf(b)
  {}

  /** It does not hold in general: compaction forgets the deleted rows. */
  lemma RestartForgets(ck: Checksum, s: Run, after: nat)
    requires s.vol.index == map[] && 0 < s.vol.maxId <= U64_LIMIT - BLOCK
    requires var t := Step(ck, s, Compact([])); HighWater(t.vol.index.Keys + t.vol.deleted.Keys, after)
    ensures NextFileKey(after) == 1 < NextFileKey(s.vol.maxId) && Step(ck, s, Compact([])).vol.maxId == s.vol.maxId
  {
    assert ByOffset(s.vol.index, []) && InFile(s.vol.file, s.vol.index, []);
    NextFileKeyExact(s.vol.maxId);
  }

  /** It does happen: store one needle in a new volume with room for it, remove it, compact, restart -- and the
      block of that needle is handed out again. */
  lemma RestartForgetsRun(ck: Checksum, size: nat, id: NeedleId, data: Bytes, after: nat)
    requires 1 <= id <= U64_LIMIT - BLOCK && Size(|data|) <= size
    requires var t := StepAll(ck, Run(NewVolume(size), map[], false), [Put(id, 0, data), Remove(id), Compact([])]);
             HighWater(t.vol.index.Keys + t.vol.deleted.Keys, after)
    ensures var t := StepAll(ck, Run(NewVolume(size), map[], false), [Put(id, 0, data), Remove(id), Compact([])]);
            t.vol.maxId == id && NextFileKey(after) == 1 < NextFileKey(t.vol.maxId)
  {
    var s := Run(NewVolume(size), map[], false);
    var cmds := [Put(id, 0, data), Remove(id), Compact([])];
    var stored, removed := Step(ck, s, cmds[0]), Step(ck, Step(ck, s, cmds[0]), cmds[1]);
    OneNeedle(ck, s, size, id, data);
    ThreeSteps(ck, s, cmds);
    hide StepAll, Step, NextFileKey;
    RestartForgets(ck, removed, after);
  }

  lemma OneNeedle(ck: Checksum, s: Run, size: nat, id: NeedleId, data: Bytes)
    requires s == Run(NewVolume(size), map[], false) && 1 <= id && Size(|data|) <= size
    ensures var t := Step(ck, Step(ck, s, Put(id, 0, data)), Remove(id)); t.vol.index == map[] && t.vol.maxId == id
  {
    hide ToBytes, Patch;
    var t := Step(ck, s, Put(id, 0, data));
    assert t.vol.index.Keys == {id} && t.vol.maxId == id;
    assert t.vol.index - {id} == map[];
  }

  lemma ThreeSteps(ck: Checksum, s: Run, cmds: seq<Command>)
    requires |cmds| == 3
    ensures StepAll(ck, s, cmds) == Step(ck, Step(ck, Step(ck, s, cmds[0]), cmds[1]), cmds[2])
  {
    hide Step;
    var rest := cmds[1..];
    assert rest[1..] == [cmds[2]] && rest[0] == cmds[1];
    assert StepAll(ck, Step(ck, Step(ck, s, cmds[0]), cmds[1]), rest[1..])
        == StepAll(ck, Step(ck, Step(ck, Step(ck, s, cmds[0]), cmds[1]), cmds[2]), []);
  }
}
