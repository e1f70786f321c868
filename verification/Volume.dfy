/** The volume as the object the server holds: its fields are updated step by step, and every method is
    proved against the functions of VolumeModel. */
module VolumeEngine {
  import opened Bytes
  import opened Options
  import opened NeedleCodec
  import opened VolumeModel
  import opened Compaction
  import opened Sets
  import opened MapSum

  ghost function At(m: map<NeedleId, Bytes>, id: NeedleId): Option<Bytes> {
    if id in m then Some(m[id]) else None
  }

  function Insert(sorted: seq<NeedleId>, id: NeedleId): (r: seq<NeedleId>)
    requires forall i, j :: 0 <= i < j < |sorted| ==> sorted[i] < sorted[j]
    ensures forall i, j :: 0 <= i < j < |r| ==> r[i] < r[j]
    ensures forall x :: x in r <==> x == id || x in sorted
  {
    if sorted == [] || id < sorted[0] then [id] + sorted
    else if id == sorted[0] then sorted
    else
      var rest := Insert(sorted[1..], id);
      assert forall k :: 0 <= k < |rest| ==> rest[k] in rest;
      [sorted[0]] + rest
  }

  /** Sort and drop duplicates. */
  function SortDedup(ids: seq<NeedleId>): (r: seq<NeedleId>)
    ensures forall i, j :: 0 <= i < j < |r| ==> r[i] < r[j]
    ensures forall x :: x in r <==> x in ids
  {
    if ids == [] then [] else Insert(SortDedup(ids[1..]), ids[0])
  }

  ghost predicate Sorted(index: map<NeedleId, Info>, order: seq<NeedleId>) {
    && AllIn(index, order) && Distinct(order)
    && forall i, j :: 0 <= i < j < |order| ==> index[order[i]].offset <= index[order[j]].offset
  }

  method InsertByOffset(index: map<NeedleId, Info>, order: seq<NeedleId>, id: NeedleId) returns (r: seq<NeedleId>)
    requires Sorted(index, order) && id in index && id !in order
    ensures Sorted(index, r) && forall x :: x in r <==> x == id || x in order
  {
    var k := 0;
    while k < |order| && index[order[k]].offset <= index[id].offset
      invariant 0 <= k <= |order|
      invariant forall i :: 0 <= i < k ==> index[order[i]].offset <= index[id].offset
    {
      k := k + 1;
    }
    r := order[..k] + [id] + order[k..];
    assert forall i :: 0 <= i < |r| ==> r[i] == if i < k then order[i] else if i == k then id else order[i - 1];
  }

  /** Collect the live needles in whatever order the index yields them, kept sorted by offset. */
  method LiveByOffset(index: map<NeedleId, Info>) returns (order: seq<NeedleId>)
    ensures ByOffset(index, order)
  {
    order := [];
    var left := index.Keys;
    while left != {}
      invariant Sorted(index, order) && left <= index.Keys
      invariant forall id :: id in index.Keys ==> (id in left <==> id !in order)
      decreases left
    {
      hide Sorted;
      var id := Pick(left);
      order := InsertByOffset(index, order, id);
      left := left - {id};
    }
  }

  class Volume {
    const ck: Checksum
    const size: nat
    const disabled: bool
    var file: Bytes
    var index: map<NeedleId, Info>
    var deleted: map<NeedleId, Info>
    var dirty: map<NeedleId, Dirty>
    var alloc: Alloc
    var state: VolumeState
    var maxId: int
    var compacting: bool
    ghost var stored: map<NeedleId, Bytes>

    ghost function Value(): Vol
      reads this
    {
      Vol(size, file, index, deleted, dirty, alloc, state, maxId)
    }

    ghost predicate Sound()
      reads this
    {
      Valid(ck, Value(), stored) && (disabled ==> dirty == map[])
    }

    ghost function Contents(): map<NeedleId, Bytes>
      reads this
    {
      View(Value(), stored)
    }

    /** A brand-new volume: no needle, append offset at the start of the data area. */
    constructor (ck: Checksum, size: nat, disabled: bool)
      ensures Sound() && Contents() == map[] && !compacting
      ensures this.ck == ck && this.size == size && this.disabled == disabled
    {
      this.ck, this.size, this.disabled := ck, size, disabled;
      file, index, deleted, dirty := [], map[], map[], map[];
      alloc := Alloc(0, size, DATA_OFFSET, 0, 0, 0);
      state, maxId, compacting, stored := Available, 0, false, map[];
      new;
      assert Sizes(index) == map[];
    }

    method WriteNeedleNowait(id: NeedleId, cookie: nat, data: Bytes) returns (out: Outcome)
      requires 0 < id
      modifies this`file, this`index, this`dirty, this`alloc, this`state, this`maxId
      ensures (Value(), out) == WriteNowait(ck, old(Value()), id, cookie, data)
    {
      if state != Available {
        return InvalidState;
      }
      dirty := dirty - {id};
      var needle := NewNeedle(ck, id, data);
      if id in index && index[id].dataSize == |data| && index[id].checksum == needle.checksum {
        return Ok;
      }
      var required := Size(|data|);
      if alloc.free < required {
        state := Full;
        return OutOfSpace;
      }
      if alloc.appendOffset + required > size + DATA_OFFSET {
        state := Full;
        return OutOfSpace;
      }
      AppendAndPublish(needle, cookie);
      out := Ok;
    }

    method AppendNeedleVersion(id: NeedleId, data: Bytes) returns (out: Outcome)
      requires id in index
      modifies this`file, this`index, this`dirty, this`alloc, this`state, this`maxId
      ensures (Value(), out) == AppendVersion(ck, old(Value()), id, data)
    {
      if state != Available {
        return InvalidState;
      }
      var needle := NewNeedle(ck, id, data);
      if index[id].dataSize == |data| && index[id].checksum == needle.checksum {
        return Ok;
      }
      if alloc.free < Size(|data|) {
        state := Full;
        return OutOfSpace;
      }
      if alloc.appendOffset + Size(|data|) > size + DATA_OFFSET {
        return StorageError;
      }
      AppendAndPublish(needle, index[id].cookie);
      out := Ok;
    }

    /** Write the image at the append offset, then put the index row and the counters in one batch. */
    method AppendAndPublish(needle: Needle, cookie: nat)
      requires needle.checksum == ck(needle.data)
      modifies this`file, this`index, this`alloc, this`maxId
      ensures Value() == Publish(ck, old(Value()), needle.id, needle.data, cookie)
    {
      hide ToBytes, Patch;
      var required := Size(|needle.data|);
      file := Patch(file, alloc.appendOffset, ToBytes(needle));
      var used, garbage, active := alloc.used, alloc.garbage, alloc.active;
      if needle.id !in index {
        used := used + required;
        active := active + 1;
      } else {
        var old_total := Size(index[needle.id].dataSize);
        garbage := garbage + old_total;
        if required > old_total {
          used := used + (required - old_total);
        } else if required < old_total {
          used := SatSub(used, old_total - required);
        }
      }
      index := index[needle.id := Info(alloc.appendOffset, |needle.data| % U32_LIMIT, needle.checksum, cookie)];
      alloc := Alloc(used, SatSub(size, used), alloc.appendOffset + required, active, alloc.deletedCount, garbage);
      if maxId < needle.id {
        maxId := needle.id;
      }
    }

    method FlushCoalescerEntry(id: NeedleId, entry: Dirty) returns (out: Outcome)
      requires 0 < id
      modifies this`file, this`index, this`dirty, this`alloc, this`state, this`maxId
      ensures (Value(), out) == FlushEntry(ck, old(Value()), id, entry)
    {
      if entry.isNew || id !in index {
        out := WriteNeedleNowait(id, 0, entry.merged);
      } else {
        out := AppendNeedleVersion(id, entry.merged);
      }
    }

    /** A full write.  The object stays sound exactly unless it reports success for an oversized payload. */
    method WriteNeedle(id: NeedleId, cookie: nat, data: Bytes) returns (out: Outcome)
      requires Sound() && IsKey(id)
      modifies this
      ensures (Sound() <==> out != Ok || Readable(|data|)) && compacting == old(compacting)
      ensures out == Busy <==> old(compacting)
      ensures !old(compacting) ==> (Value(), out) == WriteNowait(ck, old(Value()), id, cookie, data)
      ensures out == Ok && Readable(|data|) ==>
                (Contents() == old(Contents())[id := data] <==> !Collides(ck, old(stored), id, data))
      ensures out == OutOfSpace ==>
                forall other :: At(Contents(), other) == At(if other == id then old(stored) else old(Contents()), other)
      ensures out in {InvalidState, Busy} ==> Value() == old(Value()) && Contents() == old(Contents())
      ensures out in {Ok, OutOfSpace, InvalidState, Busy}
    {
      hide Valid, WriteNowait, StoredAfter, Merged, Collides;
      if compacting {
        return Busy;
      }
      hide View;
      FullWriteRefines(ck, Value(), stored, id, cookie, data);
      FullWriteStores(ck, Value(), stored, id, cookie, data);
      out := WriteNeedleNowait(id, cookie, data);
      if out == Ok {
        stored := StoredAfter(ck, stored, id, data);
      }
      DisabledStays(ck, old(Value()), id, cookie, data);
    }

    /** Merge a region into the dirty buffer; with coalescing disabled, hand the merged payload back. */
    method RecordWrite(id: NeedleId, offset: nat, data: Bytes, hint: nat, existing: Option<Bytes>)
      returns (forced: Option<Dirty>)
      modifies this`dirty
      ensures var start := if existing.Some? then existing.value else Zeros(hint);
              var entry := Dirty(Patch(start, offset, data), existing.None?);
              && (disabled ==> forced == Some(entry) && dirty == old(dirty))
              && (!disabled ==> forced == None)
              && (!disabled && id !in old(dirty) ==> dirty == old(dirty)[id := entry])
              && (!disabled && id in old(dirty) ==>
                    dirty == old(dirty)[id := old(dirty)[id].(merged := Patch(old(dirty)[id].merged, offset, data))])
    {
      var start := if existing.Some? then existing.value else Zeros(hint);
      if disabled {
        return Some(Dirty(Patch(start, offset, data), existing.None?));
      }
      if id !in dirty {
        dirty := dirty[id := Dirty(start, existing.None?)];
      }
      dirty := dirty[id := dirty[id].(merged := Patch(dirty[id].merged, offset, data))];
      forced := None;
    }

    method WriteBlobLocked(id: NeedleId, offset: nat, data: Bytes) returns (out: Outcome)
      requires 0 < id
      modifies this`file, this`index, this`dirty, this`alloc, this`state, this`maxId
      ensures (Value(), out) == WriteBlob(ck, old(Value()), disabled, id, offset, data)
    {
      hide FlushEntry, FromBytes, Patch;
      PatchZeros(offset, data);
      var existing: Option<Bytes> := None;
      var hint := offset + |data|;
      if id !in dirty && id in index {
        var info := index[id];
        var end := info.offset + ReadLength(info);
        if end > size + DATA_OFFSET || end > |file| {
          return StorageError;
        }
        var parsed := FromBytes(ck, file[info.offset..end]);
        if parsed.Rejected? {
          return StorageError;
        }
        existing, hint := Some(parsed.needle.data), Max(|parsed.needle.data|, hint);
      }
      var forced := RecordWrite(id, offset, data, hint, existing);
      out := Ok;
      if forced.Some? {
        out := FlushCoalescerEntry(id, forced.value);
      }
    }

    /** A region write.  The object stays sound exactly unless the patched payload is taken in and oversized. */
    method WriteNeedleBlob(id: NeedleId, offset: nat, size: int, data: Bytes) returns (out: Outcome)
      requires Sound() && IsKey(id)
      modifies this
      ensures compacting == old(compacting)
      ensures out == Busy <==> old(compacting)
      ensures out == Busy ==> Value() == old(Value()) && Contents() == old(Contents())
      ensures var piece := data[..if size < 0 then |data| else Min(size, |data|)];
              !old(compacting) ==> (Value(), out) == WriteBlob(ck, old(Value()), disabled, id, offset, piece)
      ensures var piece := data[..if size < 0 then |data| else Min(size, |data|)];
              var patched := Patch(Known(old(Contents()), id), offset, piece);
              && (out == Ok && !(disabled && (Collides(ck, old(stored), id, patched) || !Readable(|patched|))) ==>
                    Contents() == old(Contents())[id := patched])
              && (out != Ok ==> out == Busy || (disabled && Contents() == old(Contents())))
              && (Sound() <==> out != Ok || Readable(|patched|))
    {
      hide Valid, View, Known, WriteBlob, Collides, Patch;
      if compacting {
        return Busy;
      }
      var piece := data[..if size < 0 then |data| else Min(size, |data|)];
      ghost var now := BlobEither(ck, Value(), stored, disabled, id, offset, piece);
      out := WriteBlobLocked(id, offset, piece);
      stored := now;
    }

    /** Write the given dirty buffers out, each taken and appended in one go.  A buffer whose append fails
        is gone, and its needle reads as the stored version again; with room for all of them none fails. */
    method FlushNeedleIds(ids: seq<NeedleId>) returns (flushed: nat, ghost failed: set<NeedleId>)
      requires Sound()
      modifies this
      ensures Sound() && compacting == old(compacting)
      ensures old(compacting) ==>
                Value() == old(Value()) && flushed == 0 && failed == {} && Contents() == old(Contents())
      ensures !old(compacting) ==>
                && (Value(), flushed) == FlushSeq(ck, old(Value()), SortDedup(ids))
                && failed == Failures(ck, old(Value()), SortDedup(ids))
                && (RoomFor(old(Value()), Taken(old(dirty), ids)) ==> failed == {})
                && (failed == {} && NoneCollides(ck, old(dirty), old(stored), Taken(old(dirty), ids)) ==>
                      Contents() == old(Contents()))
      ensures !old(compacting) ==>
                var taken := Taken(old(dirty), ids);
                && dirty == old(dirty) - taken && failed <= taken && flushed + |failed| == |taken|
                && (forall id :: id !in taken ==> At(Contents(), id) == At(old(Contents()), id))
                && (forall id :: id in taken ==>
                      At(Contents(), id) == At(if id in failed || Collides(ck, old(stored), id, old(dirty)[id].merged)
                                               then old(stored) else old(Contents()), id))
    {
      hide Valid, View, At, Collides, StoredFlushed, Taken, FlushEntry, FlushSeq, Failures, RoomFor;
      flushed, failed := 0, {};
      if compacting {
        return;
      }
      var todo := SortDedup(ids);
      ghost var now := FlushSeqRefines(ck, Value(), stored, todo);
      failed := Failures(ck, Value(), todo);
      FlushSeqView(ck, Value(), stored, now, todo);
      TakenSorted(dirty, ids);
      DirtyKeyed(ck, Value(), stored);
      if RoomFor(Value(), Taken(dirty, todo)) {
        FlushSeqFits(ck, Value(), stored, todo);
      }
      flushed := FlushEach(todo);
      stored := now;
      SameContents(old(Contents()), Contents());
    }

    method FlushEach(todo: seq<NeedleId>) returns (flushed: nat)
      requires forall id :: id in dirty ==> 0 < id
      modifies this`file, this`index, this`dirty, this`alloc, this`state, this`maxId
      ensures (Value(), flushed) == FlushSeq(ck, old(Value()), todo)
    {
      hide FlushEntry;
      flushed := 0;
      for k := 0 to |todo|
        invariant (Value(), flushed) == FlushSeq(ck, old(Value()), todo[..k]) && dirty.Keys <= old(dirty).Keys
      {
        FlushTakes(ck, Value(), todo[k]);
        assert todo[..k + 1][..k] == todo[..k];
        var id := todo[k];
        if id in dirty {
          var entry := dirty[id];
          dirty := dirty - {id};
          var out := FlushCoalescerEntry(id, entry);
          if out == Ok {
            flushed := flushed + 1;
          }
        }
      }
      assert todo[..|todo|] == todo;
    }

    method DeleteNeedle(id: NeedleId) returns (out: Outcome)
      requires Sound()
      modifies this
      ensures Sound() && Contents() == old(Contents()) - {id} && compacting == old(compacting)
      ensures (Value(), out) == Delete(old(Value()), id)
      ensures out == (if id in old(index) then Ok else NotFound)
      ensures state == if old(state) == Full && id in old(index) then Available else old(state)
    {
      hide Valid, View, Delete;
      DeleteRefines(ck, Value(), stored, id);
      StateAfterDelete(ck, Value(), stored, id);
      DeleteTouches(Value(), id);
      out := MarkDeleted(id);
      stored := stored - {id};
    }

    /** Drop the dirty buffer, then move the index row to the deleted records in one batch. */
    method MarkDeleted(id: NeedleId) returns (out: Outcome)
      modifies this`index, this`deleted, this`dirty, this`alloc, this`state
      ensures (Value(), out) == Delete(old(Value()), id)
    {
      dirty := dirty - {id};
      if id !in index {
        return NotFound;
      }
      var freed := Size(index[id].dataSize);
      deleted := deleted[id := index[id]];
      index := index - {id};
      var used := SatSub(alloc.used, freed);
      alloc := Alloc(used, SatSub(size, used), alloc.appendOffset, SatSub(alloc.active, 1),
                     alloc.deletedCount + 1, alloc.garbage + freed);
      if state == Full && alloc.free > 0 {
        state := Available;
      }
      out := Ok;
    }

    /** Flush everything in some order, slide the live needles down inside the file, forget the deleted ones and
        cut the file.  Every needle reads as before, except where a buffer found no room or collided; with room for
        all of them none fails.  The gap that was garbage is given back. */
    method Compact()
      returns (out: Outcome, reclaimed: nat, moved: nat, ghost todo: seq<NeedleId>, ghost failed: set<NeedleId>)
      requires Sound()
      modifies this
      ensures Sound() && compacting == old(compacting)
      ensures out == if old(compacting) then Busy else Ok
      ensures out == Busy ==> Value() == old(Value()) && Contents() == old(Contents())
      ensures out == Ok ==>
                && Lists(todo, old(dirty).Keys) && failed == Failures(ck, old(Value()), todo)
                && (RoomFor(old(Value()), old(dirty).Keys) ==> failed == {})
                && (failed == {} && NoneCollides(ck, old(dirty), old(stored), old(dirty).Keys) ==>
                      Contents() == old(Contents()))
                && exists order :: Compacted(FlushSeq(ck, old(Value()), todo).0, order, Value(), moved)
      ensures out == Ok ==>
                && dirty == map[] && deleted == map[] && alloc.garbage == 0 && |file| == alloc.appendOffset
                && alloc.deletedCount == 0 && (old(dirty) == map[] ==> state == old(state))
                && (exists order :: ByOffset(index, order) && PackedFrom(index, order, DATA_OFFSET))
                && failed <= old(dirty).Keys
                && (forall id :: id !in old(dirty) ==> At(Contents(), id) == At(old(Contents()), id))
                && (forall id :: id in old(dirty) ==>
                      At(Contents(), id) == At(if id in failed || Collides(ck, old(stored), id, old(dirty)[id].merged)
                                               then old(stored) else old(Contents()), id))
      ensures out == Ok ==> reclaimed == old(alloc.garbage) +
                            Sum(Overwritten(ck, old(dirty), old(stored), old(dirty).Keys, failed))
      ensures out == Ok && old(dirty) == map[] && old(alloc.garbage) == 0 ==> moved == 0 && index == old(index)
    {
      hide Valid, View, At, Collides, ByOffset, PackedFrom, StoredFlushed, Overwritten, Sum, FlushSeq, Failures,
           RoomFor, Lists, Compacted;
      reclaimed, moved, todo, failed := 0, 0, [], {};
      if compacting {
        return Busy, reclaimed, moved, todo, failed;
      }
      compacting := true;
      todo, failed := DrainAll();
      DrainedView(ck, old(Value()), old(stored), stored, failed);
      reclaimed, moved := SlideDown();
      SameContents(old(Contents()), Contents());
      compacting := false;
      out := Ok;
    }

    /** Take every dirty entry at once, then append them one by one, ignoring failures. */
    method DrainAll() returns (ghost todo: seq<NeedleId>, ghost failed: set<NeedleId>)
      requires Valid(ck, Value(), stored)
      modifies this`file, this`index, this`dirty, this`alloc, this`state, this`maxId, this`stored
      ensures Valid(ck, Value(), stored) && dirty == map[]
      ensures Lists(todo, old(dirty).Keys) && failed == Failures(ck, old(Value()), todo)
      ensures RoomFor(old(Value()), old(dirty).Keys) ==> failed == {}
      ensures Value() == FlushSeq(ck, old(Value()), todo).0
      ensures failed <= old(dirty).Keys && StoredFlushed(ck, old(dirty), old(stored), stored, old(dirty).Keys, failed)
      ensures alloc.garbage == old(alloc.garbage) +
                               Sum(Overwritten(ck, old(dirty), old(stored), old(dirty).Keys, failed))
      ensures old(dirty) == map[] ==> Value() == old(Value()) && stored == old(stored)
    {
      hide Valid, StoredFlushed, FlushEntry, Overwritten, Sum, OldSize, FlushSeq, Failures, RoomFor, Lists, Taken;
      ghost var v := Value();
      var entries := dirty;
      DirtyKeyed(ck, v, stored);
      todo := DrainEach();
      ListsTaken(v.dirty, todo);
      ghost var now := FlushSeqRefines(ck, v, stored, todo);
      failed := Failures(ck, v, todo);
      FlushSeqWastes(ck, v, stored, todo);
      if RoomFor(v, v.dirty.Keys) {
        FlushSeqFits(ck, v, stored, todo);
      }
      if entries == map[] {
        NothingToFlush(ck, v, stored, todo, now);
      }
      stored := now;
    }

    /** Whatever the order, the appends are those of flushing one needle after the other. */
    method DrainEach() returns (ghost todo: seq<NeedleId>)
      requires forall id :: id in dirty ==> 0 < id
      modifies this`file, this`index, this`dirty, this`alloc, this`state, this`maxId
      ensures Lists(todo, old(dirty).Keys) && Value() == FlushSeq(ck, old(Value()), todo).0
    {
      hide FlushEntry, FlushSeq;
      ghost var v := Value();
      var entries := dirty;
      dirty := map[];
      todo := [];
      var left := entries.Keys;
      FlushesNothing(ck, v);
      while left != {}
        invariant Lists(todo, entries.Keys - left) && left <= entries.Keys
        invariant Value() == FlushSeq(ck, v, todo).0.(dirty := map[])
        decreases left
      {
        var id := Pick(left);
        DrainOneMore(ck, v, todo, id);
        var _ := FlushCoalescerEntry(id, entries[id]);
        ListsOneMore(todo, entries.Keys - left, id);
        assert entries.Keys - left + {id} == entries.Keys - (left - {id});
        todo := todo + [id];
        left := left - {id};
      }
      assert entries.Keys - left == entries.Keys;
      FlushSeqTakes(ck, v, todo);
      ListsTaken(v.dirty, todo);
      assert v.dirty - v.dirty.Keys == map[];
    }

    method SlideDown() returns (reclaimed: nat, moved: nat)
      requires Valid(ck, Value(), stored)
      modifies this`file, this`index, this`deleted, this`alloc
      ensures Valid(ck, Value(), stored) && View(Value(), stored) == old(View(Value(), stored))
      ensures deleted == map[] && alloc.garbage == 0 && |file| == alloc.appendOffset
      ensures alloc.deletedCount == 0
      ensures exists order :: ByOffset(index, order) && PackedFrom(index, order, DATA_OFFSET)
      ensures exists order :: Compacted(old(Value()), order, Value(), moved)
      ensures reclaimed == old(alloc.garbage)
      ensures old(alloc.garbage) == 0 ==> moved == 0 && index == old(index)
    {
      hide Valid, View, Slide, ByOffset, PackedFrom, Truncate, InFile, Distinct;
      ghost var v := Value();
      var order := LiveByOffset(index);
      SlidePlan(ck, v, stored, order);
      var end: nat;
      end, moved := MoveEach(order);
      reclaimed := SatSub(alloc.appendOffset, end);
      deleted := map[];
      alloc := alloc.(appendOffset := end, free := SatSub(size, alloc.used), deletedCount := 0, garbage := 0);
      file := Truncate(file, end);
      assert Value() == Cleanup(v, Slide(v.file, v.index, order, DATA_OFFSET).file, index, end);
      assert Compacted(v, order, Value(), moved);
    }

    /** Copy the needles down in offset order, each through the same file. */
    method MoveEach(order: seq<NeedleId>) returns (end: nat, moved: nat)
      requires InFile(file, index, order) && Distinct(order)
      modifies this`file, this`index
      ensures Slid(file, index, end, moved) == Slide(old(file), old(index), order, DATA_OFFSET)
    {
      hide Patch, Slide, InFile, Distinct;
      end, moved := DATA_OFFSET, 0;
      assert order[0..] == order;
      for k := 0 to |order|
        invariant InFile(file, index, order[k..]) && Distinct(order[k..])
        invariant var s := Slide(file, index, order[k..], end);
                  s.(moved := moved + s.moved) == Slide(old(file), old(index), order, DATA_OFFSET)
      {
        var id := order[k];
        assert order[k..][0] == id && order[k..][1..] == order[k + 1..];
        SlideUnfolds(file, index, order[k..], end);
        var info := index[id];
        if info.offset != end {
          var raw := file[info.offset..info.offset + ReadLength(info)];
          file := Patch(file, end, raw);
          index := index[id := info.(offset := end)];
          moved := moved + 1;
        }
        end := end + Size(info.dataSize);
      }
      SlideNothing(file, index, end);
      assert order[|order|..] == [];
    }
  }

  // ---------- value-level facts behind the methods ----------

  lemma BlobEither(ck: Checksum, v: Vol, stored: map<NeedleId, Bytes>, disabled: bool, id: NeedleId, offset: nat,
                   data: Bytes)
    returns (now: map<NeedleId, Bytes>)
    requires Valid(ck, v, stored) && IsKey(id) && (disabled ==> v.dirty == map[])
    ensures var (w, out) := WriteBlob(ck, v, disabled, id, offset, data);
            var patched := Patch(Known(View(v, stored), id), offset, data);
            && ValidUnless(ck, w, now, out == Ok && !Readable(|patched|))
            && (disabled ==> w.dirty == map[]) && out != Busy
            && (out == Ok && !(disabled && (Collides(ck, stored, id, patched) || !Readable(|patched|))) ==>
                  View(w, now) == View(v, stored)[id := patched])
            && (out != Ok ==> disabled && View(w, now) == View(v, stored))
  {
    NeverBusy(ck, v, disabled, id, offset, data);
    var patched := Patch(Known(View(v, stored), id), offset, data);
    hide Valid, WriteBlob, StoredAfter, Merged, Collides, ValidUnless;
    if disabled {
      hide Patch;
      SynchronousBlobRefines(ck, v, stored, id, offset, data);
      var out := WriteBlob(ck, v, disabled, id, offset, data).1;
      now := if out == Ok then StoredAfter(ck, stored, id, patched) else stored;
    } else {
      hide Patch;
      BlobRefines(ck, v, stored, id, offset, data);
      now := stored;
    }
  }

  /** Flush a list of needles one after the other, counting the appends that succeed. */
  ghost function FlushSeq(ck: Checksum, v: Vol, todo: seq<NeedleId>): (Vol, nat) {
    if todo == [] then (v, 0)
    else
      var (w, n) := FlushSeq(ck, v, todo[..|todo| - 1]);
      var id := todo[|todo| - 1];
      var (x, out) := FlushOne(ck, w, id);
      (x, if id in w.dirty && out == Ok then n + 1 else n)
  }

  /** The needles of the list whose append fails when its turn comes. */
  ghost function Failures(ck: Checksum, v: Vol, todo: seq<NeedleId>): set<NeedleId> {
    if todo == [] then {}
    else
      var w := FlushSeq(ck, v, todo[..|todo| - 1]).0;
      var id := todo[|todo| - 1];
      Failures(ck, v, todo[..|todo| - 1]) + if id in w.dirty && FlushOne(ck, w, id).1 != Ok then {id} else {}
  }

  ghost predicate NoneCollides(ck: Checksum, dirty: map<NeedleId, Dirty>, stored: map<NeedleId, Bytes>,
                               ids: set<NeedleId>)
    requires ids <= dirty.Keys
  {
    forall id :: id in ids ==> !Collides(ck, stored, id, dirty[id].merged)
  }

  lemma SameContents(a: map<NeedleId, Bytes>, b: map<NeedleId, Bytes>)
    ensures (forall id :: At(b, id) == At(a, id)) ==> a == b
  {
    if forall id :: At(b, id) == At(a, id) {
      forall id | id in a
        ensures id in b && b[id] == a[id]
      {
        assert At(b, id) == At(a, id);
      }
      forall id | id in b
        ensures id in a
      {
        assert At(b, id) == At(a, id);
      }
    }
  }

  ghost function BufferSizes(dirty: map<NeedleId, Dirty>, ids: set<NeedleId>): map<NeedleId, nat>
    requires ids <= dirty.Keys
  {
    map id | id in ids :: Size(|dirty[id].merged|)
  }

  /** The volume takes writes, and its file has room for the images of all these buffers. */
  ghost predicate RoomFor(v: Vol, ids: set<NeedleId>)
    requires ids <= v.dirty.Keys
  {
    v.state == Available && v.alloc.appendOffset + Sum(BufferSizes(v.dirty, ids)) <= v.size + DATA_OFFSET
  }

  /** Every member once, in some order. */
  ghost predicate Lists(todo: seq<NeedleId>, ids: set<NeedleId>) {
    Distinct(todo) && forall id :: id in todo <==> id in ids
  }

  /** `w` is `v` with its live needles slid down in offset order and everything else cleaned up. */
  ghost predicate Compacted(v: Vol, order: seq<NeedleId>, w: Vol, moved: nat) {
    && ByOffset(v.index, order) && InFile(v.file, v.index, order) && Distinct(order)
    && var s := Slide(v.file, v.index, order, DATA_OFFSET);
       w == Cleanup(v, s.file, s.index, s.end) && moved == s.moved
  }

  ghost function Taken(dirty: map<NeedleId, Dirty>, todo: seq<NeedleId>): (r: set<NeedleId>)
    ensures r <= dirty.Keys
  {
    set id | id in dirty && id in todo
  }

  /** What is stored after flushing `taken`, of which `failed` could not be appended. */
  ghost predicate StoredFlushed(ck: Checksum, dirty: map<NeedleId, Dirty>, stored: map<NeedleId, Bytes>,
                                now: map<NeedleId, Bytes>, taken: set<NeedleId>, failed: set<NeedleId>)
    requires taken <= dirty.Keys
  {
    && (forall id :: id !in taken ==> At(now, id) == At(stored, id))
    && (forall id :: id in taken ==>
          At(now, id) == if id in failed || Collides(ck, stored, id, dirty[id].merged) then At(stored, id)
                         else Some(dirty[id].merged))
  }

  lemma StoredFlushedStep(ck: Checksum, dirty: map<NeedleId, Dirty>, stored: map<NeedleId, Bytes>,
                          now: map<NeedleId, Bytes>, taken: set<NeedleId>, failed: set<NeedleId>,
                          id: NeedleId, ok: bool)
    requires taken <= dirty.Keys && failed <= taken && id in dirty && id !in taken
    requires StoredFlushed(ck, dirty, stored, now, taken, failed)
    ensures StoredFlushed(ck, dirty, stored, if ok then StoredAfter(ck, now, id, dirty[id].merged) else now,
                          taken + {id}, if ok then failed else failed + {id})
  {}

  /** The bytes an append of `data` turns into garbage: the stored version's, unless the append is skipped. */
  ghost function OldSize(ck: Checksum, stored: map<NeedleId, Bytes>, id: NeedleId, data: Bytes): nat {
    if id in stored && !(|stored[id]| == |data| && ck(stored[id]) == ck(data)) then Size(|stored[id]|) else 0
  }

  /** The stored versions that flushing `taken` replaced, each with the size of its image. */
  ghost function Overwritten(ck: Checksum, dirty: map<NeedleId, Dirty>, stored: map<NeedleId, Bytes>,
                             taken: set<NeedleId>, failed: set<NeedleId>): map<NeedleId, nat>
    requires taken <= dirty.Keys
  {
    map id | id in taken && id !in failed :: OldSize(ck, stored, id, dirty[id].merged)
  }

  lemma NothingOverwritten(ck: Checksum, dirty: map<NeedleId, Dirty>, stored: map<NeedleId, Bytes>)
    ensures Sum(Overwritten(ck, dirty, stored, {}, {})) == 0
  {
    assert Overwritten(ck, dirty, stored, {}, {}) == map[];
  }

  lemma OverwrittenStep(ck: Checksum, dirty: map<NeedleId, Dirty>, stored: map<NeedleId, Bytes>,
                        now: map<NeedleId, Bytes>, taken: set<NeedleId>, failed: set<NeedleId>,
                          id: NeedleId, ok: bool)
    requires taken <= dirty.Keys && failed <= taken && id in dirty && id !in taken
    requires StoredFlushed(ck, dirty, stored, now, taken, failed)
    ensures Sum(Overwritten(ck, dirty, stored, taken + {id}, if ok then failed else failed + {id})) ==
            Sum(Overwritten(ck, dirty, stored, taken, failed)) +
            if ok then OldSize(ck, now, id, dirty[id].merged) else 0
  {
    assert At(now, id) == At(stored, id);
    assert OldSize(ck, now, id, dirty[id].merged) == OldSize(ck, stored, id, dirty[id].merged);
    hide Sum, OldSize, StoredFlushed;
    var before := Overwritten(ck, dirty, stored, taken, failed);
    var after := Overwritten(ck, dirty, stored, taken + {id}, if ok then failed else failed + {id});
    if ok {
      assert after == before[id := OldSize(ck, stored, id, dirty[id].merged)];
      SumInsert(before, id, OldSize(ck, stored, id, dirty[id].merged));
    } else {
      assert after == before;
    }
  }

  lemma FlushEntryWastes(ck: Checksum, v: Vol, stored: map<NeedleId, Bytes>, id: NeedleId, entry: Dirty)
    requires Valid(ck, v, stored)
    ensures var (w, out) := FlushEntry(ck, v, id, entry);
            w.alloc.garbage == v.alloc.garbage + if out == Ok then OldSize(ck, stored, id, entry.merged) else 0
  {
    hide Valid, WriteNowait, AppendVersion, OldSize;
    if entry.isNew || id !in v.index {
      WriteWastes(ck, v, stored, id, 0, entry.merged);
    } else {
      AppendWastes(ck, v, stored, id, entry.merged);
    }
  }

  lemma FlushWastes(ck: Checksum, v: Vol, stored: map<NeedleId, Bytes>, id: NeedleId)
    requires Valid(ck, v, stored) && id in v.dirty
    ensures var (w, out) := FlushOne(ck, v, id);
            w.alloc.garbage == v.alloc.garbage + if out == Ok then OldSize(ck, stored, id, v.dirty[id].merged) else 0
  {
    hide Valid, FlushEntry, OldSize;
    DropKeepsValid(ck, v, stored, {id});
    FlushEntryWastes(ck, v.(dirty := v.dirty - {id}), stored, id, v.dirty[id]);
  }

  lemma WriteWastes(ck: Checksum, v: Vol, stored: map<NeedleId, Bytes>, id: NeedleId, cookie: nat, data: Bytes)
    requires Valid(ck, v, stored)
    ensures var (w, out) := WriteNowait(ck, v, id, cookie, data);
            w.alloc.garbage == v.alloc.garbage + if out == Ok then OldSize(ck, stored, id, data) else 0
  {
    hide Valid, Publish, Identical;
    var u := v.(dirty := v.dirty - {id});
    DropKeepsValid(ck, v, stored, {id});
    SkippedIsStored(ck, u, stored, id, data);
    PublishWastes(ck, u, stored, id, data, cookie);
  }

  lemma AppendWastes(ck: Checksum, v: Vol, stored: map<NeedleId, Bytes>, id: NeedleId, data: Bytes)
    requires Valid(ck, v, stored) && id in v.index
    ensures var (w, out) := AppendVersion(ck, v, id, data);
            w.alloc.garbage == v.alloc.garbage + if out == Ok then OldSize(ck, stored, id, data) else 0
  {
    hide Valid, Publish, Identical;
    SkippedIsStored(ck, v, stored, id, data);
    PublishWastes(ck, v, stored, id, data, v.index[id].cookie);
  }

  lemma PublishWastes(ck: Checksum, v: Vol, stored: map<NeedleId, Bytes>, id: NeedleId, data: Bytes, cookie: nat)
    requires Valid(ck, v, stored)
    ensures Publish(ck, v, id, data, cookie).alloc.garbage ==
            v.alloc.garbage + if id in stored then Size(|stored[id]|) else 0
  {
    hide ToBytes, Patch, Sum, Disjoint;
    if id in v.index {
      assert ImageAt(ck, v.file, id, v.index[id], stored[id]);
    }
  }

  lemma TakenSorted(dirty: map<NeedleId, Dirty>, ids: seq<NeedleId>)
    ensures Taken(dirty, SortDedup(ids)) == Taken(dirty, ids)
  {}

  lemma TakenStep(dirty: map<NeedleId, Dirty>, todo: seq<NeedleId>)
    requires todo != []
    ensures var init, id := todo[..|todo| - 1], todo[|todo| - 1];
            && Taken(dirty, todo) == Taken(dirty, init) + (if id in dirty then {id} else {})
            && (Distinct(todo) ==> Distinct(init) && id !in Taken(dirty, init))
  {}

  lemma FlushSeqUnfolds(ck: Checksum, v: Vol, todo: seq<NeedleId>)
    ensures todo == [] ==> FlushSeq(ck, v, todo) == (v, 0) && Failures(ck, v, todo) == {}
    ensures todo != [] ==>
              var init, id := todo[..|todo| - 1], todo[|todo| - 1];
              var (w, n) := FlushSeq(ck, v, init);
              var (x, out) := FlushOne(ck, w, id);
              && FlushSeq(ck, v, todo) == (x, if id in w.dirty && out == Ok then n + 1 else n)
              && Failures(ck, v, todo) == Failures(ck, v, init) + if id in w.dirty && out != Ok then {id} else {}
  {
    hide FlushOne;
  }

  lemma {:induction false} FlushSeqRefines(ck: Checksum, v: Vol, stored: map<NeedleId, Bytes>, todo: seq<NeedleId>)
    returns (now: map<NeedleId, Bytes>)
    requires Valid(ck, v, stored) && Distinct(todo)
    ensures var (w, n) := FlushSeq(ck, v, todo);
            var taken, failed := Taken(v.dirty, todo), Failures(ck, v, todo);
            && Valid(ck, w, now) && w.dirty == v.dirty - taken && failed <= taken && n + |failed| == |taken|
            && StoredFlushed(ck, v.dirty, stored, now, taken, failed)
    decreases |todo|
  {
    hide Valid, FlushOne, StoredFlushed, FlushSeq, Failures, Taken;
    FlushSeqUnfolds(ck, v, todo);
    if todo == [] {
      now := stored;
      NothingFlushed(ck, v.dirty, stored);
      NothingTaken(v.dirty);
    } else {
      var init, id := todo[..|todo| - 1], todo[|todo| - 1];
      now := FlushSeqRefines(ck, v, stored, init);
      var w := FlushSeq(ck, v, init).0;
      TakenStep(v.dirty, todo);
      if id in v.dirty {
        now := FlushOneMore(ck, v.dirty, stored, w, now, Taken(v.dirty, init), Failures(ck, v, init), id);
      } else {
        FlushAbsent(ck, w, id);
      }
    }
  }

  lemma FlushOneMore(ck: Checksum, dirty: map<NeedleId, Dirty>, stored: map<NeedleId, Bytes>, v: Vol,
                     before: map<NeedleId, Bytes>, taken: set<NeedleId>, failed: set<NeedleId>, id: NeedleId)
    returns (now: map<NeedleId, Bytes>)
    requires Valid(ck, v, before) && failed <= taken <= dirty.Keys && v.dirty == dirty - taken
    requires StoredFlushed(ck, dirty, stored, before, taken, failed) && id in dirty && id !in taken
    ensures var (w, out) := FlushOne(ck, v, id);
            && Valid(ck, w, now) && w.dirty == dirty - (taken + {id})
            && StoredFlushed(ck, dirty, stored, now, taken + {id}, failed + if out != Ok then {id} else {})
  {
    hide Valid, FlushOne, StoredFlushed, StoredAfter, Collides;
    FlushRefines(ck, v, before, id);
    var ok := FlushOne(ck, v, id).1 == Ok;
    StoredFlushedStep(ck, dirty, stored, before, taken, failed, id, ok);
    now := if ok then StoredAfter(ck, before, id, dirty[id].merged) else before;
    DropTwice(dirty, taken, id);
    assert failed + {} == failed;
  }

  lemma NothingTaken(dirty: map<NeedleId, Dirty>)
    ensures Taken(dirty, []) == {} && dirty - {} == dirty
  {}

  /** With room for all of them, no append of the list fails: each takes no more than its own image. */
  lemma {:induction false} FlushSeqFits(ck: Checksum, v: Vol, stored: map<NeedleId, Bytes>, todo: seq<NeedleId>)
    requires Valid(ck, v, stored) && Distinct(todo) && RoomFor(v, Taken(v.dirty, todo))
    ensures var w := FlushSeq(ck, v, todo).0;
            && Failures(ck, v, todo) == {} && w.state == Available && w.size == v.size
            && w.alloc.appendOffset <= v.alloc.appendOffset + Sum(BufferSizes(v.dirty, Taken(v.dirty, todo)))
    decreases |todo|
  {
    hide Valid, FlushOne, StoredFlushed, Sum, FlushSeq, Failures, Taken, BufferSizes;
    FlushSeqUnfolds(ck, v, todo);
    if todo == [] {
      NothingTaken(v.dirty);
    } else {
      var init, id := todo[..|todo| - 1], todo[|todo| - 1];
      TakenStep(v.dirty, todo);
      var before, taken := Taken(v.dirty, init), Taken(v.dirty, todo);
      var w := FlushSeq(ck, v, init).0;
      if id in v.dirty {
        OneBufferMore(v.dirty, before, id);
        FlushSeqFits(ck, v, stored, init);
        var now := FlushSeqRefines(ck, v, stored, init);
        FlushFits(ck, w, now, id);
      } else {
        assert taken == before;
        FlushSeqFits(ck, v, stored, init);
        var _ := FlushSeqRefines(ck, v, stored, init);
        FlushAbsent(ck, w, id);
      }
    }
  }

  lemma OneBufferMore(dirty: map<NeedleId, Dirty>, ids: set<NeedleId>, id: NeedleId)
    requires ids <= dirty.Keys && id in dirty && id !in ids
    ensures Sum(BufferSizes(dirty, ids + {id})) == Sum(BufferSizes(dirty, ids)) + Size(|dirty[id].merged|)
  {
    hide Sum;
    assert BufferSizes(dirty, ids + {id}) == BufferSizes(dirty, ids)[id := Size(|dirty[id].merged|)];
    SumInsert(BufferSizes(dirty, ids), id, Size(|dirty[id].merged|));
  }

  lemma {:induction false} FlushSeqWastes(ck: Checksum, v: Vol, stored: map<NeedleId, Bytes>, todo: seq<NeedleId>)
    requires Valid(ck, v, stored) && Distinct(todo)
    ensures FlushSeq(ck, v, todo).0.alloc.garbage == v.alloc.garbage +
              Sum(Overwritten(ck, v.dirty, stored, Taken(v.dirty, todo), Failures(ck, v, todo)))
    decreases |todo|
  {
    hide Valid, FlushOne, StoredFlushed, Sum, OldSize, Overwritten, FlushSeq, Failures, Taken;
    FlushSeqUnfolds(ck, v, todo);
    if todo == [] {
      NothingTaken(v.dirty);
      NothingOverwritten(ck, v.dirty, stored);
    } else {
      var init, id := todo[..|todo| - 1], todo[|todo| - 1];
      FlushSeqWastes(ck, v, stored, init);
      var now := FlushSeqRefines(ck, v, stored, init);
      var w := FlushSeq(ck, v, init).0;
      TakenStep(v.dirty, todo);
      if id in v.dirty {
        WastesOneMore(ck, v.dirty, stored, w, now, Taken(v.dirty, init), Failures(ck, v, init), id);
      } else {
        FlushAbsent(ck, w, id);
      }
    }
  }

  lemma WastesOneMore(ck: Checksum, dirty: map<NeedleId, Dirty>, stored: map<NeedleId, Bytes>, v: Vol,
                      now: map<NeedleId, Bytes>, taken: set<NeedleId>, failed: set<NeedleId>, id: NeedleId)
    requires Valid(ck, v, now) && failed <= taken <= dirty.Keys && v.dirty == dirty - taken
    requires StoredFlushed(ck, dirty, stored, now, taken, failed) && id in dirty && id !in taken
    ensures var (w, out) := FlushOne(ck, v, id);
            Sum(Overwritten(ck, dirty, stored, taken + {id}, failed + if out != Ok then {id} else {})) ==
            Sum(Overwritten(ck, dirty, stored, taken, failed)) + w.alloc.garbage - v.alloc.garbage
  {
    hide Valid, FlushOne, StoredFlushed, Sum, OldSize, Overwritten;
    FlushWastes(ck, v, now, id);
    OverwrittenStep(ck, dirty, stored, now, taken, failed, id, FlushOne(ck, v, id).1 == Ok);
    assert failed + {} == failed;
  }

  lemma FlushTakes(ck: Checksum, v: Vol, id: NeedleId)
    ensures FlushOne(ck, v, id).0.dirty == v.dirty - {id}
  {
    hide Publish, Identical;
    PublishLeavesBuffers(ck);
    assert v.dirty - {id} - {id} == v.dirty - {id};
    if id !in v.dirty {
      assert v.dirty - {id} == v.dirty;
    }
  }

  lemma PublishLeavesBuffers(ck: Checksum)
    ensures forall v: Vol, id, data, cookie :: Publish(ck, v, id, data, cookie).dirty == v.dirty
  {}

  lemma {:induction false} FlushSeqTakes(ck: Checksum, v: Vol, todo: seq<NeedleId>)
    ensures FlushSeq(ck, v, todo).0.dirty == v.dirty - Taken(v.dirty, todo)
    decreases |todo|
  {
    hide FlushOne, Taken;
    if todo == [] {
      NothingTaken(v.dirty);
    } else {
      var init, id := todo[..|todo| - 1], todo[|todo| - 1];
      FlushSeqTakes(ck, v, init);
      FlushTakes(ck, FlushSeq(ck, v, init).0, id);
      TakenStep(v.dirty, todo);
      DropTwice(v.dirty, Taken(v.dirty, init), id);
      if id !in v.dirty {
        assert v.dirty - Taken(v.dirty, init) - {id} == v.dirty - Taken(v.dirty, init);
      }
    }
  }

  /** What an append does, it does whatever other buffers there are. */
  lemma EntryIgnoresBuffers(ck: Checksum, v: Vol, id: NeedleId, entry: Dirty)
    ensures var (w, out) := FlushEntry(ck, v, id, entry);
            FlushEntry(ck, v.(dirty := map[]), id, entry) == (w.(dirty := map[]), out)
  {
    hide Publish;
    var none: map<NeedleId, Dirty> := map[];
    assert none - {id} == none;
    PublishIgnoresBuffers(ck, v, id, entry.merged);
  }

  lemma PublishIgnoresBuffers(ck: Checksum, v: Vol, id: NeedleId, data: Bytes)
    ensures forall cookie, dirty ::
              Publish(ck, v.(dirty := dirty), id, data, cookie) == Publish(ck, v, id, data, cookie).(dirty := dirty)
  {
    hide ToBytes, Patch;
  }

  lemma DrainOneMore(ck: Checksum, v: Vol, todo: seq<NeedleId>, id: NeedleId)
    requires id in v.dirty && id !in todo
    ensures FlushSeq(ck, v, todo + [id]).0.(dirty := map[])
         == FlushEntry(ck, FlushSeq(ck, v, todo).0.(dirty := map[]), id, v.dirty[id]).0
  {
    hide FlushEntry;
    assert (todo + [id])[..|todo|] == todo;
    FlushSeqTakes(ck, v, todo);
    var w := FlushSeq(ck, v, todo).0;
    EntryIgnoresBuffers(ck, w.(dirty := w.dirty - {id}), id, v.dirty[id]);
  }

  lemma FlushesNothing(ck: Checksum, v: Vol)
    ensures FlushSeq(ck, v, []).0 == v && Lists([], {})
  {}

  lemma ListsOneMore(todo: seq<NeedleId>, ids: set<NeedleId>, id: NeedleId)
    requires Lists(todo, ids) && id !in ids
    ensures Lists(todo + [id], ids + {id})
  {}

  lemma ListsTaken(dirty: map<NeedleId, Dirty>, todo: seq<NeedleId>)
    requires Lists(todo, dirty.Keys)
    ensures Taken(dirty, todo) == dirty.Keys && Distinct(todo)
  {
    assert forall id :: id in dirty.Keys ==> id in todo;
  }

  lemma ListsNothing(todo: seq<NeedleId>, ids: set<NeedleId>)
    requires Lists(todo, ids)
    ensures todo != [] ==> ids != {}
  {
    if todo != [] {
      assert todo[0] in todo;
    }
  }

  lemma NothingToFlush(ck: Checksum, v: Vol, stored: map<NeedleId, Bytes>, todo: seq<NeedleId>,
                       now: map<NeedleId, Bytes>)
    requires v.dirty == map[] && Lists(todo, v.dirty.Keys)
    requires Valid(ck, v, stored) && Valid(ck, FlushSeq(ck, v, todo).0, now)
    ensures FlushSeq(ck, v, todo).0 == v && now == stored
  {
    hide Stored, Disjoint, Bounded, Accounted, FlushOne;
    ListsNothing(todo, v.dirty.Keys);
    StoredIsUnique(ck, v, now, stored);
  }

  lemma NothingFlushed(ck: Checksum, dirty: map<NeedleId, Dirty>, stored: map<NeedleId, Bytes>)
    ensures StoredFlushed(ck, dirty, stored, stored, {}, {})
  {}

  lemma FlushAbsent(ck: Checksum, v: Vol, id: NeedleId)
    requires id !in v.dirty
    ensures FlushOne(ck, v, id) == (v, Ok)
  {}

  lemma DropTwice(dirty: map<NeedleId, Dirty>, taken: set<NeedleId>, id: NeedleId)
    ensures dirty - taken - {id} == dirty - (taken + {id})
  {}

  /** Seen from outside: only a failed or colliding append shows, as a fall-back to the stored version. */
  lemma FlushSeqView(ck: Checksum, v: Vol, stored: map<NeedleId, Bytes>, now: map<NeedleId, Bytes>,
                     todo: seq<NeedleId>)
    requires var w := FlushSeq(ck, v, todo).0;
             var taken := Taken(v.dirty, todo);
             w.dirty == v.dirty - taken && StoredFlushed(ck, v.dirty, stored, now, taken, Failures(ck, v, todo))
    ensures var w := FlushSeq(ck, v, todo).0;
            var taken, failed := Taken(v.dirty, todo), Failures(ck, v, todo);
            && (forall id :: id !in taken ==> At(View(w, now), id) == At(View(v, stored), id))
            && (forall id :: id in taken ==>
                  At(View(w, now), id) == At(if id in failed || Collides(ck, stored, id, v.dirty[id].merged)
                                             then stored else View(v, stored), id))
  {
    hide FlushSeq, Failures, Collides;
    var w := FlushSeq(ck, v, todo).0;
    var taken := Taken(v.dirty, todo);
    forall id
      ensures id !in taken ==> At(View(w, now), id) == At(View(v, stored), id)
      ensures id in taken ==> At(View(w, now), id) == At(now, id) && At(View(v, stored), id) == Some(v.dirty[id].merged)
    {}
  }

  lemma DeleteTouches(v: Vol, id: NeedleId)
    ensures var (w, out) := Delete(v, id);
            && w.dirty == v.dirty - {id} && w.maxId == v.maxId
            && out == if id in v.index then Ok else NotFound
  {}

  lemma DirtyKeyed(ck: Checksum, v: Vol, stored: map<NeedleId, Bytes>)
    requires Valid(ck, v, stored)
    ensures forall id :: id in v.dirty ==> 0 < id
  {}

  lemma DrainedView(ck: Checksum, v: Vol, stored: map<NeedleId, Bytes>, now: map<NeedleId, Bytes>,
                    failed: set<NeedleId>)
    requires failed <= v.dirty.Keys && StoredFlushed(ck, v.dirty, stored, now, v.dirty.Keys, failed)
    ensures forall w: Vol :: w.dirty == map[] ==>
              && (forall id :: id !in v.dirty ==> At(View(w, now), id) == At(View(v, stored), id))
              && (forall id :: id in v.dirty ==>
                    At(View(w, now), id) == At(if id in failed || Collides(ck, stored, id, v.dirty[id].merged)
                                               then stored else View(v, stored), id))
  {
    hide Collides;
  }

  lemma SlidePlan(ck: Checksum, v: Vol, stored: map<NeedleId, Bytes>, order: seq<NeedleId>)
    requires Valid(ck, v, stored) && ByOffset(v.index, order)
    ensures InFile(v.file, v.index, order) && Distinct(order)
    ensures var s := Slide(v.file, v.index, order, DATA_OFFSET);
            var w := Cleanup(v, s.file, s.index, s.end);
            && Valid(ck, w, stored) && View(w, stored) == View(v, stored)
            && ByOffset(w.index, order) && PackedFrom(w.index, order, DATA_OFFSET)
            && SatSub(v.alloc.appendOffset, s.end) == v.alloc.garbage
            && (v.alloc.garbage == 0 ==> s.moved == 0 && s.index == v.index)
  {
    OrderLists(v.index, order);
    hide Valid, View, Slide, ByOffset, PackedFrom, Truncate, Distinct;
    CompactRefines(ck, v, stored, order);
    SlideTouches(v.file, v.index, order, DATA_OFFSET);
    PackedByOffset(Slide(v.file, v.index, order, DATA_OFFSET).index, order, DATA_OFFSET, v.index);
    if v.alloc.garbage == 0 {
      GarbageFreeIsIdle(ck, v, stored, order);
    }
  }

  lemma SlideNothing(file: Bytes, index: map<NeedleId, Info>, at: nat)
    ensures InFile(file, index, []) && Distinct([]) && Slide(file, index, [], at) == Slid(file, index, at, 0)
  {}

  lemma PackedByOffset(index: map<NeedleId, Info>, order: seq<NeedleId>, at: nat, before: map<NeedleId, Info>)
    requires AllIn(index, order) && PackedFrom(index, order, at) && index.Keys == before.Keys && ByOffset(before, order)
    ensures ByOffset(index, order)
  {
    PackedIsDisjoint(index, order, at);
  }

  lemma PatchZeros(offset: nat, data: Bytes)
    ensures Patch(Zeros(offset + |data|), offset, data) == Patch([], offset, data)
  {}

  lemma NeverBusy(ck: Checksum, v: Vol, disabled: bool, id: NeedleId, offset: nat, data: Bytes)
    ensures WriteBlob(ck, v, disabled, id, offset, data).1 != Busy
  {}

  lemma DisabledStays(ck: Checksum, v: Vol, id: NeedleId, cookie: nat, data: Bytes)
    ensures v.dirty == map[] ==> WriteNowait(ck, v, id, cookie, data).0.dirty == map[]
  {}
}
