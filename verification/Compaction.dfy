/** Compaction: slide the live needles down, in offset order, inside the one data file. */
module Compaction {
  import opened Bytes
  import opened NeedleCodec
  import opened MapSum
  import opened VolumeModel

  datatype Slid = Slid(file: Bytes, index: map<NeedleId, Info>, end: nat, moved: nat)

  ghost predicate Distinct(order: seq<NeedleId>) {
    forall i, j :: 0 <= i < j < |order| ==> order[i] != order[j]
  }

  ghost predicate AllIn(index: map<NeedleId, Info>, order: seq<NeedleId>) {
    forall i :: 0 <= i < |order| ==> order[i] in index
  }

  ghost predicate InFile(file: Bytes, index: map<NeedleId, Info>, order: seq<NeedleId>) {
    AllIn(index, order) && forall i :: 0 <= i < |order| ==> End(index[order[i]]) <= |file|
  }

  /** The needles in `order` still have to be moved: they lie at or past `at`, ordered by offset and
      not overlapping, and everything else that is live already ends at or before `at`. */
  ghost predicate Pending(index: map<NeedleId, Info>, order: seq<NeedleId>, at: nat) {
    && Distinct(order)
    && (forall i :: 0 <= i < |order| ==> order[i] in index && at <= index[order[i]].offset)
    && (forall i, j :: 0 <= i < j < |order| ==> End(index[order[i]]) <= index[order[j]].offset)
    && (forall id :: id in index && id !in order ==> End(index[id]) <= at)
  }

  /** `order` lists exactly the live needles, by increasing offset. */
  ghost predicate ByOffset(index: map<NeedleId, Info>, order: seq<NeedleId>) {
    && Distinct(order) && AllIn(index, order) && (forall id :: id in index ==> id in order)
    && forall i, j :: 0 <= i < j < |order| ==> index[order[i]].offset <= index[order[j]].offset
  }

  /** The needles of `order` lie back to back from `at`. */
  ghost predicate PackedFrom(index: map<NeedleId, Info>, order: seq<NeedleId>, at: nat)
    requires AllIn(index, order)
  {
    order == [] ||
    (index[order[0]].offset == at && PackedFrom(index, order[1..], at + Size(index[order[0]].dataSize)))
  }

  /** Copy one needle down to `at`, reading and writing the same file, unless it is there already. */
  function Move(file: Bytes, index: map<NeedleId, Info>, id: NeedleId, at: nat): (Bytes, map<NeedleId, Info>)
    requires id in index && End(index[id]) <= |file|
  {
    var info := index[id];
    if info.offset == at then (file, index)
    else (Patch(file, at, file[info.offset..info.offset + ReadLength(info)]), index[id := info.(offset := at)])
  }

  lemma MoveSpec(file: Bytes, index: map<NeedleId, Info>, id: NeedleId, at: nat)
    requires id in index && End(index[id]) <= |file|
    ensures Move(file, index, id, at).1 == index[id := index[id].(offset := at)]
    ensures |Move(file, index, id, at).0| >= |file|
    ensures index[id].offset == at ==> Move(file, index, id, at) == (file, index)
  {}

  /** Move the needles of `order` one by one. */
  ghost function Slide(file: Bytes, index: map<NeedleId, Info>, order: seq<NeedleId>, at: nat): Slid
    requires InFile(file, index, order)
    requires Distinct(order)
    decreases |order|
  {
    if order == [] then Slid(file, index, at, 0)
    else
      var id := order[0];
      MoveSpec(file, index, id, at);
      var (f, i) := Move(file, index, id, at);
      var s := Slide(f, i, order[1..], at + Size(index[id].dataSize));
      if index[id].offset == at then s else s.(moved := s.moved + 1)
  }

  lemma SlideUnfolds(file: Bytes, index: map<NeedleId, Info>, order: seq<NeedleId>, at: nat)
    requires order != [] && InFile(file, index, order) && Distinct(order)
    ensures order[0] in index && End(index[order[0]]) <= |file|
    ensures var (f, i) := Move(file, index, order[0], at);
            && InFile(f, i, order[1..]) && Distinct(order[1..])
            && var s := Slide(f, i, order[1..], at + Size(index[order[0]].dataSize));
            Slide(file, index, order, at) == if index[order[0]].offset == at then s else s.(moved := s.moved + 1)
  {
    hide Move;
    MoveSpec(file, index, order[0], at);
  }

  lemma ImageMoved(ck: Checksum, file: Bytes, at: nat, id: NeedleId, info: Info, data: Bytes)
    requires ImageAt(ck, file, id, info, data) && DATA_OFFSET <= at
    ensures ReadLength(info) == Size(info.dataSize)
    ensures ImageAt(ck, Patch(file, at, file[info.offset..End(info)]), id, info.(offset := at), data)
  {}

  /** One move: the copy lands below every needle still to be moved and above every needle already placed, so
      no image is damaged -- whatever the lengths of the others. */
  lemma MoveKeepsImage(ck: Checksum, file: Bytes, index: map<NeedleId, Info>, order: seq<NeedleId>, at: nat,
                       id: NeedleId, data: Bytes)
    requires order != [] && Pending(index, order, at) && DATA_OFFSET <= at && End(index[order[0]]) <= |file|
    requires id in index && ImageAt(ck, file, id, index[id], data)
    ensures var (f, i) := Move(file, index, order[0], at); id in i && ImageAt(ck, f, id, i[id], data)
  {
    hide ImageAt, Patch;
    var info := index[order[0]];
    var copy := file[info.offset..info.offset + ReadLength(info)];
    if id == order[0] {
      ImageMoved(ck, file, at, id, info, data);
    } else if info.offset != at {
      assert End(index[id]) <= at || at + |copy| <= index[id].offset by {
        if id in order {
          var j :| 0 <= j < |order| && order[j] == id;
        }
      }
      ImageKept(ck, file, at, copy, id, index[id], data);
    }
  }

  lemma PendingLists(index: map<NeedleId, Info>, order: seq<NeedleId>, at: nat)
    requires Pending(index, order, at)
    ensures AllIn(index, order) && Distinct(order)
  {}

  lemma InFileHead(file: Bytes, index: map<NeedleId, Info>, order: seq<NeedleId>)
    requires order != [] && InFile(file, index, order)
    ensures order[0] in index && End(index[order[0]]) <= |file|
  {}

  lemma PendingAdvances(index: map<NeedleId, Info>, order: seq<NeedleId>, at: nat)
    requires order != [] && Pending(index, order, at)
    ensures var info := index[order[0]];
            && Pending(index[order[0] := info.(offset := at)], order[1..], at + Size(info.dataSize))
            && AllIn(index, order) && Distinct(order[1..])
  {}

  lemma SlidesInFile(ck: Checksum, file: Bytes, index: map<NeedleId, Info>, stored: map<NeedleId, Bytes>,
                     order: seq<NeedleId>)
    requires Stored(ck, file, index, stored) && AllIn(index, order)
    ensures InFile(file, index, order)
  {
    hide ToBytes;
    forall i | 0 <= i < |order|
      ensures End(index[order[i]]) <= |file|
    {
      assert ImageAt(ck, file, order[i], index[order[i]], stored[order[i]]);
    }
  }

  /** Sliding keeps every image there is, whatever the lengths of the needles around it. */
  lemma {:induction false} SlideKeepsImage(ck: Checksum, file: Bytes, index: map<NeedleId, Info>, order: seq<NeedleId>,
                                           at: nat, id: NeedleId, data: Bytes)
    requires Pending(index, order, at) && InFile(file, index, order) && DATA_OFFSET <= at
    requires id in index && ImageAt(ck, file, id, index[id], data)
    ensures Distinct(order)
    ensures var s := Slide(file, index, order, at); id in s.index && ImageAt(ck, s.file, id, s.index[id], data)
    decreases |order|
  {
    hide Move, Pending, Distinct, InFile, AllIn, ImageAt;
    PendingLists(index, order, at);
    if order != [] {
      InFileHead(file, index, order);
      MoveKeepsImage(ck, file, index, order, at, id, data);
      PendingAdvances(index, order, at);
      MoveSpec(file, index, order[0], at);
      SlideUnfolds(file, index, order, at);
      var (f, i) := Move(file, index, order[0], at);
      SlideKeepsImage(ck, f, i, order[1..], at + Size(index[order[0]].dataSize), id, data);
    }
  }

  lemma {:induction false} SlidePends(file: Bytes, index: map<NeedleId, Info>, order: seq<NeedleId>, at: nat)
    requires Pending(index, order, at) && InFile(file, index, order)
    ensures Distinct(order)
    ensures var s := Slide(file, index, order, at); Pending(s.index, [], s.end)
    decreases |order|
  {
    hide Move, Pending, Distinct, InFile, AllIn;
    PendingLists(index, order, at);
    if order != [] {
      InFileHead(file, index, order);
      PendingAdvances(index, order, at);
      MoveSpec(file, index, order[0], at);
      SlideUnfolds(file, index, order, at);
      var (f, i) := Move(file, index, order[0], at);
      SlidePends(f, i, order[1..], at + Size(index[order[0]].dataSize));
    }
  }

  /** Sliding keeps every stored payload. */
  lemma SlideKeepsStored(ck: Checksum, file: Bytes, index: map<NeedleId, Info>, stored: map<NeedleId, Bytes>,
                         order: seq<NeedleId>, at: nat)
    requires Stored(ck, file, index, stored) && Pending(index, order, at) && DATA_OFFSET <= at
    ensures InFile(file, index, order) && Distinct(order)
    ensures var s := Slide(file, index, order, at); Stored(ck, s.file, s.index, stored) && Pending(s.index, [], s.end)
  {
    PendingLists(index, order, at);
    SlidesInFile(ck, file, index, stored, order);
    SlidePends(file, index, order, at);
    SlideTouches(file, index, order, at);
    hide Slide, Pending, InFile, Distinct, ImageAt;
    var s := Slide(file, index, order, at);
    forall id | id in index
      ensures id in s.index && ImageAt(ck, s.file, id, s.index[id], stored[id])
    {
      SlideKeepsImage(ck, file, index, order, at, id, stored[id]);
    }
  }

  /** Sliding changes nothing of an index entry but the offset, and only of the needles it moves. */
  lemma {:induction false} SlideTouches(file: Bytes, index: map<NeedleId, Info>, order: seq<NeedleId>, at: nat)
    requires InFile(file, index, order)
    requires Distinct(order)
    ensures var s := Slide(file, index, order, at);
            && s.index.Keys == index.Keys
            && (forall id :: id in index ==> s.index[id] == index[id].(offset := s.index[id].offset))
            && (forall id :: id in index && id !in order ==> s.index[id] == index[id])
    decreases |order|
  {
    hide Move;
    if order != [] {
      MoveSpec(file, index, order[0], at);
      var (f, i) := Move(file, index, order[0], at);
      SlideTouches(f, i, order[1..], at + Size(index[order[0]].dataSize));
    }
  }

  lemma SlideLeaves(file: Bytes, index: map<NeedleId, Info>, order: seq<NeedleId>, at: nat, id: NeedleId)
    requires InFile(file, index, order) && Distinct(order) && id in index && id !in order
    ensures var s := Slide(file, index, order, at); id in s.index && s.index[id] == index[id]
  {
    hide Slide;
    SlideTouches(file, index, order, at);
  }

  lemma PackedHead(index: map<NeedleId, Info>, order: seq<NeedleId>, at: nat)
    requires order != [] && order[0] in index && index[order[0]].offset == at
    requires AllIn(index, order[1..]) && PackedFrom(index, order[1..], at + Size(index[order[0]].dataSize))
    ensures AllIn(index, order) && PackedFrom(index, order, at)
  {
    assert order == [order[0]] + order[1..];
  }

  lemma {:induction false} SlidePacks(file: Bytes, index: map<NeedleId, Info>, order: seq<NeedleId>, at: nat)
    requires InFile(file, index, order)
    requires Distinct(order)
    ensures var s := Slide(file, index, order, at);
            AllIn(s.index, order) && PackedFrom(s.index, order, at)
    decreases |order|
  {
    hide Move, AllIn;
    if order != [] {
      var id, rest := order[0], order[1..];
      assert id !in rest;
      SlideUnfolds(file, index, order, at);
      MoveSpec(file, index, id, at);
      var (f, i) := Move(file, index, id, at);
      var next := at + Size(index[id].dataSize);
      hide Slide, Distinct, InFile, PackedFrom;
      SlideLeaves(f, i, rest, next, id);
      SlidePacks(f, i, rest, next);
      PackedHead(Slide(f, i, rest, next).index, order, at);
    } else {
      NothingPacked(Slide(file, index, order, at).index, at);
    }
  }

  lemma NothingPacked(index: map<NeedleId, Info>, at: nat)
    ensures AllIn(index, []) && PackedFrom(index, [], at)
  {}

  /** Compaction copies nothing exactly when the needles are packed already. */
  lemma {:induction false} SlideIdle(file: Bytes, index: map<NeedleId, Info>, order: seq<NeedleId>, at: nat)
    requires InFile(file, index, order)
    requires Distinct(order)
    ensures Slide(file, index, order, at).moved == 0 <==> PackedFrom(index, order, at)
    ensures PackedFrom(index, order, at) ==>
              Slide(file, index, order, at).file == file && Slide(file, index, order, at).index == index
    decreases |order|
  {
    hide Move;
    if order != [] {
      MoveSpec(file, index, order[0], at);
      if index[order[0]].offset == at {
        SlideIdle(file, index, order[1..], at + Size(index[order[0]].dataSize));
      }
    }
  }

  lemma {:induction false} SlideEnds(file: Bytes, index: map<NeedleId, Info>, order: seq<NeedleId>, at: nat)
    requires InFile(file, index, order)
    requires Distinct(order)
    ensures Slide(file, index, order, at).end == at + Length(order, index)
    decreases |order|
  {
    hide Move;
    if order != [] {
      MoveSpec(file, index, order[0], at);
      var (f, i) := Move(file, index, order[0], at);
      SlideEnds(f, i, order[1..], at + Size(index[order[0]].dataSize));
      LengthFrame(order[1..], i, index);
    }
  }

  ghost function Length(order: seq<NeedleId>, index: map<NeedleId, Info>): nat
    requires AllIn(index, order)
  {
    if order == [] then 0 else Size(index[order[0]].dataSize) + Length(order[1..], index)
  }

  lemma {:induction false} LengthFrame(order: seq<NeedleId>, a: map<NeedleId, Info>, b: map<NeedleId, Info>)
    requires AllIn(a, order) && AllIn(b, order)
    requires forall i :: 0 <= i < |order| ==> a[order[i]].dataSize == b[order[i]].dataSize
    ensures Length(order, a) == Length(order, b)
  {
    if order != [] {
      LengthFrame(order[1..], a, b);
    }
  }

  /** Listing all needles, their lengths add up to the used bytes. */
  lemma {:induction false} LengthIsUsed(order: seq<NeedleId>, index: map<NeedleId, Info>)
    requires Distinct(order) && AllIn(index, order) && forall id :: id in index ==> id in order
    ensures Length(order, index) == Sum(Sizes(index))
    decreases |order|
  {
    hide Sum, Sizes;
    if order == [] {
      assert forall id :: id in index.Keys ==> id in order;
      SumEmpty(index);
    } else {
      var id, rest := order[0], order[1..];
      SizesHas(index, id);
      SumRemove(Sizes(index), id);
      SizesDrop(index, id);
      assert order == [id] + rest;
      LengthIsUsed(rest, index - {id});
      LengthFrame(rest, index - {id}, index);
    }
  }

  lemma SumEmpty(index: map<NeedleId, Info>)
    requires index.Keys == {}
    ensures Sum(Sizes(index)) == 0
  {}

  /** Sorted by offset and disjoint, the live needles are a valid worklist from the data offset. */
  lemma OrderIsPending(index: map<NeedleId, Info>, order: seq<NeedleId>)
    requires Disjoint(index) && ByOffset(index, order) && forall id :: id in index ==> DATA_OFFSET <= index[id].offset
    ensures Pending(index, order, DATA_OFFSET)
  {
    forall i, j | 0 <= i < j < |order|
      ensures End(index[order[i]]) <= index[order[j]].offset
    {
      assert order[i] in index && order[j] in index && order[i] != order[j];
    }
  }

  lemma AfterDataOffset(ck: Checksum, file: Bytes, index: map<NeedleId, Info>, stored: map<NeedleId, Bytes>)
    requires Stored(ck, file, index, stored)
    ensures forall id :: id in index ==> DATA_OFFSET <= index[id].offset
  {}

  /** Contiguous layout is disjoint. */
  lemma {:induction false} PackedIsDisjoint(index: map<NeedleId, Info>, order: seq<NeedleId>, at: nat)
    requires AllIn(index, order)
    requires PackedFrom(index, order, at)
    ensures forall i :: 0 <= i < |order| ==> at <= index[order[i]].offset
    ensures forall i, j :: 0 <= i < j < |order| ==> End(index[order[i]]) <= index[order[j]].offset
    decreases |order|
  {
    if order != [] {
      var rest := order[1..];
      PackedIsDisjoint(index, rest, at + Size(index[order[0]].dataSize));
      forall i, j | 0 <= i < j < |order|
        ensures End(index[order[i]]) <= index[order[j]].offset
      {
        assert order[j] == rest[j - 1];
        if i > 0 {
          assert order[i] == rest[i - 1];
        }
      }
    }
  }

  // ---------- the whole compaction ----------

  function Truncate(file: Bytes, size: nat): (r: Bytes)
    ensures |r| == size
    ensures forall i :: 0 <= i < Min(size, |file|) ==> r[i] == file[i]
  {
    if size <= |file| then file[..size] else file + Zeros(size - |file|)
  }

  /** Install the slid needles, forget the deleted ones, reset the garbage and cut the file. */
  function Cleanup(v: Vol, file: Bytes, index: map<NeedleId, Info>, end: nat): Vol {
    v.(file := Truncate(file, end), index := index, deleted := map[],
       alloc := v.alloc.(appendOffset := end, free := SatSub(v.size, v.alloc.used), deletedCount := 0, garbage := 0))
  }

  lemma ImageTruncated(ck: Checksum, file: Bytes, size: nat, id: NeedleId, info: Info, data: Bytes)
    requires ImageAt(ck, file, id, info, data) && End(info) <= size
    ensures ImageAt(ck, Truncate(file, size), id, info, data)
  {}

  lemma StoredTruncated(ck: Checksum, file: Bytes, size: nat, index: map<NeedleId, Info>, stored: map<NeedleId, Bytes>)
    requires Stored(ck, file, index, stored) && Pending(index, [], size)
    ensures Stored(ck, Truncate(file, size), index, stored)
  {
    hide ImageAt, Truncate;
    forall id | id in index
      ensures ImageAt(ck, Truncate(file, size), id, index[id], stored[id])
    {
      ImageTruncated(ck, file, size, id, index[id], stored[id]);
    }
  }

  lemma SlidDisjoint(index: map<NeedleId, Info>, order: seq<NeedleId>, at: nat)
    requires AllIn(index, order) && PackedFrom(index, order, at)
    requires forall id :: id in index ==> id in order
    ensures Disjoint(index)
  {
    PackedIsDisjoint(index, order, at);
    forall a, b | a in index && b in index && a != b
      ensures End(index[a]) <= index[b].offset || End(index[b]) <= index[a].offset
    {
      assert a in order && b in order;
      var i :| 0 <= i < |order| && order[i] == a;
      var j :| 0 <= j < |order| && order[j] == b;
    }
  }

  lemma SizesKept(index: map<NeedleId, Info>, moved: map<NeedleId, Info>)
    requires moved.Keys == index.Keys && forall id :: id in index ==> moved[id].dataSize == index[id].dataSize
    ensures Sizes(moved) == Sizes(index) && |moved| == |index|
  {
    var before, after := Sizes(index), Sizes(moved);
    assert forall id :: id in before ==> id in after && after[id] == before[id];
    assert forall id :: id in after ==> id in before;
    assert after == before;
    var keys := moved.Keys;
    assert |moved| == |keys|;
    assert |index| == |keys|;
  }

  /** Compaction keeps every view, packs the live needles from the data offset, and gives back exactly
      the bytes that were accounted as garbage. */
  lemma CompactRefines(ck: Checksum, v: Vol, stored: map<NeedleId, Bytes>, order: seq<NeedleId>)
    requires Valid(ck, v, stored) && ByOffset(v.index, order)
    ensures InFile(v.file, v.index, order)
    ensures var s := Slide(v.file, v.index, order, DATA_OFFSET);
            var w := Cleanup(v, s.file, s.index, s.end);
            && Valid(ck, w, stored) && View(w, stored) == View(v, stored)
            && AllIn(w.index, order) && PackedFrom(w.index, order, DATA_OFFSET)
            && s.end == DATA_OFFSET + v.alloc.used
            && v.alloc.appendOffset - s.end == v.alloc.garbage
            && w.state == v.state && w.maxId == v.maxId && w.deleted == map[] && w.alloc.deletedCount == 0
  {
    CompactStores(ck, v, stored, order);
    CompactAccounts(v, order);
    hide Stored, Disjoint, Sum, Slide, Merged, ByOffset, PackedFrom, Truncate, Distinct, InFile;
  }

  lemma CompactStores(ck: Checksum, v: Vol, stored: map<NeedleId, Bytes>, order: seq<NeedleId>)
    requires Stored(ck, v.file, v.index, stored) && Disjoint(v.index) && Bounded(v) && ByOffset(v.index, order)
    ensures InFile(v.file, v.index, order) && Distinct(order)
    ensures var s := Slide(v.file, v.index, order, DATA_OFFSET);
            var w := Cleanup(v, s.file, s.index, s.end);
            && Stored(ck, w.file, w.index, stored) && Disjoint(w.index) && Bounded(w)
            && AllIn(w.index, order) && PackedFrom(w.index, order, DATA_OFFSET)
  {
    AfterDataOffset(ck, v.file, v.index, stored);
    OrderIsPending(v.index, order);
    OrderLists(v.index, order);
    hide Slide, Stored, Truncate, PackedFrom, Pending, ByOffset, Bounded, Disjoint, Distinct;
    SlideKeepsStored(ck, v.file, v.index, stored, order, DATA_OFFSET);
    SlideTouches(v.file, v.index, order, DATA_OFFSET);
    SlidePacks(v.file, v.index, order, DATA_OFFSET);
    var s := Slide(v.file, v.index, order, DATA_OFFSET);
    StoredTruncated(ck, s.file, s.end, s.index, stored);
    SlidDisjoint(s.index, order, DATA_OFFSET);
    CleanupBounded(v, s.file, s.index, s.end);
  }

  lemma OrderLists(index: map<NeedleId, Info>, order: seq<NeedleId>)
    requires ByOffset(index, order)
    ensures Distinct(order) && AllIn(index, order) && forall id :: id in index ==> id in order
  {}

  lemma CleanupBounded(v: Vol, file: Bytes, index: map<NeedleId, Info>, end: nat)
    requires Bounded(v) && index.Keys == v.index.Keys && Pending(index, [], end)
    ensures Bounded(Cleanup(v, file, index, end))
  {}

  lemma CompactAccounts(v: Vol, order: seq<NeedleId>)
    requires Accounted(v) && ByOffset(v.index, order) && InFile(v.file, v.index, order)
    ensures var s := Slide(v.file, v.index, order, DATA_OFFSET);
            Accounted(Cleanup(v, s.file, s.index, s.end)) && s.end == DATA_OFFSET + v.alloc.used
  {
    SlideTouches(v.file, v.index, order, DATA_OFFSET);
    SlideEnds(v.file, v.index, order, DATA_OFFSET);
    hide Slide, Sum, Truncate, PackedFrom;
    LengthIsUsed(order, v.index);
    SizesKept(v.index, Slide(v.file, v.index, order, DATA_OFFSET).index);
  }

  /** Needles in offset order between `from` and `end` are together no longer than the gap. */
  lemma {:induction false} FitsBetween(index: map<NeedleId, Info>, order: seq<NeedleId>, from: nat, end: nat)
    requires from <= end && AllIn(index, order)
    requires forall i :: 0 <= i < |order| ==> from <= index[order[i]].offset && End(index[order[i]]) <= end
    requires forall i, j :: 0 <= i < j < |order| ==> End(index[order[i]]) <= index[order[j]].offset
    ensures from + Length(order, index) <= end
    decreases |order|
  {
    if order != [] {
      FitsBetween(index, order[1..], End(index[order[0]]), end);
    }
  }

  lemma PendingTail(index: map<NeedleId, Info>, order: seq<NeedleId>, at: nat)
    requires order != [] && Pending(index, order, at) && index[order[0]].offset == at
    ensures Pending(index, order[1..], at + Size(index[order[0]].dataSize))
  {}

  lemma TightHead(index: map<NeedleId, Info>, order: seq<NeedleId>, at: nat, end: nat)
    requires order != [] && Pending(index, order, at) && end == at + Length(order, index)
    requires forall i :: 0 <= i < |order| ==> End(index[order[i]]) <= end
    ensures order[0] in index && index[order[0]].offset == at
  {
    FitsBetween(index, order[1..], End(index[order[0]]), end);
  }

  /** Without a spare byte between `at` and `end`, the needles are packed. */
  lemma {:induction false} TightIsPacked(index: map<NeedleId, Info>, order: seq<NeedleId>, at: nat, end: nat)
    requires Pending(index, order, at) && end == at + Length(order, index)
    requires forall i :: 0 <= i < |order| ==> End(index[order[i]]) <= end
    ensures PackedFrom(index, order, at)
    decreases |order|
  {
    hide Pending;
    if order != [] {
      TightHead(index, order, at, end);
      PendingTail(index, order, at);
      TightIsPacked(index, order[1..], at + Size(index[order[0]].dataSize), end);
    }
  }

  /** A volume without garbage is packed. */
  lemma GarbageFreeIsPacked(ck: Checksum, v: Vol, stored: map<NeedleId, Bytes>, order: seq<NeedleId>)
    requires Valid(ck, v, stored) && ByOffset(v.index, order) && v.alloc.garbage == 0
    ensures AllIn(v.index, order) && PackedFrom(v.index, order, DATA_OFFSET)
  {
    AfterDataOffset(ck, v.file, v.index, stored);
    OrderIsPending(v.index, order);
    OrderLists(v.index, order);
    hide Stored, Sum, Pending, ByOffset, Disjoint, Distinct, Length, PackedFrom;
    LengthIsUsed(order, v.index);
    BoundedInOrder(v, order);
    TightIsPacked(v.index, order, DATA_OFFSET, v.alloc.appendOffset);
  }

  lemma BoundedInOrder(v: Vol, order: seq<NeedleId>)
    requires Bounded(v) && AllIn(v.index, order)
    ensures forall i :: 0 <= i < |order| ==> End(v.index[order[i]]) <= v.alloc.appendOffset
  {
    forall i | 0 <= i < |order|
      ensures End(v.index[order[i]]) <= v.alloc.appendOffset
    {
      var id := order[i];
      assert id in v.index;
    }
  }

  /** So compacting a volume without garbage copies nothing; and since compaction leaves no garbage,
      a second one right after the first moves nothing. */
  lemma GarbageFreeIsIdle(ck: Checksum, v: Vol, stored: map<NeedleId, Bytes>, order: seq<NeedleId>)
    requires Valid(ck, v, stored) && ByOffset(v.index, order) && v.alloc.garbage == 0
    ensures InFile(v.file, v.index, order)
    ensures var s := Slide(v.file, v.index, order, DATA_OFFSET);
            s.moved == 0 && s.file == v.file && s.index == v.index && s.end == v.alloc.appendOffset
  {
    OrderLists(v.index, order);
    hide Stored, Disjoint, Bounded, Sum, ByOffset, Distinct, Slide, PackedFrom;
    GarbageFreeIsPacked(ck, v, stored, order);
    CompactRefines(ck, v, stored, order);
    SlideIdle(v.file, v.index, order, DATA_OFFSET);
  }

  /** Right after compaction, an Available volume accepts a write exactly when it is short enough for
      the logical free space -- but a volume that was marked Full stays Full. */
  lemma CompactionRestoresSpace(ck: Checksum, v: Vol, stored: map<NeedleId, Bytes>, order: seq<NeedleId>, id: NeedleId,
                                data: Bytes)
    requires Valid(ck, v, stored) && ByOffset(v.index, order) && IsKey(id)
    ensures InFile(v.file, v.index, order)
    ensures var s := Slide(v.file, v.index, order, DATA_OFFSET);
            var out := WriteNowait(ck, Cleanup(v, s.file, s.index, s.end), id, 0, data).1;
            && (v.state == Available && !Identical(ck, v, id, data) ==> (out == Ok <==> Size(|data|) <= v.alloc.free))
            && (v.state == Full ==> out == InvalidState)
  {
    CompactRefines(ck, v, stored, order);
    SkippedIsStored(ck, v, stored, id, data);
    var s := Slide(v.file, v.index, order, DATA_OFFSET);
    SkippedIsStored(ck, Cleanup(v, s.file, s.index, s.end), stored, id, data);
    hide Stored, Disjoint, Bounded, Slide, Sum, Identical, Publish, Truncate, ByOffset, PackedFrom;
  }

  /** The needles of the order that lie elsewhere afterwards. */
  ghost function Relocated(before: map<NeedleId, Info>, after: map<NeedleId, Info>, order: seq<NeedleId>)
    : set<NeedleId>
    requires AllIn(before, order) && AllIn(after, order)
  {
    set id | id in order && after[id].offset != before[id].offset
  }

  /** The count reported is that of the needles that changed place. */
  lemma {:induction false} SlideCounts(file: Bytes, index: map<NeedleId, Info>, order: seq<NeedleId>, at: nat)
    requires InFile(file, index, order) && Distinct(order)
    ensures var s := Slide(file, index, order, at);
            AllIn(index, order) && AllIn(s.index, order) && s.moved == |Relocated(index, s.index, order)|
    decreases |order|
  {
    hide Slide, Move, InFile, Distinct, Relocated;
    SlideStays(file, index, order, at);
    if order == [] {
      NoneElsewhere(file, index, at);
    } else {
      var id, rest := order[0], order[1..];
      SlideUnfolds(file, index, order, at);
      MoveSpec(file, index, id, at);
      var (f, i) := Move(file, index, id, at);
      SlideCounts(f, i, rest, at + Size(index[id].dataSize));
      FirstIsOut(order);
      SlideLeaves(f, i, rest, at + Size(index[id].dataSize), id);
      FirstIsElsewhere(index, i, Slide(file, index, order, at).index, order, at);
    }
  }

  lemma SlideStays(file: Bytes, index: map<NeedleId, Info>, order: seq<NeedleId>, at: nat)
    requires InFile(file, index, order) && Distinct(order)
    ensures AllIn(index, order) && AllIn(Slide(file, index, order, at).index, order)
  {
    SlideTouches(file, index, order, at);
    hide Slide;
  }

  lemma NoneElsewhere(file: Bytes, index: map<NeedleId, Info>, at: nat)
    ensures InFile(file, index, []) && Distinct([])
    ensures Relocated(index, index, []) == {} && Slide(file, index, [], at) == Slid(file, index, at, 0)
  {}

  lemma FirstIsOut(order: seq<NeedleId>)
    requires order != [] && Distinct(order)
    ensures order[0] !in order[1..]
  {}

  lemma FirstIsElsewhere(before: map<NeedleId, Info>, mid: map<NeedleId, Info>, after: map<NeedleId, Info>,
                         order: seq<NeedleId>, at: nat)
    requires order != [] && Distinct(order) && AllIn(before, order) && AllIn(after, order)
    requires mid == before[order[0] := before[order[0]].(offset := at)] && after[order[0]] == mid[order[0]]
    ensures AllIn(mid, order[1..]) && AllIn(after, order[1..])
    ensures |Relocated(before, after, order)| == |Relocated(mid, after, order[1..])| +
            if before[order[0]].offset == at then 0 else 1
  {
    var rest := order[1..];
    assert forall id :: id in order <==> id == order[0] || id in rest;
    assert order[0] !in rest;
    assert Relocated(before, after, order) ==
           Relocated(mid, after, rest) + if before[order[0]].offset == at then {} else {order[0]};
  }
}
