/** A volume as a value: the data file, the needle index, the deleted records, the
    write-back dirty buffer and the allocation counters, with every operation as a
    function from volume to volume. */
module VolumeModel {
  import opened Bytes
  import opened NeedleCodec
  import opened MapSum
  import Sets

  const DATA_OFFSET: nat := 1024 * 1024

  datatype Info = Info(offset: nat, dataSize: nat, checksum: U64, cookie: nat)

  datatype Alloc = Alloc(used: nat, free: nat, appendOffset: nat, active: nat, deletedCount: nat, garbage: nat)

  datatype Dirty = Dirty(merged: Bytes, isNew: bool)

  datatype VolumeState = Available | Full | ReadOnly | Deleting

  datatype Vol = Vol(size: nat, file: Bytes, index: map<NeedleId, Info>, deleted: map<NeedleId, Info>,
                     dirty: map<NeedleId, Dirty>, alloc: Alloc, state: VolumeState, maxId: int)

  datatype Outcome = Ok | InvalidState | OutOfSpace | StorageError | NotFound | Busy

  datatype Read = Data(bytes: Bytes) | Missing | Corrupt(error: NeedleError) | IoError

  /** A key a caller may write to: 64 bits, and not 0, which leaves the choice of a key to the volume. */
  predicate IsKey(id: NeedleId) {
    0 < id < U64_LIMIT
  }

  // ---------- reading ----------

  function End(info: Info): nat {
    info.offset + Size(info.dataSize)
  }

  /** The length readers ask for is computed in 32 bits. */
  function ReadLength(info: Info): nat {
    Size(info.dataSize) % U32_LIMIT
  }

  /** The backend refuses to read past the volume and reports a short read past the file. */
  function ReadImage(v: Vol, info: Info): (r: Read)
    ensures r.Data? ==> |r.bytes| == ReadLength(info)
  {
    var end := info.offset + ReadLength(info);
    if end > v.size + DATA_OFFSET || end > |v.file| then IoError else Data(v.file[info.offset..end])
  }

  /** Parse the stored image; a size mismatch falls back to the length the index records. */
  function ReadStored(ck: Checksum, v: Vol, info: Info): Read {
    match ReadImage(v, info)
    case Data(raw) =>
      (match FromBytes(ck, raw)
       case Parsed(n) => Data(n.data)
       case Rejected(SizeMismatch) => Data(raw[HEADER_SIZE..Min(HEADER_SIZE + info.dataSize, |raw|)])
       case Rejected(e) => Corrupt(e))
    case failed => failed
  }

  function ReadNeedle(ck: Checksum, v: Vol, id: NeedleId): Read {
    if id in v.dirty then Data(v.dirty[id].merged)
    else if id in v.index then ReadStored(ck, v, v.index[id])
    else Missing
  }

  function ReadBlob(ck: Checksum, v: Vol, id: NeedleId, offset: nat, size: nat): Read {
    if id in v.dirty then Data(Clip(v.dirty[id].merged, offset, size))
    else if id in v.index then
      match ReadStored(ck, v, v.index[id])
      case Data(bytes) => Data(Clip(bytes, offset, size))
      case failed => failed
    else Missing
  }

  // ---------- writing ----------

  /** Same length and same checksum as the live version: the append is skipped. */
  predicate Identical(ck: Checksum, v: Vol, id: NeedleId, data: Bytes) {
    id in v.index && v.index[id].dataSize == |data| && v.index[id].checksum == ck(data)
  }

  /** Append the image at the append offset, publish it in the index and account for it. */
  function Publish(ck: Checksum, v: Vol, id: NeedleId, data: Bytes, cookie: nat): Vol {
    var a := v.alloc;
    var size := Size(|data|);
    var isUpdate := id in v.index;
    var oldSize := if isUpdate then Size(v.index[id].dataSize) else 0;
    var used := if size > oldSize then a.used + (size - oldSize) else SatSub(a.used, oldSize - size);
    v.(file := Patch(v.file, a.appendOffset, ToBytes(NewNeedle(ck, id, data))),
       index := v.index[id := Info(a.appendOffset, |data| % U32_LIMIT, ck(data), cookie)],
       alloc := Alloc(used, SatSub(v.size, used), a.appendOffset + size,
                      if isUpdate then a.active else a.active + 1, a.deletedCount, a.garbage + oldSize),
       maxId := if v.maxId < id then id else v.maxId)
  }

  /** A full write: drop any dirty buffer, then append a version. */
  function WriteNowait(ck: Checksum, v: Vol, id: NeedleId, cookie: nat, data: Bytes): (Vol, Outcome) {
    if v.state != Available then (v, InvalidState)
    else
      var w := v.(dirty := v.dirty - {id});
      if Identical(ck, w, id, data) then (w, Ok)
      else if w.alloc.free < Size(|data|) then (w.(state := Full), OutOfSpace)
      else if w.alloc.appendOffset + Size(|data|) > w.size + DATA_OFFSET then (w.(state := Full), OutOfSpace)
      else (Publish(ck, w, id, data, cookie), Ok)
  }

  /** A new version of an indexed needle; running out of file is the backend's refusal. */
  function AppendVersion(ck: Checksum, v: Vol, id: NeedleId, data: Bytes): (Vol, Outcome)
    requires id in v.index
  {
    if v.state != Available then (v, InvalidState)
    else if Identical(ck, v, id, data) then (v, Ok)
    else if v.alloc.free < Size(|data|) then (v.(state := Full), OutOfSpace)
    else if v.alloc.appendOffset + Size(|data|) > v.size + DATA_OFFSET then (v, StorageError)
    else (Publish(ck, v, id, data, v.index[id].cookie), Ok)
  }

  /** Write one entry that has already left the dirty buffer. */
  function FlushEntry(ck: Checksum, v: Vol, id: NeedleId, entry: Dirty): (Vol, Outcome) {
    if entry.isNew || id !in v.index then WriteNowait(ck, v, id, 0, entry.merged)
    else AppendVersion(ck, v, id, entry.merged)
  }

  function FlushOne(ck: Checksum, v: Vol, id: NeedleId): (Vol, Outcome) {
    if id !in v.dirty then (v, Ok)
    else FlushEntry(ck, v.(dirty := v.dirty - {id}), id, v.dirty[id])
  }

  /** Merge a region into the dirty buffer, starting it from the stored version if there is none.
      With coalescing disabled the merged payload is written out at once. */
  function WriteBlob(ck: Checksum, v: Vol, disabled: bool, id: NeedleId, offset: nat, data: Bytes): (Vol, Outcome) {
    if id in v.dirty then
      if disabled then FlushEntry(ck, v, id, Dirty(Patch([], offset, data), true))
      else (v.(dirty := v.dirty[id := v.dirty[id].(merged := Patch(v.dirty[id].merged, offset, data))]), Ok)
    else if id in v.index then
      match ReadImage(v, v.index[id])
      case Data(raw) =>
        (match FromBytes(ck, raw)
         case Parsed(n) => Merge(ck, v, disabled, id, Dirty(Patch(n.data, offset, data), false))
         case Rejected(_) => (v, StorageError))
      case _ => (v, StorageError)
    else Merge(ck, v, disabled, id, Dirty(Patch([], offset, data), true))
  }

  function Merge(ck: Checksum, v: Vol, disabled: bool, id: NeedleId, entry: Dirty): (Vol, Outcome) {
    if disabled then FlushEntry(ck, v, id, entry) else (v.(dirty := v.dirty[id := entry]), Ok)
  }

  function Delete(v: Vol, id: NeedleId): (Vol, Outcome) {
    var w := v.(dirty := v.dirty - {id});
    if id !in w.index then (w, NotFound)
    else
      var a := w.alloc;
      var size := Size(w.index[id].dataSize);
      var used := SatSub(a.used, size);
      var free := SatSub(w.size, used);
      (w.(index := w.index - {id}, deleted := w.deleted[id := w.index[id]],
          alloc := Alloc(used, free, a.appendOffset, SatSub(a.active, 1), a.deletedCount + 1, a.garbage + size),
          state := if w.state == Full && free > 0 then Available else w.state), Ok)
  }

  // ---------- invariant and meaning ----------

  /** At `info.offset` the file holds the image of needle `id` with payload `data`. */
  ghost predicate ImageAt(ck: Checksum, file: Bytes, id: NeedleId, info: Info, data: Bytes) {
    && IsKey(id) && |data| == info.dataSize && Readable(info.dataSize) && info.checksum == ck(data)
    && DATA_OFFSET <= info.offset && End(info) <= |file|
    && file[info.offset..End(info)] == ToBytes(NewNeedle(ck, id, data))
  }

  /** `stored` lists, for every indexed needle, the payload its image holds. */
  ghost predicate Stored(ck: Checksum, file: Bytes, index: map<NeedleId, Info>, stored: map<NeedleId, Bytes>) {
    && stored.Keys == index.Keys
    && forall id :: id in index ==> ImageAt(ck, file, id, index[id], stored[id])
  }

  ghost predicate Disjoint(index: map<NeedleId, Info>) {
    forall i, j :: i in index && j in index && i != j ==>
      End(index[i]) <= index[j].offset || End(index[j]) <= index[i].offset
  }

  /** Nothing live lies at or past the append offset, and the high-water mark covers every id. */
  ghost predicate Bounded(v: Vol) {
    && (forall id :: id in v.index ==> End(v.index[id]) <= v.alloc.appendOffset)
    && (forall id :: id in v.index ==> id <= v.maxId)
    && (forall id :: id in v.deleted ==> id <= v.maxId)
    && (forall id :: id in v.dirty ==> IsKey(id) && Readable(|v.dirty[id].merged|))
  }

  ghost function Sizes(index: map<NeedleId, Info>): map<NeedleId, nat> {
    map id | id in index :: Size(index[id].dataSize)
  }

  /** Conservation: the used span of the file is live bytes plus garbage, byte for byte. */
  ghost predicate Accounted(v: Vol) {
    && v.alloc.used == Sum(Sizes(v.index))
    && v.alloc.active == |v.index|
    && v.alloc.appendOffset == DATA_OFFSET + v.alloc.used + v.alloc.garbage
    && v.alloc.appendOffset <= v.size + DATA_OFFSET
    && v.alloc.free == v.size - v.alloc.used
  }

  ghost predicate Valid(ck: Checksum, v: Vol, stored: map<NeedleId, Bytes>) {
    && Stored(ck, v.file, v.index, stored) && Disjoint(v.index) && Bounded(v) && Accounted(v)
  }

  /** Valid with `now` stored -- or, once an oversized payload has been taken in, with nothing at all. */
  ghost predicate ValidUnless(ck: Checksum, v: Vol, now: map<NeedleId, Bytes>, oversized: bool) {
    if oversized then forall m: map<NeedleId, Bytes> :: !Valid(ck, v, m) else Valid(ck, v, now)
  }

  ghost function Merged(dirty: map<NeedleId, Dirty>): map<NeedleId, Bytes> {
    map id | id in dirty :: dirty[id].merged
  }

  /** What the volume means: the dirty buffer first, then the stored payloads. */
  ghost function View(v: Vol, stored: map<NeedleId, Bytes>): map<NeedleId, Bytes> {
    stored + Merged(v.dirty)
  }

  /** The one case in which skipping an "identical" append is wrong. */
  ghost predicate Collides(ck: Checksum, stored: map<NeedleId, Bytes>, id: NeedleId, data: Bytes) {
    id in stored && |stored[id]| == |data| && ck(stored[id]) == ck(data) && stored[id] != data
  }

  /** The stored payloads are not a free choice: the bytes of the file determine them. */
  lemma StoredIsUnique(ck: Checksum, v: Vol, s: map<NeedleId, Bytes>, t: map<NeedleId, Bytes>)
    requires Stored(ck, v.file, v.index, s) && Stored(ck, v.file, v.index, t)
    ensures s == t
  {
    forall id | id in v.index
      ensures s[id] == t[id]
    {
      ImageParses(ck, v.file, id, v.index[id], s[id]);
      ImageParses(ck, v.file, id, v.index[id], t[id]);
    }
  }

  lemma ImageParses(ck: Checksum, file: Bytes, id: NeedleId, info: Info, data: Bytes)
    requires ImageAt(ck, file, id, info, data)
    ensures FromBytes(ck, file[info.offset..End(info)]) == Parsed(NewNeedle(ck, id, data))
  {
    hide ToBytes, FromBytes;
    ParseUndoesSerialise(ck, id, data);
  }

  lemma ImageKept(ck: Checksum, file: Bytes, at: nat, bytes: Bytes, id: NeedleId, info: Info, data: Bytes)
    requires ImageAt(ck, file, id, info, data)
    requires End(info) <= at || at + |bytes| <= info.offset
    ensures ImageAt(ck, Patch(file, at, bytes), id, info, data)
  {
    hide ToBytes, Patch;
    PatchKeepsSlice(file, at, bytes, info.offset, End(info));
  }

  lemma ImageWritten(ck: Checksum, file: Bytes, at: nat, id: NeedleId, data: Bytes, cookie: nat)
    requires IsKey(id) && DATA_OFFSET <= at && Readable(|data|)
    ensures ImageAt(ck, Patch(file, at, ToBytes(NewNeedle(ck, id, data))), id, Info(at, |data|, ck(data), cookie), data)
  {}

  // ---------- the view as a map ----------

  lemma MergedDrop(dirty: map<NeedleId, Dirty>, ids: set<NeedleId>)
    ensures Merged(dirty - ids) == Merged(dirty) - ids
  {}

  /** A payload that reaches the file as its dirty buffer goes away is not lost. */
  lemma OverwriteView(dirty: map<NeedleId, Dirty>, stored: map<NeedleId, Bytes>, id: NeedleId, data: Bytes)
    ensures stored[id := data] + Merged(dirty - {id}) == (stored + Merged(dirty))[id := data]
  {}

  lemma StaleView(dirty: map<NeedleId, Dirty>, stored: map<NeedleId, Bytes>, id: NeedleId, data: Bytes)
    requires id in stored && stored[id] != data
    ensures stored + Merged(dirty - {id}) != (stored + Merged(dirty))[id := data]
  {
    assert (stored + Merged(dirty - {id}))[id] == stored[id];
  }

  lemma FlushedView(dirty: map<NeedleId, Dirty>, stored: map<NeedleId, Bytes>, id: NeedleId)
    requires id in dirty
    ensures stored[id := dirty[id].merged] + Merged(dirty - {id}) == stored + Merged(dirty)
  {}

  lemma PatchedView(dirty: map<NeedleId, Dirty>, stored: map<NeedleId, Bytes>, id: NeedleId, entry: Dirty)
    ensures stored + Merged(dirty[id := entry]) == (stored + Merged(dirty))[id := entry.merged]
  {}

  lemma DeletedView(dirty: map<NeedleId, Dirty>, stored: map<NeedleId, Bytes>, id: NeedleId)
    ensures (stored - {id}) + Merged(dirty - {id}) == (stored + Merged(dirty)) - {id}
  {}

  // ---------- reads return the view ----------

  /** Readers get the whole image of a stored needle. */
  lemma StoredReads(ck: Checksum, v: Vol, stored: map<NeedleId, Bytes>, id: NeedleId)
    requires Valid(ck, v, stored) && id in v.index
    ensures id in stored && ReadImage(v, v.index[id]).Data?
    ensures FromBytes(ck, ReadImage(v, v.index[id]).bytes) == Parsed(NewNeedle(ck, id, stored[id]))
    ensures ReadStored(ck, v, v.index[id]) == Data(stored[id])
  {
    hide FromBytes, ToBytes, Sum, Disjoint;
    var info := v.index[id];
    assert ImageAt(ck, v.file, id, info, stored[id]);
    assert ReadLength(info) == Size(info.dataSize);
    ImageParses(ck, v.file, id, info, stored[id]);
  }

  lemma ReadsReturnView(ck: Checksum, v: Vol, stored: map<NeedleId, Bytes>, id: NeedleId, offset: nat, size: nat)
    requires Valid(ck, v, stored)
    ensures var view := View(v, stored);
            && ReadNeedle(ck, v, id) == (if id in view then Data(view[id]) else Missing)
            && ReadBlob(ck, v, id, offset, size) == (if id in view then Data(Clip(view[id], offset, size)) else Missing)
  {
    assert stored.Keys == v.index.Keys;
    hide Valid, ReadStored, Clip;
    if id in v.index {
      StoredReads(ck, v, stored, id);
    }
  }

  // ---------- writes move the view ----------

  lemma PublishStores(ck: Checksum, v: Vol, stored: map<NeedleId, Bytes>, id: NeedleId, data: Bytes, cookie: nat)
    requires Stored(ck, v.file, v.index, stored) && Bounded(v)
    requires IsKey(id) && DATA_OFFSET <= v.alloc.appendOffset && Readable(|data|)
    ensures var w := Publish(ck, v, id, data, cookie);
            Stored(ck, w.file, w.index, stored[id := data])
  {
    hide ToBytes, Patch, ImageAt;
    var w := Publish(ck, v, id, data, cookie);
    var at := v.alloc.appendOffset;
    ImageWritten(ck, v.file, at, id, data, cookie);
    forall other | other in v.index && other != id
      ensures ImageAt(ck, w.file, other, w.index[other], stored[other])
    {
      ImageKept(ck, v.file, at, ToBytes(NewNeedle(ck, id, data)), other, v.index[other], stored[other]);
    }
  }

  lemma PublishAppends(ck: Checksum, v: Vol, id: NeedleId, data: Bytes, cookie: nat)
    requires Disjoint(v.index) && Bounded(v) && Readable(|data|)
    ensures var w := Publish(ck, v, id, data, cookie); Disjoint(w.index) && Bounded(w)
  {
    hide ToBytes, Patch;
  }

  lemma SizesPut(index: map<NeedleId, Info>, id: NeedleId, info: Info)
    ensures Sizes(index[id := info]) == Sizes(index)[id := Size(info.dataSize)]
    ensures |index[id := info]| == if id in index then |index| else |index| + 1
  {}

  lemma PublishAccounts(ck: Checksum, v: Vol, id: NeedleId, data: Bytes, cookie: nat)
    requires Accounted(v) && Readable(|data|)
    requires v.alloc.appendOffset + Size(|data|) <= v.size + DATA_OFFSET
    ensures Accounted(Publish(ck, v, id, data, cookie))
  {
    hide ToBytes, Patch, Sum;
    var before := Sizes(v.index);
    SizesPut(v.index, id, Info(v.alloc.appendOffset, |data|, ck(data), cookie));
    if id in v.index {
      SumUpdate(before, id, Size(|data|));
      SumRemove(before, id);
    } else {
      SumInsert(before, id, Size(|data|));
    }
  }

  /** Publishing keeps the volume valid exactly when readers can ask for the whole image. */
  lemma PublishKeepsValid(ck: Checksum, v: Vol, stored: map<NeedleId, Bytes>, id: NeedleId, data: Bytes, cookie: nat)
    requires Valid(ck, v, stored) && IsKey(id)
    requires v.alloc.appendOffset + Size(|data|) <= v.size + DATA_OFFSET
    ensures ValidUnless(ck, Publish(ck, v, id, data, cookie), stored[id := data], !Readable(|data|))
  {
    hide Stored, Disjoint, Bounded, Sum, Patch, ToBytes;
    if Readable(|data|) {
      PublishStores(ck, v, stored, id, data, cookie);
      PublishAppends(ck, v, id, data, cookie);
      PublishAccounts(ck, v, id, data, cookie);
    } else {
      hide Valid;
      forall m: map<NeedleId, Bytes>
        ensures !Valid(ck, Publish(ck, v, id, data, cookie), m)
      {
        OversizedBreaks(ck, v, stored, id, data, cookie, m);
      }
    }
  }

  /** Either the row says a length no reader can ask for, or the account no longer adds up. */
  lemma OversizedBreaks(ck: Checksum, v: Vol, stored: map<NeedleId, Bytes>, id: NeedleId, data: Bytes, cookie: nat,
                        m: map<NeedleId, Bytes>)
    requires Valid(ck, v, stored) && !Readable(|data|)
    ensures !Valid(ck, Publish(ck, v, id, data, cookie), m)
  {
    hide Disjoint, Bounded, Sum, Sizes, Patch, ToBytes;
    var w := Publish(ck, v, id, data, cookie);
    var info := Info(v.alloc.appendOffset, |data| % U32_LIMIT, ck(data), cookie);
    if |data| < U32_LIMIT {
      assert !Readable(w.index[id].dataSize);
    } else {
      SizesPut(v.index, id, info);
      SizesHas(v.index, id);
      if id in v.index {
        SumUpdate(Sizes(v.index), id, Size(info.dataSize));
        SumRemove(Sizes(v.index), id);
      } else {
        SumInsert(Sizes(v.index), id, Size(info.dataSize));
      }
    }
  }

  lemma SizesHas(index: map<NeedleId, Info>, id: NeedleId)
    ensures id in index <==> id in Sizes(index)
    ensures id in index ==> Sizes(index)[id] == Size(index[id].dataSize)
  {}

  /** Dropping dirty buffers never harms what is stored. */
  lemma DropKeepsValid(ck: Checksum, v: Vol, stored: map<NeedleId, Bytes>, ids: set<NeedleId>)
    requires Valid(ck, v, stored)
    ensures Valid(ck, v.(dirty := v.dirty - ids), stored)
  {}

  lemma FullKeepsValid(ck: Checksum, v: Vol, stored: map<NeedleId, Bytes>)
    requires Valid(ck, v, stored)
    ensures Valid(ck, v.(state := Full), stored)
  {
    hide Stored, Disjoint, Sum;
  }

  /** The payloads stored after an append of `data` has been reported as done. */
  ghost function StoredAfter(ck: Checksum, stored: map<NeedleId, Bytes>, id: NeedleId, data: Bytes)
    : map<NeedleId, Bytes>
  {
    if Collides(ck, stored, id, data) then stored else stored[id := data]
  }

  /** A skipped append stores the data all the same, unless the checksums collide. */
  lemma SkippedIsStored(ck: Checksum, v: Vol, stored: map<NeedleId, Bytes>, id: NeedleId, data: Bytes)
    requires Valid(ck, v, stored)
    ensures Identical(ck, v, id, data) <==> id in stored && |stored[id]| == |data| && ck(stored[id]) == ck(data)
    ensures Identical(ck, v, id, data) ==> StoredAfter(ck, stored, id, data) == stored
    ensures !Identical(ck, v, id, data) ==> StoredAfter(ck, stored, id, data) == stored[id := data]
  {}

  lemma FullWriteStores(ck: Checksum, v: Vol, stored: map<NeedleId, Bytes>, id: NeedleId, cookie: nat, data: Bytes)
    requires Valid(ck, v, stored) && IsKey(id)
    ensures var (w, out) := WriteNowait(ck, v, id, cookie, data);
            var now := if out == Ok then StoredAfter(ck, stored, id, data) else stored;
            && ValidUnless(ck, w, now, out == Ok && !Readable(|data|))
            && w.dirty == (if out == InvalidState then v.dirty else v.dirty - {id})
            && (out == InvalidState ==> w == v)
            && out in {Ok, OutOfSpace, InvalidState}
  {
    hide Valid, Publish, Identical, StoredAfter;
    var u := v.(dirty := v.dirty - {id});
    DropKeepsValid(ck, v, stored, {id});
    FullKeepsValid(ck, u, stored);
    SkippedIsStored(ck, u, stored, id, data);
    var (w, out) := WriteNowait(ck, v, id, cookie, data);
    if Identical(ck, u, id, data) {
      SkippedIsReadable(ck, u, stored, id, data);
    } else if out == Ok {
      PublishKeepsValid(ck, u, stored, id, data, cookie);
      PublishTouches(ck, u, id, data, cookie);
    }
  }

  /** A full write that reports success replaces the needle, unless its checksum collides with the stored
      version's; an oversized one leaves no valid volume behind; one that runs out of space has already
      thrown the dirty buffer away. */
  lemma FullWriteRefines(ck: Checksum, v: Vol, stored: map<NeedleId, Bytes>, id: NeedleId, cookie: nat, data: Bytes)
    requires Valid(ck, v, stored) && IsKey(id)
    ensures var (w, out) := WriteNowait(ck, v, id, cookie, data);
            var now := if out == Ok then StoredAfter(ck, stored, id, data) else stored;
            && ValidUnless(ck, w, now, out == Ok && !Readable(|data|))
            && (out == Ok ==> (View(w, now) == View(v, stored)[id := data] <==> !Collides(ck, stored, id, data)))
            && (out == OutOfSpace ==> View(w, now) == stored + (Merged(v.dirty) - {id}))
            && (out == InvalidState ==> w == v)
  {
    hide Valid, Merged, WriteNowait, ValidUnless;
    FullWriteStores(ck, v, stored, id, cookie, data);
    MergedDrop(v.dirty, {id});
    OverwriteView(v.dirty, stored, id, data);
    if Collides(ck, stored, id, data) {
      StaleView(v.dirty, stored, id, data);
    }
  }

  // ---------- closing ----------

  /** The lack of space closes an available volume, and nothing else a write meets does: not a backend that refuses
      the bytes, nor a payload that is skipped, buffered or unreadable. */
  lemma WritesClose(ck: Checksum, v: Vol, disabled: bool, id: NeedleId, cookie: nat, offset: nat, data: Bytes,
                    entry: Dirty)
    ensures var (w, out) := WriteNowait(ck, v, id, cookie, data);
            w.state == (if out == OutOfSpace then Full else v.state) && (out == OutOfSpace ==> v.state == Available)
    ensures var (w, out) := FlushEntry(ck, v, id, entry);
            w.state == (if out == OutOfSpace then Full else v.state) && (out == OutOfSpace ==> v.state == Available)
    ensures var (w, out) := WriteBlob(ck, v, disabled, id, offset, data);
            w.state == (if out == OutOfSpace then Full else v.state) && (out == OutOfSpace ==> v.state == Available)
  {
    AppendsClose(ck, v, id, cookie, data, entry);
    AppendsClose(ck, v, id, cookie, data, Dirty(Patch([], offset, data), true));
    hide WriteNowait, FlushEntry, Patch, FromBytes;
    if id in v.index && ReadImage(v, v.index[id]).Data? {
      var parsed := FromBytes(ck, ReadImage(v, v.index[id]).bytes);
      if parsed.Parsed? {
        AppendsClose(ck, v, id, cookie, data, Dirty(Patch(parsed.needle.data, offset, data), false));
      }
    }
  }

  lemma AppendsClose(ck: Checksum, v: Vol, id: NeedleId, cookie: nat, data: Bytes, entry: Dirty)
    ensures var (w, out) := WriteNowait(ck, v, id, cookie, data);
            w.state == (if out == OutOfSpace then Full else v.state) && (out == OutOfSpace ==> v.state == Available)
    ensures var (w, out) := FlushEntry(ck, v, id, entry);
            w.state == (if out == OutOfSpace then Full else v.state) && (out == OutOfSpace ==> v.state == Available)
  {
    hide ToBytes, Patch, Identical;
  }

  /** Whatever the volume holds, a successful read of a row is as long as the row says, unless that length wraps. */
  lemma ReadsRowLength(ck: Checksum, v: Vol, info: Info)
    requires Readable(info.dataSize) && ReadStored(ck, v, info).Data?
    ensures |ReadStored(ck, v, info).bytes| == info.dataSize
  {}

  // ---------- the rest of the row ----------

  /** The capability a row carries: that of the write that put it there.  A skipped write and a new version keep the
      one before, and a needle first written by a flush has none. */
  lemma CookieAfter(ck: Checksum, v: Vol, id: NeedleId, cookie: nat, data: Bytes)
    ensures var (w, out) := WriteNowait(ck, v, id, cookie, data);
            && (out == Ok && Identical(ck, v, id, data) ==> w.index == v.index)
            && (out == Ok && !Identical(ck, v, id, data) ==> id in w.index && w.index[id].cookie == cookie)
    ensures id in v.index ==>
              var (w, out) := AppendVersion(ck, v, id, data);
              out == Ok ==> id in w.index && w.index[id].cookie == v.index[id].cookie
    ensures var (w, out) := FlushEntry(ck, v, id, Dirty(data, true));
            out == Ok && id !in v.index ==> id in w.index && w.index[id].cookie == 0
  {
    hide ToBytes, Patch;
  }

  // ---------- key 0 ----------

  /** A full write as callers ask for it: for key 0 an available volume takes the key from its counter, `next`. */
  function WriteAny(ck: Checksum, v: Vol, next: nat, id: NeedleId, cookie: nat, data: Bytes): (Vol, Outcome, nat) {
    if id != 0 then
      var (w, out) := WriteNowait(ck, v, id, cookie, data);
      (w, out, next)
    else if v.state != Available then (v, InvalidState, next)
    else
      var (w, out) := WriteNowait(ck, v, next, cookie, data);
      (w, out, next + 1)
  }

  /** What is written to key 0 -- by a caller, or by the flush of a region buffered under it -- is found under the
      counter's key and never under 0; another needle that has this key already is replaced. */
  lemma KeyZeroIsRedirected(ck: Checksum, v: Vol, stored: map<NeedleId, Bytes>, next: nat, cookie: nat, data: Bytes)
    requires Valid(ck, v, stored) && IsKey(next) && !Collides(ck, stored, next, data)
    requires WriteAny(ck, v, next, 0, cookie, data).1 == Ok && Readable(|data|)
    ensures var (w, _, counter) := WriteAny(ck, v, next, 0, cookie, data);
            && Valid(ck, w, StoredAfter(ck, stored, next, data)) && counter == next + 1
            && View(w, StoredAfter(ck, stored, next, data)) == View(v, stored)[next := data]
            && ReadNeedle(ck, w, 0) == Missing && ReadNeedle(ck, w, next) == Data(data)
  {
    hide Valid, WriteNowait, Collides, ReadNeedle, View;
    FullWriteRefines(ck, v, stored, next, cookie, data);
    NoKeyZero(ck, v, stored);
    var w, now := WriteAny(ck, v, next, 0, cookie, data).0, StoredAfter(ck, stored, next, data);
    ReadsReturnView(ck, w, now, 0, 0, 0);
    ReadsReturnView(ck, w, now, next, 0, 0);
  }

  lemma NoKeyZero(ck: Checksum, v: Vol, stored: map<NeedleId, Bytes>)
    requires Valid(ck, v, stored)
    ensures 0 !in View(v, stored)
  {
    hide Disjoint, Accounted, ToBytes;
    assert 0 in v.index ==> ImageAt(ck, v.file, 0, v.index[0], stored[0]);
  }

  // ---------- what a write is worth to a reader ----------

  /** The image just appended, as far as readers ask for it. */
  lemma PublishedReads(ck: Checksum, v: Vol, id: NeedleId, data: Bytes, cookie: nat)
    requires id !in v.dirty && v.alloc.appendOffset + Size(|data|) <= v.size + DATA_OFFSET
    ensures var w := Publish(ck, v, id, data, cookie);
            var length := Size(|data| % U32_LIMIT) % U32_LIMIT;
            && length <= Size(|data|) && w.index[id].dataSize == |data| % U32_LIMIT
            && ReadNeedle(ck, w, id) == ReadStored(ck, w, w.index[id])
            && ReadImage(w, w.index[id]) == Data(ToBytes(NewNeedle(ck, id, data))[..length])
  {
    hide ToBytes, Patch, FromBytes;
    var image := ToBytes(NewNeedle(ck, id, data));
    var at, length := v.alloc.appendOffset, Size(|data| % U32_LIMIT) % U32_LIMIT;
    PatchedSlice(v.file, at, image);
    var file := Patch(v.file, at, image);
    assert file[at..at + length] == file[at..at + |image|][..length];
  }

  /** An oversized payload that the volume has accepted is never read back.  Within 20 bytes of a multiple
      of 4 GiB its needle cannot be read at all; otherwise the reader takes the leading bytes for the
      payload if the next eight pass for their checksum, and reports a checksum error if not. */
  lemma OversizedReads(ck: Checksum, v: Vol, id: NeedleId, data: Bytes, cookie: nat)
    requires id !in v.dirty && v.alloc.appendOffset + Size(|data|) <= v.size + DATA_OFFSET && !Readable(|data|)
    ensures var short := |data| % U32_LIMIT;
            var next := FromBigEndian((data + BigEndian(ck(data), CHECKSUM_SIZE))[short..short + CHECKSUM_SIZE]);
            ReadNeedle(ck, Publish(ck, v, id, data, cookie), id) ==
              if !Readable(short) then Corrupt(TooShort)
              else if next == ck(data[..short]) then Data(data[..short]) else Corrupt(ChecksumMismatch)
  {
    hide ToBytes, Patch, BigEndian, FromBigEndian, Publish, FromBytes, ReadImage, ReadNeedle;
    PublishedReads(ck, v, id, data, cookie);
    var short := |data| % U32_LIMIT;
    if Readable(short) {
      assert |data| >= U32_LIMIT;
      TruncatedImage(ck, id, data);
    } else {
      var length := Size(short) % U32_LIMIT;
      assert length < HEADER_SIZE + FOOTER_SIZE;
      TooShortToParse(ck, ToBytes(NewNeedle(ck, id, data))[..length]);
    }
  }

  lemma TooShortToParse(ck: Checksum, b: Bytes)
    requires |b| < HEADER_SIZE + FOOTER_SIZE
    ensures FromBytes(ck, b) == Rejected(TooShort)
  {}

  /** A write that reports success and is not fooled by a collision can be read back exactly when readers can
      ask for the whole image. */
  lemma WrittenReadsBack(ck: Checksum, v: Vol, stored: map<NeedleId, Bytes>, id: NeedleId, cookie: nat, data: Bytes)
    requires Valid(ck, v, stored) && IsKey(id) && !Collides(ck, stored, id, data)
    requires WriteNowait(ck, v, id, cookie, data).1 == Ok
    ensures ReadNeedle(ck, WriteNowait(ck, v, id, cookie, data).0, id) == Data(data) <==> Readable(|data|)
  {
    if Readable(|data|) {
      hide WriteNowait, Valid, ReadNeedle, Collides;
      FullWriteRefines(ck, v, stored, id, cookie, data);
      ReadsReturnView(ck, WriteNowait(ck, v, id, cookie, data).0, StoredAfter(ck, stored, id, data), id, 0, 0);
    } else {
      var u := v.(dirty := v.dirty - {id});
      DropKeepsValid(ck, v, stored, {id});
      hide Valid, Publish, ReadNeedle, Identical, BigEndian, FromBigEndian;
      if Identical(ck, u, id, data) {
        SkippedIsReadable(ck, u, stored, id, data);
      }
      ShortIsShorter(ck, u, id, data, cookie);
    }
  }

  lemma ShortIsShorter(ck: Checksum, v: Vol, id: NeedleId, data: Bytes, cookie: nat)
    requires id !in v.dirty && !Readable(|data|)
    ensures v.alloc.appendOffset + Size(|data|) <= v.size + DATA_OFFSET ==>
              ReadNeedle(ck, Publish(ck, v, id, data, cookie), id) != Data(data)
  {
    hide Publish, ReadNeedle, BigEndian, FromBigEndian;
    if v.alloc.appendOffset + Size(|data|) <= v.size + DATA_OFFSET {
      OversizedReads(ck, v, id, data, cookie);
      assert |data| >= U32_LIMIT ==> |data| % U32_LIMIT < |data|;
    }
  }

  lemma SkippedIsReadable(ck: Checksum, v: Vol, stored: map<NeedleId, Bytes>, id: NeedleId, data: Bytes)
    requires Valid(ck, v, stored) && Identical(ck, v, id, data)
    ensures Readable(|data|)
  {
    assert ImageAt(ck, v.file, id, v.index[id], stored[id]);
  }

  /** A write of any size leaves every other needle as readable as it was. */
  lemma OthersRead(ck: Checksum, v: Vol, stored: map<NeedleId, Bytes>, id: NeedleId, cookie: nat, data: Bytes,
                   other: NeedleId)
    requires Valid(ck, v, stored) && IsKey(id) && other != id
    ensures ReadNeedle(ck, WriteNowait(ck, v, id, cookie, data).0, other) == ReadNeedle(ck, v, other)
  {
    hide Valid, Publish, ReadNeedle, Identical;
    DropLeaves(ck, v, id, other);
    PublishLeaves(ck, v, stored, id, data, cookie, other);
  }

  lemma DropLeaves(ck: Checksum, v: Vol, id: NeedleId, other: NeedleId)
    requires other != id
    ensures forall state ::
              ReadNeedle(ck, v.(dirty := v.dirty - {id}, state := state), other) == ReadNeedle(ck, v, other)
  {
    hide FromBytes;
  }

  lemma PublishLeaves(ck: Checksum, v: Vol, stored: map<NeedleId, Bytes>, id: NeedleId, data: Bytes, cookie: nat,
                      other: NeedleId)
    requires Valid(ck, v, stored) && other != id
    ensures ReadNeedle(ck, Publish(ck, v.(dirty := v.dirty - {id}), id, data, cookie), other) ==
            ReadNeedle(ck, v, other)
  {
    hide Valid, ToBytes, Patch, ReadImage;
    if other in v.index {
      PublishLeavesRow(ck, v, stored, id, data, cookie, other);
    }
    SameRow(ck, v, Publish(ck, v.(dirty := v.dirty - {id}), id, data, cookie), other);
  }

  lemma PublishLeavesRow(ck: Checksum, v: Vol, stored: map<NeedleId, Bytes>, id: NeedleId, data: Bytes, cookie: nat,
                         other: NeedleId)
    requires Valid(ck, v, stored) && other != id && other in v.index
    ensures var w := Publish(ck, v.(dirty := v.dirty - {id}), id, data, cookie);
            ReadImage(w, w.index[other]) == ReadImage(v, v.index[other])
  {
    hide ToBytes, Patch, Sum, Disjoint;
    var info := v.index[other];
    assert ImageAt(ck, v.file, other, info, stored[other]);
    assert ReadLength(info) == Size(info.dataSize);
    PatchKeepsSlice(v.file, v.alloc.appendOffset, ToBytes(NewNeedle(ck, id, data)), info.offset, End(info));
  }

  lemma SameRow(ck: Checksum, v: Vol, w: Vol, id: NeedleId)
    requires id in w.dirty <==> id in v.dirty
    requires id in v.dirty ==> w.dirty[id] == v.dirty[id]
    requires id in w.index <==> id in v.index
    requires id in v.index ==> w.index[id] == v.index[id] && ReadImage(w, w.index[id]) == ReadImage(v, v.index[id])
    ensures ReadNeedle(ck, w, id) == ReadNeedle(ck, v, id)
  {
    hide ReadImage, FromBytes;
  }

  /** A new volume of a given size. */
  ghost function NewVolume(size: nat): Vol {
    Vol(size, [], map[], map[], map[], Alloc(0, size, DATA_OFFSET, 0, 0, 0), Available, 0)
  }

  lemma NewVolumeIsValid(ck: Checksum, size: nat)
    ensures Valid(ck, NewVolume(size), map[])
  {
    assert Sizes(map[]) == map[];
  }

  /** It does happen: whatever the checksum, these 4 GiB are written to a new volume of 8 GiB with success and
      read back as nothing. */
  lemma ReadAsEmpty(ck: Checksum, id: NeedleId, cookie: nat)
    requires IsKey(id)
    ensures var v := NewVolume(2 * U32_LIMIT);
            var data := BigEndian(ck([]), CHECKSUM_SIZE) + Zeros(U32_LIMIT - CHECKSUM_SIZE);
            var (w, out) := WriteNowait(ck, v, id, cookie, data);
            Valid(ck, v, map[]) && |data| == U32_LIMIT && out == Ok && ReadNeedle(ck, w, id) == Data([])
  {
    hide BigEndian, FromBigEndian, ToBytes, Patch;
    var v := NewVolume(2 * U32_LIMIT);
    var data := BigEndian(ck([]), CHECKSUM_SIZE) + Zeros(U32_LIMIT - CHECKSUM_SIZE);
    NewVolumeIsValid(ck, 2 * U32_LIMIT);
    FieldWidths();
    assert v.dirty - {id} == v.dirty;
    OversizedReads(ck, v, id, data, cookie);
    BigEndianDecodes(ck([]), CHECKSUM_SIZE);
    assert (data + BigEndian(ck(data), CHECKSUM_SIZE))[..CHECKSUM_SIZE] == BigEndian(ck([]), CHECKSUM_SIZE);
    assert data[..0] == [];
  }

  // ---------- a full write that is skipped by mistake ----------

  /** Nine bytes are more than a 64-bit checksum can tell apart. */
  lemma ChecksumsCollide(ck: Checksum) returns (a: Bytes, b: Bytes)
    ensures a != b && |a| == |b| == 9 && ck(a) == ck(b)
  {
    FieldWidths();
    hide BigEndian;
    var f: int -> int := i => ck(BigEndian(i, 9));
    forall x
      ensures 0 <= f(x) < U64_LIMIT
    {
      assert f(x) == ck(BigEndian(x, 9));
    }
    var i, j := Sets.Pigeonhole(f, U64_LIMIT);
    a, b := BigEndian(i, 9), BigEndian(j, 9);
    assert Pow256(9) == 256 * Pow256(8);
    BigEndianDecodes(i, 9);
    BigEndianDecodes(j, 9);
  }

  /** It does happen: whatever the checksum, there are two payloads that a new volume takes one after the other with
      success, and still reads back the first. */
  lemma CollisionKeepsTheFirst(ck: Checksum, id: NeedleId, cookie: nat) returns (a: Bytes, b: Bytes)
    requires IsKey(id)
    ensures a != b && Valid(ck, NewVolume(2 * Size(9)), map[])
    ensures var (v, first) := WriteNowait(ck, NewVolume(2 * Size(9)), id, cookie, a);
            var (w, second) := WriteNowait(ck, v, id, cookie, b);
            first == Ok && second == Ok && ReadNeedle(ck, w, id) == Data(a)
  {
    a, b := ChecksumsCollide(ck);
    NewVolumeIsValid(ck, 2 * Size(9));
    FirstIsTaken(ck, NewVolume(2 * Size(9)), id, cookie, a);
    var v := WriteNowait(ck, NewVolume(2 * Size(9)), id, cookie, a).0;
    WrittenReadsBack(ck, NewVolume(2 * Size(9)), map[], id, cookie, a);
    SkippedReads(ck, v, id, cookie, b);
  }

  lemma FirstIsTaken(ck: Checksum, v: Vol, id: NeedleId, cookie: nat, data: Bytes)
    requires v == NewVolume(2 * Size(9)) && |data| == 9
    ensures var (w, out) := WriteNowait(ck, v, id, cookie, data);
            && out == Ok && w.state == Available && w.dirty == map[]
            && forall other :: |other| == 9 && ck(other) == ck(data) ==> Identical(ck, w, id, other)
  {
    hide ToBytes, Patch;
    assert v.dirty - {id} == map[];
  }

  lemma SkippedReads(ck: Checksum, v: Vol, id: NeedleId, cookie: nat, data: Bytes)
    requires v.state == Available && v.dirty == map[] && Identical(ck, v, id, data)
    ensures WriteNowait(ck, v, id, cookie, data) == (v, Ok)
  {
    hide Publish, Identical;
    assert v.dirty - {id} == map[];
  }

  // ---------- a full write that finds no room ----------

  /** Neither skipped nor admitted: the append has no room, logically or in the file. */
  predicate NoRoom(ck: Checksum, v: Vol, id: NeedleId, data: Bytes) {
    && v.state == Available && !Identical(ck, v, id, data)
    && (v.alloc.free < Size(|data|) || v.alloc.appendOffset + Size(|data|) > v.size + DATA_OFFSET)
  }

  /** Such a write fails, and what it costs is the dirty buffer: the view changes exactly when there was one
      that differs from the stored version. */
  lemma FailedWriteLoses(ck: Checksum, v: Vol, stored: map<NeedleId, Bytes>, id: NeedleId, cookie: nat, data: Bytes)
    requires Valid(ck, v, stored) && IsKey(id) && NoRoom(ck, v, id, data)
    ensures var (w, out) := WriteNowait(ck, v, id, cookie, data);
            && out == OutOfSpace && Valid(ck, w, stored)
            && (View(w, stored) != View(v, stored) <==>
                id in v.dirty && !(id in stored && stored[id] == v.dirty[id].merged))
  {
    var u := v.(dirty := v.dirty - {id});
    DropKeepsValid(ck, v, stored, {id});
    FullKeepsValid(ck, u, stored);
    hide Valid, Publish;
    DroppedView(v.dirty, stored, id);
  }

  lemma DroppedView(dirty: map<NeedleId, Dirty>, stored: map<NeedleId, Bytes>, id: NeedleId)
    ensures stored + Merged(dirty - {id}) != stored + Merged(dirty) <==>
            id in dirty && !(id in stored && stored[id] == dirty[id].merged)
  {
    var before, after := stored + Merged(dirty), stored + Merged(dirty - {id});
    if id in dirty {
      assert before[id] == dirty[id].merged;
      assert id in after ==> id in stored && after[id] == stored[id];
    }
    assert forall other :: other != id ==>
             (other in before <==> other in after) && (other in before ==> before[other] == after[other]);
  }

  /** A new volume of no size with one buffered byte. */
  ghost function OneByte(): Vol {
    NewVolume(0).(dirty := map[1 := Dirty([7], true)])
  }

  lemma OneByteBuffered(ck: Checksum)
    ensures Valid(ck, OneByte(), map[])
  {
    NewVolumeIsValid(ck, 0);
    BufferKeepsValid(ck, NewVolume(0), map[], 1, Dirty([7], true));
    hide Valid;
  }

  lemma OneByteIsFull(ck: Checksum, v: Vol)
    requires v == OneByte()
    ensures NoRoom(ck, v, 1, []) && View(v, map[]) == map[1 := [7]] && Merged(v.dirty) - {1} == map[]
  {}

  /** It does happen: a full write of nothing to that volume fails and loses the byte. */
  lemma FailedWriteLosesByte(ck: Checksum, cookie: nat)
    ensures Valid(ck, OneByte(), map[]) && View(OneByte(), map[]) == map[1 := [7]]
    ensures var (w, out) := WriteNowait(ck, OneByte(), 1, cookie, []); out == OutOfSpace && View(w, map[]) == map[]
  {
    hide Valid, WriteNowait, NoRoom, ValidUnless, OneByte, View, Merged;
    var v := OneByte();
    OneByteBuffered(ck);
    OneByteIsFull(ck, v);
    FullWriteRefines(ck, v, map[], 1, cookie, []);
    FailedWriteLoses(ck, v, map[], 1, cookie, []);
  }

  lemma PublishTouches(ck: Checksum, v: Vol, id: NeedleId, data: Bytes, cookie: nat)
    ensures var w := Publish(ck, v, id, data, cookie);
            w.dirty == v.dirty && w.state == v.state && w.size == v.size && w.deleted == v.deleted
  {}

  lemma AppendVersionRefines(ck: Checksum, v: Vol, stored: map<NeedleId, Bytes>, id: NeedleId, data: Bytes)
    requires Valid(ck, v, stored) && IsKey(id) && id in v.index
    ensures var (w, out) := AppendVersion(ck, v, id, data);
            var now := if out == Ok then StoredAfter(ck, stored, id, data) else stored;
            ValidUnless(ck, w, now, out == Ok && !Readable(|data|)) && w.dirty == v.dirty
  {
    hide Valid, Publish, Identical, StoredAfter;
    SkippedIsStored(ck, v, stored, id, data);
    FullKeepsValid(ck, v, stored);
    var (w, out) := AppendVersion(ck, v, id, data);
    if Identical(ck, v, id, data) {
      SkippedIsReadable(ck, v, stored, id, data);
    } else if out == Ok {
      PublishKeepsValid(ck, v, stored, id, data, v.index[id].cookie);
      PublishTouches(ck, v, id, data, v.index[id].cookie);
    }
  }

  lemma FlushEntryRefines(ck: Checksum, v: Vol, stored: map<NeedleId, Bytes>, id: NeedleId, entry: Dirty)
    requires Valid(ck, v, stored) && IsKey(id) && id !in v.dirty
    ensures var (w, out) := FlushEntry(ck, v, id, entry);
            var now := if out == Ok then StoredAfter(ck, stored, id, entry.merged) else stored;
            ValidUnless(ck, w, now, out == Ok && !Readable(|entry.merged|)) && w.dirty == v.dirty
  {
    hide Valid, WriteNowait, AppendVersion, StoredAfter, ValidUnless;
    assert v.dirty - {id} == v.dirty;
    if entry.isNew || id !in v.index {
      FullWriteStores(ck, v, stored, id, 0, entry.merged);
    } else {
      AppendVersionRefines(ck, v, stored, id, entry.merged);
    }
  }

  /** Flushing moves bytes from memory to the file and changes nothing a reader can see -- unless the
      append fails or collides, in which case the needle falls back to its stored version. */
  lemma FlushRefines(ck: Checksum, v: Vol, stored: map<NeedleId, Bytes>, id: NeedleId)
    requires Valid(ck, v, stored) && id in v.dirty
    ensures var (w, out) := FlushOne(ck, v, id);
            var now := if out == Ok then StoredAfter(ck, stored, id, v.dirty[id].merged) else stored;
            && Valid(ck, w, now) && w.dirty == v.dirty - {id}
            && (out == Ok && !Collides(ck, stored, id, v.dirty[id].merged) ==> View(w, now) == View(v, stored))
            && (out != Ok || Collides(ck, stored, id, v.dirty[id].merged) ==>
                  View(w, now) == stored + (Merged(v.dirty) - {id}))
  {
    assert Bounded(v);
    hide Valid, FlushEntry, Collides, Merged;
    DropKeepsValid(ck, v, stored, {id});
    FlushEntryRefines(ck, v.(dirty := v.dirty - {id}), stored, id, v.dirty[id]);
    FlushedView(v.dirty, stored, id);
    MergedDrop(v.dirty, {id});
  }

  // ---------- a flush that finds no room ----------

  /** A flush fails exactly when the volume takes no writes, or the append is neither skipped nor admitted. */
  lemma FlushFails(ck: Checksum, v: Vol, id: NeedleId)
    requires id in v.dirty
    ensures FlushOne(ck, v, id).1 != Ok <==> v.state != Available || NoRoom(ck, v, id, v.dirty[id].merged)
  {
    hide Publish;
  }

  /** What a flush costs: the buffer is gone whatever the outcome, so the view changes exactly when the append
      fails or is skipped by mistake, and the buffer held something else than the stored version. */
  lemma FlushLoses(ck: Checksum, v: Vol, stored: map<NeedleId, Bytes>, id: NeedleId)
    requires Valid(ck, v, stored) && id in v.dirty
    ensures var data := v.dirty[id].merged;
            var (w, out) := FlushOne(ck, v, id);
            var now := if out == Ok then StoredAfter(ck, stored, id, data) else stored;
            && Valid(ck, w, now)
            && (View(w, now) != View(v, stored) <==>
                (v.state != Available || NoRoom(ck, v, id, data) || Collides(ck, stored, id, data)) &&
                !(id in stored && stored[id] == data))
  {
    FlushRefines(ck, v, stored, id);
    FlushFails(ck, v, id);
    DroppedView(v.dirty, stored, id);
    MergedDrop(v.dirty, {id});
    hide Valid, FlushOne, NoRoom, Merged;
  }

  /** It does happen: flushing the one byte of that volume loses it. */
  lemma FlushLosesByte(ck: Checksum)
    ensures Valid(ck, OneByte(), map[]) && View(OneByte(), map[]) == map[1 := [7]]
    ensures var (w, out) := FlushOne(ck, OneByte(), 1); out == OutOfSpace && View(w, map[]) == map[]
  {
    hide Valid, FlushOne, OneByte;
    OneByteBuffered(ck);
    OneByteFlushFails(ck, OneByte());
  }

  lemma OneByteFlushFails(ck: Checksum, v: Vol)
    requires v == OneByte()
    ensures FlushOne(ck, v, 1).1 == OutOfSpace && FlushOne(ck, v, 1).0.dirty == map[]
    ensures View(v, map[]) == map[1 := [7]]
  {
    hide Publish;
    assert v.dirty - {1} == map[];
  }

  /** With room for the buffer a flush succeeds and takes no more than that. */
  lemma FlushFits(ck: Checksum, v: Vol, stored: map<NeedleId, Bytes>, id: NeedleId)
    requires Valid(ck, v, stored) && id in v.dirty && v.state == Available
    requires v.alloc.appendOffset + Size(|v.dirty[id].merged|) <= v.size + DATA_OFFSET
    ensures var (w, out) := FlushOne(ck, v, id);
            && out == Ok && w.state == Available && w.size == v.size
            && w.alloc.appendOffset <= v.alloc.appendOffset + Size(|v.dirty[id].merged|)
  {
    hide Stored, Disjoint, Bounded, Sum, Sizes, ToBytes, Patch;
  }

  ghost function Known(m: map<NeedleId, Bytes>, id: NeedleId): Bytes {
    if id in m then m[id] else []
  }

  /** With coalescing on, a region write always succeeds and patches exactly its region of the view,
      zero-extending what was there; a buffer that outgrows what readers can ask for is the end of validity. */
  lemma BlobRefines(ck: Checksum, v: Vol, stored: map<NeedleId, Bytes>, id: NeedleId, offset: nat, data: Bytes)
    requires Valid(ck, v, stored) && IsKey(id)
    ensures var (w, out) := WriteBlob(ck, v, false, id, offset, data);
            var patched := Patch(Known(View(v, stored), id), offset, data);
            && out == Ok && ValidUnless(ck, w, stored, !Readable(|patched|))
            && View(w, stored) == View(v, stored)[id := patched]
  {
    hide Valid, Patch, WriteBlob, Merged, ValidUnless;
    BlobBase(ck, v, stored, false, id, offset, data);
    var entry := Dirty(Patch(Known(View(v, stored), id), offset, data),
                       if id in v.dirty then v.dirty[id].isNew else id !in v.index);
    PatchedView(v.dirty, stored, id, entry);
    BufferKeepsValid(ck, v, stored, id, entry);
  }

  lemma BufferKeepsValid(ck: Checksum, v: Vol, stored: map<NeedleId, Bytes>, id: NeedleId, entry: Dirty)
    requires Valid(ck, v, stored) && IsKey(id)
    ensures ValidUnless(ck, v.(dirty := v.dirty[id := entry]), stored, !Readable(|entry.merged|))
  {
    hide Stored, Disjoint, Sum;
    if !Readable(|entry.merged|) {
      assert !Bounded(v.(dirty := v.dirty[id := entry])) by {
        assert id in v.dirty[id := entry];
      }
    }
  }

  /** Either way the merged payload starts from what the view holds. */
  lemma BlobBase(ck: Checksum, v: Vol, stored: map<NeedleId, Bytes>, disabled: bool, id: NeedleId, offset: nat,
                 data: Bytes)
    requires Valid(ck, v, stored) && (disabled ==> id !in v.dirty)
    ensures var entry := Dirty(Patch(Known(View(v, stored), id), offset, data),
                               if id in v.dirty then v.dirty[id].isNew else id !in v.index);
            WriteBlob(ck, v, disabled, id, offset, data) == Merge(ck, v, disabled, id, entry)
  {
    assert stored.Keys == v.index.Keys;
    hide Valid, Patch, FromBytes, ToBytes, FlushEntry, ReadImage;
    if id in v.index && id !in v.dirty {
      StoredReads(ck, v, stored, id);
    }
  }

  /** With coalescing off, the merged payload is appended before the call returns. */
  lemma SynchronousBlobRefines(ck: Checksum, v: Vol, stored: map<NeedleId, Bytes>, id: NeedleId, offset: nat,
                               data: Bytes)
    requires Valid(ck, v, stored) && IsKey(id) && id !in v.dirty
    ensures var (w, out) := WriteBlob(ck, v, true, id, offset, data);
            var patched := Patch(Known(View(v, stored), id), offset, data);
            var now := if out == Ok then StoredAfter(ck, stored, id, patched) else stored;
            && ValidUnless(ck, w, now, out == Ok && !Readable(|patched|)) && w.dirty == v.dirty
            && (out == Ok && !Collides(ck, stored, id, patched) ==> View(w, now) == View(v, stored)[id := patched])
            && (out != Ok || Collides(ck, stored, id, patched) ==> View(w, now) == View(v, stored))
  {
    hide Valid, Patch, FlushEntry, WriteBlob, Collides, ValidUnless;
    BlobBase(ck, v, stored, true, id, offset, data);
    FlushEntryRefines(ck, v, stored, id, Dirty(Patch(Known(View(v, stored), id), offset, data), id !in v.index));
  }

  lemma DeleteStores(ck: Checksum, v: Vol, stored: map<NeedleId, Bytes>, id: NeedleId)
    requires Stored(ck, v.file, v.index, stored) && Disjoint(v.index) && Bounded(v) && id in v.index
    ensures var w := Delete(v, id).0;
            Stored(ck, w.file, w.index, stored - {id}) && Disjoint(w.index) && Bounded(w)
  {
    hide ImageAt;
  }

  lemma DeleteKeepsValid(ck: Checksum, v: Vol, stored: map<NeedleId, Bytes>, id: NeedleId)
    requires Valid(ck, v, stored)
    ensures Valid(ck, Delete(v, id).0, stored - {id})
  {
    if id in v.index {
      hide Stored, Disjoint, Bounded, Accounted, Delete;
      DeleteStores(ck, v, stored, id);
      DeleteAccounts(v, id);
    } else {
      assert stored.Keys == v.index.Keys;
      hide Valid;
      DropKeepsValid(ck, v, stored, {id});
      assert stored - {id} == stored;
    }
  }

  /** Deleting removes the needle from the view whatever it answers: a needle that lives only in the dirty
      buffer is dropped and reported as not found.  The bytes of the stored image move from the used to the
      garbage account, and no others. */
  lemma DeleteRefines(ck: Checksum, v: Vol, stored: map<NeedleId, Bytes>, id: NeedleId)
    requires Valid(ck, v, stored)
    ensures var (w, out) := Delete(v, id);
            var freed := if id in stored then Size(|stored[id]|) else 0;
            && Valid(ck, w, stored - {id})
            && View(w, stored - {id}) == View(v, stored) - {id}
            && (out == Ok <==> id in v.index)
            && w.alloc.garbage == v.alloc.garbage + freed && w.alloc.used + freed == v.alloc.used
            && w.alloc.appendOffset == v.alloc.appendOffset
            && w.alloc.deletedCount == v.alloc.deletedCount + if id in v.index then 1 else 0
  {
    DeleteKeepsValid(ck, v, stored, id);
    DeletedView(v.dirty, stored, id);
    DeleteMoves(ck, v, stored, id);
    hide Valid, Merged, Delete;
    DeleteAnswers(v, id);
  }

  /** The deletion of a stored needle opens a full volume again: afterwards a write is refused for the volume's state
      exactly when it is read-only, being deleted, or was full and did not hold the needle. */
  lemma DeletionReopens(ck: Checksum, v: Vol, stored: map<NeedleId, Bytes>, id: NeedleId, other: NeedleId, cookie: nat,
                        data: Bytes)
    requires Valid(ck, v, stored) && IsKey(other)
    ensures var w := Delete(v, id).0;
            && (WriteNowait(ck, w, other, cookie, data).1 == InvalidState <==>
                v.state in {ReadOnly, Deleting} || (v.state == Full && id !in stored))
            && (v.state in {ReadOnly, Deleting} ==> w.state == v.state)
  {
    StateAfterDelete(ck, v, stored, id);
    StoredKeys(ck, v, stored);
    hide Valid, Delete, Publish;
  }

  /** A full volume that gives up a needle is available again; nothing else about a deletion moves the state. */
  lemma StateAfterDelete(ck: Checksum, v: Vol, stored: map<NeedleId, Bytes>, id: NeedleId)
    requires Valid(ck, v, stored)
    ensures Delete(v, id).0.state == if v.state == Full && id in v.index then Available else v.state
  {
    DeleteMoves(ck, v, stored, id);
    hide Stored, Disjoint, Bounded, Sum, Sizes;
    StoredKeys(ck, v, stored);
  }

  lemma StoredKeys(ck: Checksum, v: Vol, stored: map<NeedleId, Bytes>)
    requires Valid(ck, v, stored)
    ensures stored.Keys == v.index.Keys
  {}

  /** A volume with room for two empty needles: the second write is too long by a byte and marks it full, and after
      the first needle is deleted a shorter one is taken. */
  lemma FullThenDeleted(ck: Checksum, cookie: nat)
    ensures var (a, first) := WriteNowait(ck, NewVolume(40), 1, cookie, []);
            var (b, second) := WriteNowait(ck, a, 2, cookie, [0]);
            var (c, gone) := Delete(b, 1);
            var (d, third) := WriteNowait(ck, c, 2, cookie, []);
            && first == Ok && second == OutOfSpace && WriteNowait(ck, b, 2, cookie, []).1 == InvalidState
            && gone == Ok && third == Ok && d.state == Available && 2 in d.index
  {
    hide ToBytes, Patch;
  }

  lemma DeleteAnswers(v: Vol, id: NeedleId)
    ensures Delete(v, id).1 == Ok <==> id in v.index
    ensures Delete(v, id).0.dirty == v.dirty - {id}
    ensures Delete(v, id).0.alloc.deletedCount == v.alloc.deletedCount + if id in v.index then 1 else 0
  {}

  lemma DeleteMoves(ck: Checksum, v: Vol, stored: map<NeedleId, Bytes>, id: NeedleId)
    requires Valid(ck, v, stored)
    ensures var w := Delete(v, id).0;
            var freed := if id in stored then Size(|stored[id]|) else 0;
            && w.alloc.garbage == v.alloc.garbage + freed && w.alloc.used + freed == v.alloc.used
            && w.alloc.appendOffset == v.alloc.appendOffset
  {
    hide Disjoint, Bounded, Sum, Sizes;
    if id in v.index {
      assert ImageAt(ck, v.file, id, v.index[id], stored[id]);
      SizesHas(v.index, id);
      SumRemove(Sizes(v.index), id);
    }
  }

  lemma SizesDrop(index: map<NeedleId, Info>, id: NeedleId)
    requires id in index
    ensures Sizes(index - {id}) == Sizes(index) - {id}
    ensures |index - {id}| == |index| - 1
  {}

  lemma DeleteAccounts(v: Vol, id: NeedleId)
    requires Accounted(v) && id in v.index
    ensures Accounted(Delete(v, id).0)
  {
    hide Sum, Sizes;
    SizesDrop(v.index, id);
    SizesHas(v.index, id);
    SumRemove(Sizes(v.index), id);
  }
}
