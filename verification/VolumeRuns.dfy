/** Whole runs of a volume against a plain map from needle id to payload. */
module VolumeRuns {
  import opened Bytes
  import opened Options
  import opened NeedleCodec
  import opened VolumeModel
  import opened Compaction

  datatype Command =
    | Put(id: NeedleId, cookie: nat, data: Bytes)
    | Region(id: NeedleId, offset: nat, data: Bytes)
    | Flush(id: NeedleId)
    | Remove(id: NeedleId)
    | Compact(order: seq<NeedleId>)

  /** The volume together with the payloads its file holds, and whether coalescing is switched off. */
  datatype Run = Run(vol: Vol, stored: map<NeedleId, Bytes>, disabled: bool)

  /** Valid, and without a dirty buffer when coalescing is off. */
  ghost predicate Good(ck: Checksum, s: Run) {
    Valid(ck, s.vol, s.stored) && (s.disabled ==> s.vol.dirty == map[])
  }

  predicate HasId(cmd: Command) {
    cmd.Put? || cmd.Region? ==> IsKey(cmd.id)
  }

  /** The abstract command: what the caller asked for. */
  ghost function Apply(m: map<NeedleId, Bytes>, cmd: Command): map<NeedleId, Bytes> {
    match cmd
    case Put(id, _, data) => m[id := data]
    case Region(id, offset, data) => m[id := Patch(Known(m, id), offset, data)]
    case Flush(_) => m
    case Remove(id) => m - {id}
    case Compact(_) => m
  }

  /** The payload a region write makes of what the view holds. */
  ghost function Patched(s: Run, cmd: Command): Bytes
    requires cmd.Region?
  {
    Patch(Known(View(s.vol, s.stored), cmd.id), cmd.offset, cmd.data)
  }

  ghost function Step(ck: Checksum, s: Run, cmd: Command): Run {
    var v := s.vol;
    match cmd
    case Put(id, cookie, data) =>
      var (w, out) := WriteNowait(ck, v, id, cookie, data);
      s.(vol := w, stored := if out == Ok then StoredAfter(ck, s.stored, id, data) else s.stored)
    case Region(id, offset, data) =>
      var (w, out) := WriteBlob(ck, v, s.disabled, id, offset, data);
      s.(vol := w,
         stored := if s.disabled && out == Ok then StoredAfter(ck, s.stored, id, Patched(s, cmd)) else s.stored)
    case Flush(id) =>
      var (w, out) := FlushOne(ck, v, id);
      s.(vol := w,
         stored := if id in v.dirty && out == Ok then StoredAfter(ck, s.stored, id, v.dirty[id].merged) else s.stored)
    case Remove(id) =>
      s.(vol := Delete(v, id).0, stored := s.stored - {id})
    case Compact(order) =>
      if ByOffset(v.index, order) && InFile(v.file, v.index, order)
      then var moved := Slide(v.file, v.index, order, DATA_OFFSET);
           s.(vol := Cleanup(v, moved.file, moved.index, moved.end))
      else s
  }

  /** The command takes in a payload that readers cannot ask for. */
  ghost predicate Oversized(ck: Checksum, s: Run, cmd: Command) {
    match cmd
    case Put(id, cookie, data) =>
      WriteNowait(ck, s.vol, id, cookie, data).1 == Ok && !Readable(|data|)
    case Region(id, offset, data) =>
      WriteBlob(ck, s.vol, s.disabled, id, offset, data).1 == Ok && !Readable(|Patched(s, cmd)|)
    case _ => false
  }

  /** The guard under which a command does what was asked: the append it needs is admitted, and skipping
      an identical append is not fooled by a checksum collision. */
  ghost predicate Faithful(ck: Checksum, s: Run, cmd: Command) {
    match cmd
    case Put(id, cookie, data) =>
      WriteNowait(ck, s.vol, id, cookie, data).1 == Ok && !Collides(ck, s.stored, id, data)
    case Region(id, offset, data) =>
      s.disabled ==>
        WriteBlob(ck, s.vol, true, id, offset, data).1 == Ok && !Collides(ck, s.stored, id, Patched(s, cmd))
    case Flush(id) =>
      id in s.vol.dirty ==> FlushOne(ck, s.vol, id).1 == Ok && !Collides(ck, s.stored, id, s.vol.dirty[id].merged)
    case _ => true
  }

  ghost predicate Same(a: map<NeedleId, Bytes>, b: map<NeedleId, Bytes>, id: NeedleId) {
    (id in a <==> id in b) && (id in a ==> a[id] == b[id])
  }

  ghost predicate Names(cmd: Command, id: NeedleId) {
    !cmd.Compact? && cmd.id == id
  }

  lemma UpdateFrames(m: map<NeedleId, Bytes>, n: map<NeedleId, Bytes>, id: NeedleId, data: Bytes)
    requires n == m[id := data]
    ensures forall other :: other != id ==> Same(n, m, other)
    ensures forall other :: Same(m, m, other)
  {}

  lemma PutFrames(ck: Checksum, s: Run, cmd: Command)
    requires Valid(ck, s.vol, s.stored) && HasId(cmd) && cmd.Put?
    ensures var t := Step(ck, s, cmd);
            forall id :: id != cmd.id ==> Same(View(t.vol, t.stored), View(s.vol, s.stored), id)
    ensures s.vol.dirty == map[] ==> Step(ck, s, cmd).vol.dirty == map[]
  {
    hide Valid, WriteNowait, ValidUnless;
    FullWriteStores(ck, s.vol, s.stored, cmd.id, cmd.cookie, cmd.data);
  }

  lemma DropFrames(dirty: map<NeedleId, Dirty>, stored: map<NeedleId, Bytes>, id: NeedleId)
    ensures forall other :: other != id ==> Same(stored + Merged(dirty - {id}), stored + Merged(dirty), other)
  {}

  /** What a step of a good run comes to. */
  ghost predicate StepOk(ck: Checksum, s: Run, cmd: Command) {
    var t := Step(ck, s, cmd);
    && (Good(ck, t) <==> !Oversized(ck, s, cmd))
    && (Good(ck, t) && Faithful(ck, s, cmd) ==> View(t.vol, t.stored) == Apply(View(s.vol, s.stored), cmd))
    && (Good(ck, t) ==> forall id :: !Names(cmd, id) ==> Same(View(t.vol, t.stored), View(s.vol, s.stored), id))
  }

  lemma PutRefines(ck: Checksum, s: Run, cmd: Command)
    requires Good(ck, s) && HasId(cmd) && cmd.Put?
    ensures StepOk(ck, s, cmd)
  {
    hide Valid, WriteNowait, Collides, Merged, Same;
    FullWriteRefines(ck, s.vol, s.stored, cmd.id, cmd.cookie, cmd.data);
    FullWriteStores(ck, s.vol, s.stored, cmd.id, cmd.cookie, cmd.data);
    var view := View(s.vol, s.stored);
    UpdateFrames(view, view[cmd.id := cmd.data], cmd.id, cmd.data);
    PutFrames(ck, s, cmd);
  }

  lemma FlushStepRefines(ck: Checksum, s: Run, cmd: Command)
    requires Good(ck, s) && cmd.Flush?
    ensures StepOk(ck, s, cmd)
  {
    hide Valid, Collides, Merged, FlushEntry;
    if cmd.id in s.vol.dirty {
      hide FlushOne;
      FlushRefines(ck, s.vol, s.stored, cmd.id);
      MergedDrop(s.vol.dirty, {cmd.id});
      DropFrames(s.vol.dirty, s.stored, cmd.id);
    }
  }

  lemma RegionRefines(ck: Checksum, s: Run, cmd: Command)
    requires Good(ck, s) && HasId(cmd) && cmd.Region?
    ensures StepOk(ck, s, cmd)
  {
    hide Valid, View, WriteBlob, Patch, Known, Collides, Same;
    var view := View(s.vol, s.stored);
    UpdateFrames(view, view[cmd.id := Patched(s, cmd)], cmd.id, Patched(s, cmd));
    if s.disabled {
      SynchronousBlobRefines(ck, s.vol, s.stored, cmd.id, cmd.offset, cmd.data);
    } else {
      BlobRefines(ck, s.vol, s.stored, cmd.id, cmd.offset, cmd.data);
    }
  }

  lemma RemoveRefines(ck: Checksum, s: Run, cmd: Command)
    requires Good(ck, s) && cmd.Remove?
    ensures StepOk(ck, s, cmd)
  {
    hide Valid, View, Delete;
    DeleteRefines(ck, s.vol, s.stored, cmd.id);
    DeleteAnswers(s.vol, cmd.id);
  }

  lemma CompactStepRefines(ck: Checksum, s: Run, cmd: Command)
    requires Good(ck, s) && cmd.Compact?
    ensures StepOk(ck, s, cmd)
  {
    hide Valid, View, Slide, ByOffset, InFile, Truncate, PackedFrom;
    if ByOffset(s.vol.index, cmd.order) {
      CompactRefines(ck, s.vol, s.stored, cmd.order);
    }
  }

  /** A command keeps the run good exactly unless it takes in an oversized payload.  It then does what was
      asked whenever its guard holds, and -- guard or no guard -- leaves every needle it does not name
      exactly as it was. */
  lemma StepRefines(ck: Checksum, s: Run, cmd: Command)
    requires Good(ck, s) && HasId(cmd)
    ensures StepOk(ck, s, cmd)
  {
    hide Good, StepOk;
    match cmd
    case Put(_, _, _) => PutRefines(ck, s, cmd);
    case Flush(_) => FlushStepRefines(ck, s, cmd);
    case Region(_, _, _) => RegionRefines(ck, s, cmd);
    case Remove(_) => RemoveRefines(ck, s, cmd);
    case Compact(_) => CompactStepRefines(ck, s, cmd);
  }

  ghost function StepAll(ck: Checksum, s: Run, cmds: seq<Command>): Run
    decreases |cmds|
  {
    if cmds == [] then s else StepAll(ck, Step(ck, s, cmds[0]), cmds[1..])
  }

  ghost function ApplyAll(m: map<NeedleId, Bytes>, cmds: seq<Command>): map<NeedleId, Bytes>
    decreases |cmds|
  {
    if cmds == [] then m else ApplyAll(Apply(m, cmds[0]), cmds[1..])
  }

  // ---------- open and closed ----------

  /** The command finds no room. */
  ghost predicate RunsOut(ck: Checksum, s: Run, cmd: Command) {
    match cmd
    case Put(id, cookie, data) => WriteNowait(ck, s.vol, id, cookie, data).1 == OutOfSpace
    case Region(id, offset, data) => WriteBlob(ck, s.vol, s.disabled, id, offset, data).1 == OutOfSpace
    case Flush(id) => FlushOne(ck, s.vol, id).1 == OutOfSpace
    case _ => false
  }

  /** The state machine of a volume under every command: lack of room closes it, the deletion of a stored needle opens
      it again, and nothing else does either -- compaction in particular does not reopen it, however much it frees. */
  lemma StateMoves(ck: Checksum, s: Run, cmd: Command)
    requires cmd.Remove? ==> Good(ck, s)
    ensures var t := Step(ck, s, cmd);
            t.vol.state ==
              if s.vol.state == Available && RunsOut(ck, s, cmd) then Full
              else if s.vol.state == Full && cmd.Remove? && cmd.id in s.vol.index then Available
              else s.vol.state
    ensures RunsOut(ck, s, cmd) ==> s.vol.state == Available
  {
    hide WriteNowait, WriteBlob, FlushEntry, Slide, Delete, Valid;
    match cmd
    case Put(id, cookie, data) => WritesClose(ck, s.vol, s.disabled, id, cookie, 0, data, Dirty([], true));
    case Region(id, offset, data) => WritesClose(ck, s.vol, s.disabled, id, 0, offset, data, Dirty([], true));
    case Flush(id) =>
      if id in s.vol.dirty {
        WritesClose(ck, s.vol.(dirty := s.vol.dirty - {id}), s.disabled, id, 0, 0, [], s.vol.dirty[id]);
      }
    case Remove(id) => StateAfterDelete(ck, s.vol, s.stored, id);
    case Compact(order) =>
  }

  /** So a full volume stays full over every run that removes nothing ... */
  lemma {:induction false} FullUntilRemoved(ck: Checksum, s: Run, cmds: seq<Command>)
    requires s.vol.state == Full && forall i :: 0 <= i < |cmds| ==> !cmds[i].Remove?
    ensures StepAll(ck, s, cmds).vol.state == Full
    decreases |cmds|
  {
    hide Step;
    if cmds != [] {
      StateMoves(ck, s, cmds[0]);
      FullUntilRemoved(ck, Step(ck, s, cmds[0]), cmds[1..]);
    }
  }

  /** ... even when compaction has made every free byte of it writable. */
  lemma CompactionLeavesClosed(ck: Checksum, s: Run, order: seq<NeedleId>, id: NeedleId, cookie: nat, data: Bytes)
    requires Good(ck, s) && s.vol.state == Full && ByOffset(s.vol.index, order)
    ensures var t := Step(ck, s, Compact(order));
            && t.vol.alloc.appendOffset + t.vol.alloc.free == t.vol.size + DATA_OFFSET
            && t.vol.alloc.used == s.vol.alloc.used && t.vol.alloc.garbage == 0
            && WriteNowait(ck, t.vol, id, cookie, data).1 == InvalidState
  {
    CompactRefines(ck, s.vol, s.stored, order);
    hide Slide, ByOffset, InFile, Stored, Disjoint, Bounded, View, Publish;
  }

  /** The guard holds for every command of the run that names the needle. */
  ghost predicate FaithfulTo(ck: Checksum, s: Run, cmds: seq<Command>, id: NeedleId)
    decreases |cmds|
  {
    cmds == [] || ((Names(cmds[0], id) ==> Faithful(ck, s, cmds[0])) &&
                   FaithfulTo(ck, Step(ck, s, cmds[0]), cmds[1..], id))
  }

  /** No command of the run takes in an oversized payload. */
  ghost predicate NoneOversized(ck: Checksum, s: Run, cmds: seq<Command>)
    decreases |cmds|
  {
    cmds == [] || (!Oversized(ck, s, cmds[0]) && NoneOversized(ck, Step(ck, s, cmds[0]), cmds[1..]))
  }

  lemma ApplySame(a: map<NeedleId, Bytes>, b: map<NeedleId, Bytes>, cmd: Command, id: NeedleId)
    requires Same(a, b, id)
    ensures Same(Apply(a, cmd), Apply(b, cmd), id)
    ensures !Names(cmd, id) ==> Same(Apply(b, cmd), b, id)
  {}

  lemma SameTrans(a: map<NeedleId, Bytes>, b: map<NeedleId, Bytes>, c: map<NeedleId, Bytes>, id: NeedleId)
    requires Same(a, b, id) && Same(b, c, id)
    ensures Same(a, c, id) && Same(c, a, id)
  {}

  lemma {:induction false} RunRefinesOne(ck: Checksum, s: Run, cmds: seq<Command>, m: map<NeedleId, Bytes>,
                                         id: NeedleId)
    requires Good(ck, s) && (forall i :: 0 <= i < |cmds| ==> HasId(cmds[i])) && NoneOversized(ck, s, cmds)
    requires Same(View(s.vol, s.stored), m, id) && FaithfulTo(ck, s, cmds, id)
    ensures var t := StepAll(ck, s, cmds); Same(View(t.vol, t.stored), ApplyAll(m, cmds), id)
    decreases |cmds|
  {
    hide Good, View, Step, Faithful, Apply, Same, Oversized;
    if cmds != [] {
      var t := Step(ck, s, cmds[0]);
      var before, after := View(s.vol, s.stored), View(t.vol, t.stored);
      StepRefines(ck, s, cmds[0]);
      ApplySame(before, m, cmds[0], id);
      if !Names(cmds[0], id) {
        SameTrans(after, before, m, id);
        SameTrans(Apply(m, cmds[0]), m, after, id);
      }
      RunRefinesOne(ck, t, cmds[1..], Apply(m, cmds[0]), id);
    }
  }

  lemma SameSelf(m: map<NeedleId, Bytes>, id: NeedleId)
    ensures Same(m, m, id)
  {}

  lemma {:induction false} RunStaysGood(ck: Checksum, s: Run, cmds: seq<Command>)
    requires Good(ck, s) && (forall i :: 0 <= i < |cmds| ==> HasId(cmds[i])) && NoneOversized(ck, s, cmds)
    ensures Good(ck, StepAll(ck, s, cmds))
    decreases |cmds|
  {
    hide Good, View, Step, Faithful, Apply, Same, Oversized;
    if cmds != [] {
      StepRefines(ck, s, cmds[0]);
      RunStaysGood(ck, Step(ck, s, cmds[0]), cmds[1..]);
    }
  }

  /** The volume refines a map: over any run, what it holds is what the same commands do to a plain map --
      through any interleaving of buffering, flushing, overwriting, deleting and compacting, with or without
      coalescing.  A command that fails spoils the needle it names and no other. */
  lemma RunRefines(ck: Checksum, s: Run, cmds: seq<Command>)
    requires Good(ck, s) && (forall i :: 0 <= i < |cmds| ==> HasId(cmds[i])) && NoneOversized(ck, s, cmds)
    ensures var t := StepAll(ck, s, cmds);
            var view, expected := View(t.vol, t.stored), ApplyAll(View(s.vol, s.stored), cmds);
            && Good(ck, t)
            && (forall id :: FaithfulTo(ck, s, cmds, id) ==> Same(view, expected, id))
            && ((forall id :: FaithfulTo(ck, s, cmds, id)) ==> view == expected)
  {
    hide Good, View, Step, StepAll, ApplyAll, Same, NoneOversized, FaithfulTo;
    RunStaysGood(ck, s, cmds);
    var t := StepAll(ck, s, cmds);
    var view, expected := View(t.vol, t.stored), ApplyAll(View(s.vol, s.stored), cmds);
    forall id | FaithfulTo(ck, s, cmds, id)
      ensures Same(view, expected, id)
    {
      SameSelf(View(s.vol, s.stored), id);
      RunRefinesOne(ck, s, cmds, View(s.vol, s.stored), id);
    }
    if forall id :: FaithfulTo(ck, s, cmds, id) {
      SameEverywhere(view, expected);
    }
  }

  lemma SameEverywhere(a: map<NeedleId, Bytes>, b: map<NeedleId, Bytes>)
    requires forall id :: Same(a, b, id)
    ensures a == b
  {
    forall id | id in a
      ensures id in b && a[id] == b[id]
    {
      assert Same(a, b, id);
    }
    forall id | id in b
      ensures id in a
    {
      assert Same(a, b, id);
    }
  }

  // ---------- needles left alone ----------

  /** Extents apart from each other, inside the file and below the append offset. */
  ghost predicate Solid(v: Vol) {
    && Disjoint(v.index) && DATA_OFFSET <= v.alloc.appendOffset <= v.size + DATA_OFFSET
    && forall id :: id in v.index ==>
         DATA_OFFSET <= v.index[id].offset && End(v.index[id]) <= v.alloc.appendOffset && End(v.index[id]) <= |v.file|
  }

  /** The needle is stored as `held` and buffered as `buffered`, or is not. */
  ghost predicate Rests(ck: Checksum, v: Vol, id: NeedleId, held: Option<Bytes>, buffered: Option<Dirty>) {
    && Solid(v)
    && (if held.Some? then id in v.index && ImageAt(ck, v.file, id, v.index[id], held.value) else id !in v.index)
    && (if buffered.Some? then id in v.dirty && v.dirty[id] == buffered.value else id !in v.dirty)
  }

  lemma RestsReads(ck: Checksum, v: Vol, id: NeedleId, held: Option<Bytes>, buffered: Option<Dirty>)
    requires Rests(ck, v, id, held, buffered)
    ensures ReadNeedle(ck, v, id) == if buffered.Some? then Data(buffered.value.merged)
                                     else if held.Some? then Data(held.value) else Missing
  {
    hide FromBytes, ToBytes, Disjoint;
    if held.Some? {
      ImageParses(ck, v.file, id, v.index[id], held.value);
      assert ReadLength(v.index[id]) == Size(v.index[id].dataSize);
    }
  }

  lemma PublishIsSolid(ck: Checksum, v: Vol, id: NeedleId, data: Bytes, cookie: nat)
    requires Solid(v) && v.alloc.appendOffset + Size(|data|) <= v.size + DATA_OFFSET
    ensures Solid(Publish(ck, v, id, data, cookie))
  {
    hide ToBytes, Patch;
  }

  lemma PublishRests(ck: Checksum, v: Vol, other: NeedleId, data: Bytes, cookie: nat, id: NeedleId, held: Option<Bytes>,
                     buffered: Option<Dirty>)
    requires Rests(ck, v, id, held, buffered) && other != id
    requires v.alloc.appendOffset + Size(|data|) <= v.size + DATA_OFFSET
    ensures Rests(ck, Publish(ck, v, other, data, cookie), id, held, buffered)
  {
    hide ImageAt, ToBytes, Patch, Disjoint;
    PublishIsSolid(ck, v, other, data, cookie);
    hide Solid;
    if held.Some? {
      assert End(v.index[id]) <= v.alloc.appendOffset by { RestsBelow(ck, v, id, held, buffered); }
      ImageKept(ck, v.file, v.alloc.appendOffset, ToBytes(NewNeedle(ck, other, data)), id, v.index[id], held.value);
    }
  }

  lemma RestsBelow(ck: Checksum, v: Vol, id: NeedleId, held: Option<Bytes>, buffered: Option<Dirty>)
    requires Rests(ck, v, id, held, buffered) && held.Some?
    ensures End(v.index[id]) <= v.alloc.appendOffset
  {}

  /** Marking the volume full or dropping or replacing another needle's buffer disturbs nothing. */
  lemma BufferRests(ck: Checksum, v: Vol, dirty: map<NeedleId, Dirty>, state: VolumeState, id: NeedleId,
                    held: Option<Bytes>, buffered: Option<Dirty>)
    requires Rests(ck, v, id, held, buffered)
    requires (id in dirty <==> id in v.dirty) && (id in dirty ==> dirty[id] == v.dirty[id])
    ensures Rests(ck, v.(dirty := dirty, state := state), id, held, buffered)
  {
    hide ImageAt;
  }

  lemma WriteRests(ck: Checksum, v: Vol, other: NeedleId, cookie: nat, data: Bytes, id: NeedleId, held: Option<Bytes>,
                   buffered: Option<Dirty>)
    requires Rests(ck, v, id, held, buffered) && other != id
    ensures Rests(ck, WriteNowait(ck, v, other, cookie, data).0, id, held, buffered)
  {
    hide Rests, Publish, Identical;
    var u := v.(dirty := v.dirty - {other});
    BufferRests(ck, v, u.dirty, v.state, id, held, buffered);
    BufferRests(ck, u, u.dirty, Full, id, held, buffered);
    if u.alloc.appendOffset + Size(|data|) <= u.size + DATA_OFFSET {
      PublishRests(ck, u, other, data, cookie, id, held, buffered);
    }
  }

  lemma AppendRests(ck: Checksum, v: Vol, other: NeedleId, data: Bytes, id: NeedleId, held: Option<Bytes>,
                    buffered: Option<Dirty>)
    requires Rests(ck, v, id, held, buffered) && other != id && other in v.index
    ensures Rests(ck, AppendVersion(ck, v, other, data).0, id, held, buffered)
  {
    hide Rests, Publish, Identical;
    BufferRests(ck, v, v.dirty, Full, id, held, buffered);
    if v.alloc.appendOffset + Size(|data|) <= v.size + DATA_OFFSET {
      PublishRests(ck, v, other, data, v.index[other].cookie, id, held, buffered);
    }
  }

  lemma FlushRests(ck: Checksum, v: Vol, other: NeedleId, entry: Dirty, id: NeedleId, held: Option<Bytes>,
                   buffered: Option<Dirty>)
    requires Rests(ck, v, id, held, buffered) && other != id
    ensures Rests(ck, FlushEntry(ck, v, other, entry).0, id, held, buffered)
  {
    hide Rests, WriteNowait, AppendVersion;
    if entry.isNew || other !in v.index {
      WriteRests(ck, v, other, 0, entry.merged, id, held, buffered);
    } else {
      AppendRests(ck, v, other, entry.merged, id, held, buffered);
    }
  }

  lemma MergeRests(ck: Checksum, v: Vol, disabled: bool, other: NeedleId, entry: Dirty, id: NeedleId,
                   held: Option<Bytes>, buffered: Option<Dirty>)
    requires Rests(ck, v, id, held, buffered) && other != id
    ensures Rests(ck, Merge(ck, v, disabled, other, entry).0, id, held, buffered)
  {
    hide Rests, FlushEntry;
    FlushRests(ck, v, other, entry, id, held, buffered);
    BufferRests(ck, v, v.dirty[other := entry], v.state, id, held, buffered);
  }

  lemma BlobRests(ck: Checksum, v: Vol, disabled: bool, other: NeedleId, offset: nat, data: Bytes, id: NeedleId,
                  held: Option<Bytes>, buffered: Option<Dirty>)
    requires Rests(ck, v, id, held, buffered) && other != id
    ensures Rests(ck, WriteBlob(ck, v, disabled, other, offset, data).0, id, held, buffered)
  {
    hide Rests, FlushEntry, Patch, FromBytes, Merge;
    if other in v.dirty {
      FlushRests(ck, v, other, Dirty(Patch([], offset, data), true), id, held, buffered);
      var entry := v.dirty[other].(merged := Patch(v.dirty[other].merged, offset, data));
      BufferRests(ck, v, v.dirty[other := entry], v.state, id, held, buffered);
    } else if other in v.index && ReadImage(v, v.index[other]).Data? {
      var parsed := FromBytes(ck, ReadImage(v, v.index[other]).bytes);
      if parsed.Parsed? {
        MergeRests(ck, v, disabled, other, Dirty(Patch(parsed.needle.data, offset, data), false), id, held, buffered);
      }
    } else {
      MergeRests(ck, v, disabled, other, Dirty(Patch([], offset, data), true), id, held, buffered);
    }
  }

  lemma DeleteRests(ck: Checksum, v: Vol, other: NeedleId, id: NeedleId, held: Option<Bytes>, buffered: Option<Dirty>)
    requires Rests(ck, v, id, held, buffered) && other != id
    ensures Rests(ck, Delete(v, other).0, id, held, buffered)
  {
    hide ImageAt;
  }

  lemma CleanupIsSolid(v: Vol, order: seq<NeedleId>)
    requires Solid(v) && ByOffset(v.index, order) && InFile(v.file, v.index, order)
    ensures Pending(v.index, order, DATA_OFFSET) && Distinct(order)
    ensures var s := Slide(v.file, v.index, order, DATA_OFFSET);
            Solid(Cleanup(v, s.file, s.index, s.end)) && s.index.Keys == v.index.Keys && Pending(s.index, [], s.end)
  {
    OrderIsPending(v.index, order);
    OrderLists(v.index, order);
    SlidePends(v.file, v.index, order, DATA_OFFSET);
    SlideTouches(v.file, v.index, order, DATA_OFFSET);
    SlidePacks(v.file, v.index, order, DATA_OFFSET);
    SlideEnds(v.file, v.index, order, DATA_OFFSET);
    var s := Slide(v.file, v.index, order, DATA_OFFSET);
    SlidDisjoint(s.index, order, DATA_OFFSET);
    PackedIsDisjoint(s.index, order, DATA_OFFSET);
    FitsIn(v, order);
    hide Slide, ByOffset, InFile, Disjoint, PackedFrom, Length, Truncate;
    forall id | id in s.index
      ensures DATA_OFFSET <= s.index[id].offset && End(s.index[id]) <= s.end
    {
      var i :| 0 <= i < |order| && order[i] == id;
    }
  }

  lemma FitsIn(v: Vol, order: seq<NeedleId>)
    requires Solid(v) && Pending(v.index, order, DATA_OFFSET) && AllIn(v.index, order)
    ensures DATA_OFFSET + Length(order, v.index) <= v.alloc.appendOffset
  {
    forall i | 0 <= i < |order|
      ensures DATA_OFFSET <= v.index[order[i]].offset && End(v.index[order[i]]) <= v.alloc.appendOffset
    {
      var id := order[i];
      assert id in v.index;
    }
    FitsBetween(v.index, order, DATA_OFFSET, v.alloc.appendOffset);
  }

  lemma CompactRests(ck: Checksum, v: Vol, order: seq<NeedleId>, id: NeedleId, held: Option<Bytes>,
                     buffered: Option<Dirty>)
    requires Rests(ck, v, id, held, buffered) && ByOffset(v.index, order) && InFile(v.file, v.index, order)
    ensures Distinct(order)
    ensures var s := Slide(v.file, v.index, order, DATA_OFFSET);
            Rests(ck, Cleanup(v, s.file, s.index, s.end), id, held, buffered)
  {
    CleanupIsSolid(v, order);
    hide Solid, ByOffset, InFile, Slide, Truncate, ImageAt, Distinct;
    var s := Slide(v.file, v.index, order, DATA_OFFSET);
    if held.Some? {
      SlideKeepsImage(ck, v.file, v.index, order, DATA_OFFSET, id, held.value);
      ImageTruncated(ck, s.file, s.end, id, s.index[id], held.value);
    }
  }

  lemma StepRests(ck: Checksum, s: Run, cmd: Command, id: NeedleId, held: Option<Bytes>, buffered: Option<Dirty>)
    requires Rests(ck, s.vol, id, held, buffered) && !Names(cmd, id)
    ensures Rests(ck, Step(ck, s, cmd).vol, id, held, buffered)
  {
    hide Rests, WriteNowait, WriteBlob, FlushEntry, Delete, ByOffset, InFile, Slide, Cleanup;
    match cmd
    case Put(other, cookie, data) => WriteRests(ck, s.vol, other, cookie, data, id, held, buffered);
    case Region(other, offset, data) => BlobRests(ck, s.vol, s.disabled, other, offset, data, id, held, buffered);
    case Flush(other) =>
      if other in s.vol.dirty {
        var u := s.vol.(dirty := s.vol.dirty - {other});
        BufferRests(ck, s.vol, u.dirty, s.vol.state, id, held, buffered);
        FlushRests(ck, u, other, s.vol.dirty[other], id, held, buffered);
      }
    case Remove(other) => DeleteRests(ck, s.vol, other, id, held, buffered);
    case Compact(order) =>
      if ByOffset(s.vol.index, order) && InFile(s.vol.file, s.vol.index, order) {
        CompactRests(ck, s.vol, order, id, held, buffered);
      }
  }

  lemma {:induction false} RunRests(ck: Checksum, s: Run, cmds: seq<Command>, id: NeedleId, held: Option<Bytes>,
                                    buffered: Option<Dirty>)
    requires Rests(ck, s.vol, id, held, buffered) && forall i :: 0 <= i < |cmds| ==> !Names(cmds[i], id)
    ensures Rests(ck, StepAll(ck, s, cmds).vol, id, held, buffered)
    decreases |cmds|
  {
    hide Rests, Step;
    if cmds != [] {
      StepRests(ck, s, cmds[0], id, held, buffered);
      RunRests(ck, Step(ck, s, cmds[0]), cmds[1..], id, held, buffered);
    }
  }

  lemma ValidRests(ck: Checksum, v: Vol, stored: map<NeedleId, Bytes>, id: NeedleId)
    requires Valid(ck, v, stored)
    ensures Rests(ck, v, id, if id in stored then Some(stored[id]) else None,
                  if id in v.dirty then Some(v.dirty[id]) else None)
  {
    hide ToBytes, Sizes, Disjoint;
    assert forall other :: other in v.index ==> ImageAt(ck, v.file, other, v.index[other], stored[other]);
  }

  /** A needle that no command of a run names reads at the end as it did at the start -- whether or not any
      command failed, and whatever the others took in. */
  lemma RunFrames(ck: Checksum, s: Run, cmds: seq<Command>, id: NeedleId)
    requires Valid(ck, s.vol, s.stored) && forall i :: 0 <= i < |cmds| ==> HasId(cmds[i]) && !Names(cmds[i], id)
    ensures ReadNeedle(ck, StepAll(ck, s, cmds).vol, id) == ReadNeedle(ck, s.vol, id)
  {
    hide Valid, Rests, StepAll, ReadNeedle;
    var held := if id in s.stored then Some(s.stored[id]) else None;
    var buffered := if id in s.vol.dirty then Some(s.vol.dirty[id]) else None;
    ValidRests(ck, s.vol, s.stored, id);
    RunRests(ck, s, cmds, id, held, buffered);
    RestsReads(ck, s.vol, id, held, buffered);
    RestsReads(ck, StepAll(ck, s, cmds).vol, id, held, buffered);
  }
}
