/** An operation that runs alone through the locks does to the volume what the volume's own functions say. */
module LocksRefine {
  import opened Bytes
  import opened Options
  import opened NeedleCodec
  import opened VolumeModel
  import L = NeedleLocks

  function RowOf(info: Info): L.Row {
    L.Row(info.offset, info.dataSize, info.checksum)
  }

  ghost predicate SameBuffers(buffers: map<NeedleId, (Bytes, bool)>, dirty: map<NeedleId, Dirty>) {
    && buffers.Keys == dirty.Keys
    && forall id :: id in dirty ==> buffers[id] == (dirty[id].merged, dirty[id].isNew)
  }

  ghost predicate SameStore(rows: map<NeedleId, L.Row>, disk: map<int, Bytes>, index: map<NeedleId, Info>, at: nat,
                            stored: map<NeedleId, Bytes>) {
    && rows.Keys == index.Keys && index.Keys <= stored.Keys
    && forall id :: id in index ==>
         rows[id] == RowOf(index[id]) && index[id].offset < at && index[id].offset in disk &&
         disk[index[id].offset] == stored[id]
  }

  /** The state of the lock protocol and the volume describe the same needles. */
  ghost predicate Mirrors(s: L.State, v: Vol, stored: map<NeedleId, Bytes>) {
    && SameBuffers(s.dirty, v.dirty) && SameStore(s.index, s.disk, v.index, v.alloc.appendOffset, stored)
    && s.appendOffset == v.alloc.appendOffset
  }

  /** Nobody is inside. */
  ghost predicate Idle(s: L.State) {
    s.threads == map[] && s.locks == map[] && s.info.None?
  }

  /** One thread takes a number of steps; once it has left, further ones change nothing. */
  ghost function Nexts(ck: Checksum, disabled: bool, s: L.State, t: L.Tid, n: nat): L.State
    decreases n
  {
    if n == 0 then s else Nexts(ck, disabled, L.Step(ck, disabled, s, L.Next(t)), t, n - 1)
  }

  /** The thread is the only one inside, at this point of its operation. */
  ghost predicate Alone(s: L.State, t: L.Tid, pc: L.Pc) {
    s.threads == map[t := pc] && s.locks == map[L.Bucket(pc.op.id) := t] && s.info.None?
  }

  // ---------- one step at a time ----------

  lemma {:induction false} NothingLeft(ck: Checksum, disabled: bool, s: L.State, t: L.Tid, n: nat)
    requires t !in s.threads
    ensures Nexts(ck, disabled, s, t, n) == s
  {
    if n > 0 {
      NothingLeft(ck, disabled, s, t, n - 1);
    }
  }

  lemma Leaves(ck: Checksum, disabled: bool, s: L.State, t: L.Tid, op: L.Op, n: nat)
    requires Alone(s, t, L.Finished(op)) && n > 0
    ensures Nexts(ck, disabled, s, t, n) == s.(threads := map[], locks := map[])
  {
    hide L.Bucket;
    assert map[t := L.Finished(op)] - {t} == map[];
    assert map[L.Bucket(op.id) := t] - {L.Bucket(op.id)} == map[];
    NothingLeft(ck, disabled, L.Step(ck, disabled, s, L.Next(t)), t, n - 1);
  }

  lemma Goes(s: L.State, t: L.Tid, pc: L.Pc, next: L.Pc)
    requires s.threads == map[t := pc]
    ensures L.Goto(s, t, next).threads == map[t := next]
  {}

  /** The state after a payload has gone through the append path. */
  ghost function Written(ck: Checksum, s: L.State, op: L.Op, data: Bytes, isNew: bool): L.State {
    var u := s.(dirty := if isNew then s.dirty - {op.id} else s.dirty, threads := map[], locks := map[]);
    if L.Identical(ck, s, op.id, data) && s.index[op.id].offset in s.disk
    then u.(spoiled := if s.disk[s.index[op.id].offset] == data then s.spoiled else s.spoiled + {op.id})
    else u.(disk := s.disk[s.appendOffset := data],
            index := s.index[op.id := L.Row(s.appendOffset, |data| % U32_LIMIT, ck(data))],
            appendOffset := s.appendOffset + Size(|data|),
            spoiled := if Readable(|data|) then s.spoiled else s.spoiled + {op.id})
  }

  lemma WritingEnds(ck: Checksum, disabled: bool, s: L.State, t: L.Tid, op: L.Op, data: Bytes, isNew: bool, n: nat)
    requires Alone(s, t, L.Writing(op, data, isNew)) && n >= 4
    ensures Nexts(ck, disabled, s, t, n) == Written(ck, s, op, data, isNew)
  {
    hide L.Bucket;
    var a := L.Step(ck, disabled, s, L.Next(t));
    Goes(s.(info := Some(t), dirty := if isNew then s.dirty - {op.id} else s.dirty), t, L.Writing(op, data, isNew),
         L.Appending(op, data));
    assert a.threads == map[t := L.Appending(op, data)];
    AppendingEnds(ck, disabled, a, t, op, data, n - 1);
  }

  lemma AppendingEnds(ck: Checksum, disabled: bool, s: L.State, t: L.Tid, op: L.Op, data: Bytes, n: nat)
    requires s.threads == map[t := L.Appending(op, data)] && s.locks == map[L.Bucket(op.id) := t] && n >= 3
    ensures Nexts(ck, disabled, s, t, n) == Written(ck, s, op, data, false).(info := None)
  {
    hide L.Bucket, Nexts;
    NextsOne(ck, disabled, s, t, n);
    var a := L.Step(ck, disabled, s, L.Next(t));
    if L.Identical(ck, s, op.id, data) && s.index[op.id].offset in s.disk {
      assert a.threads == map[t := L.Finished(op)];
      Leaves(ck, disabled, a, t, op, n - 1);
    } else {
      assert a.threads == map[t := L.Appended(op, data, s.appendOffset)];
      AppendedEnds(ck, disabled, a, t, op, data, s.appendOffset, n - 1);
    }
  }

  lemma AppendedEnds(ck: Checksum, disabled: bool, s: L.State, t: L.Tid, op: L.Op, data: Bytes, at: int, n: nat)
    requires s.threads == map[t := L.Appended(op, data, at)] && s.locks == map[L.Bucket(op.id) := t] && n >= 2
    ensures Nexts(ck, disabled, s, t, n) ==
            s.(threads := map[], locks := map[], info := None,
               index := s.index[op.id := L.Row(at, |data| % U32_LIMIT, ck(data))],
               appendOffset := s.appendOffset + Size(|data|),
               spoiled := if Readable(|data|) then s.spoiled else s.spoiled + {op.id})
  {
    hide L.Bucket, Nexts;
    NextsOne(ck, disabled, s, t, n);
    var b := L.Step(ck, disabled, s, L.Next(t));
    assert b.threads == map[t := L.Finished(op)];
    Leaves(ck, disabled, b, t, op, n - 1);
  }

  lemma NextsOne(ck: Checksum, disabled: bool, s: L.State, t: L.Tid, n: nat)
    requires n > 0
    ensures Nexts(ck, disabled, s, t, n) == Nexts(ck, disabled, L.Step(ck, disabled, s, L.Next(t)), t, n - 1)
  {
    hide L.Step;
  }

  /** The append is refused before the info lock is taken, or under it. */
  lemma FailsWriting(ck: Checksum, disabled: bool, s: L.State, t: L.Tid, op: L.Op, data: Bytes, isNew: bool)
    requires Alone(s, t, L.Writing(op, data, isNew))
    ensures Nexts(ck, disabled, L.Step(ck, disabled, s, L.Fail(t)), t, 1)
         == s.(threads := map[], locks := map[], spoiled := s.spoiled + {op.id})
  {
    hide L.Bucket;
    var a := L.Step(ck, disabled, s, L.Fail(t));
    assert a.threads == map[t := L.Finished(op)];
    Leaves(ck, disabled, a, t, op, 1);
  }

  lemma FailsAppending(ck: Checksum, disabled: bool, s: L.State, t: L.Tid, op: L.Op, data: Bytes, isNew: bool)
    requires Alone(s, t, L.Writing(op, data, isNew))
    ensures Nexts(ck, disabled, L.Step(ck, disabled, L.Step(ck, disabled, s, L.Next(t)), L.Fail(t)), t, 1)
         == s.(dirty := if isNew then s.dirty - {op.id} else s.dirty, threads := map[], locks := map[],
               spoiled := s.spoiled + {op.id})
  {
    hide L.Bucket, Nexts;
    var a := L.Step(ck, disabled, s, L.Next(t));
    assert a.threads == map[t := L.Appending(op, data)];
    var b := L.Step(ck, disabled, a, L.Fail(t));
    assert b.threads == map[t := L.Finished(op)];
    Leaves(ck, disabled, b, t, op, 1);
  }

  // ---------- the append path against the volume ----------

  lemma BufferGone(buffers: map<NeedleId, (Bytes, bool)>, dirty: map<NeedleId, Dirty>, id: NeedleId)
    requires SameBuffers(buffers, dirty)
    ensures SameBuffers(buffers - {id}, dirty - {id})
  {}

  lemma BufferPut(buffers: map<NeedleId, (Bytes, bool)>, dirty: map<NeedleId, Dirty>, id: NeedleId, entry: Dirty)
    requires SameBuffers(buffers, dirty)
    ensures SameBuffers(buffers[id := (entry.merged, entry.isNew)], dirty[id := entry])
  {}

  lemma RowPut(rows: map<NeedleId, L.Row>, disk: map<int, Bytes>, index: map<NeedleId, Info>, at: nat,
               stored: map<NeedleId, Bytes>, id: NeedleId, info: Info, data: Bytes)
    requires SameStore(rows, disk, index, at, stored) && info.offset == at
    ensures SameStore(rows[id := RowOf(info)], disk[at := data], index[id := info], at + Size(|data|),
                      stored[id := data])
  {}

  lemma SameRow(ck: Checksum, s: L.State, v: Vol, stored: map<NeedleId, Bytes>, id: NeedleId, data: Bytes)
    requires Mirrors(s, v, stored)
    ensures (L.Identical(ck, s, id, data) && s.index[id].offset in s.disk) <==> Identical(ck, v, id, data)
  {}

  lemma MirrorsWritten(ck: Checksum, s: L.State, v: Vol, stored: map<NeedleId, Bytes>, op: L.Op, data: Bytes,
                       isNew: bool, cookie: nat)
    requires Mirrors(s, v, stored)
    ensures var e, u := Written(ck, s, op, data, isNew), v.(dirty := if isNew then v.dirty - {op.id} else v.dirty);
            if Identical(ck, v, op.id, data) then Mirrors(e, u, stored)
            else Mirrors(e, Publish(ck, u, op.id, data, cookie), stored[op.id := data])
  {
    SameRow(ck, s, v, stored, op.id, data);
    hide SameBuffers, SameStore, ToBytes, Patch, L.Identical, Identical;
    BufferGone(s.dirty, v.dirty, op.id);
    var at := v.alloc.appendOffset;
    RowPut(s.index, s.disk, v.index, at, stored, op.id, Info(at, |data| % U32_LIMIT, ck(data), cookie), data);
  }

  // ---------- whole operations ----------

  /** The operation from the stripe lock to its release, with the append refused when the volume refuses it. */
  ghost function Solo(ck: Checksum, disabled: bool, s: L.State, t: L.Tid, op: L.Op, out: Outcome): L.State {
    var a := L.Step(ck, disabled, s, L.Acquire(t, op));
    if out == Ok then Nexts(ck, disabled, a, t, 8)
    else
      var k := (if op.Region? then 4 else 1) + if out == InvalidState then 0 else 1;
      Nexts(ck, disabled, L.Step(ck, disabled, Nexts(ck, disabled, a, t, k), L.Fail(t)), t, 1)
  }

  lemma Enters(ck: Checksum, disabled: bool, s: L.State, t: L.Tid, op: L.Op)
    requires Idle(s)
    ensures Alone(L.Step(ck, disabled, s, L.Acquire(t, op)), t, L.Locked(op))
  {
    hide L.Bucket;
  }

  /** What is left to do once the payload waits for the info lock; `rest` steps have been taken before. */
  ghost function Rest(ck: Checksum, disabled: bool, s: L.State, t: L.Tid, out: Outcome, rest: nat): L.State
    requires rest <= 4
  {
    if out == Ok then Nexts(ck, disabled, s, t, 8 - rest)
    else if out == InvalidState then Nexts(ck, disabled, L.Step(ck, disabled, s, L.Fail(t)), t, 1)
    else Nexts(ck, disabled, L.Step(ck, disabled, L.Step(ck, disabled, s, L.Next(t)), L.Fail(t)), t, 1)
  }

  /** The volume's append path for a payload that is new or replaces an indexed one. */
  function AppendPath(ck: Checksum, v: Vol, id: NeedleId, cookie: nat, data: Bytes, isNew: bool): (Vol, Outcome) {
    if isNew || id !in v.index then WriteNowait(ck, v, id, cookie, data) else AppendVersion(ck, v, id, data)
  }

  /** From there on the protocol does what the volume's append path does. */
  lemma RestMirrors(ck: Checksum, disabled: bool, s: L.State, v: Vol, stored: map<NeedleId, Bytes>, t: L.Tid, op: L.Op,
                    cookie: nat, data: Bytes, isNew: bool, rest: nat)
    requires Alone(s, t, L.Writing(op, data, isNew)) && Mirrors(s, v, stored) && Valid(ck, v, stored)
    requires rest <= 4 && (!isNew ==> op.id !in v.dirty)
    ensures var (w, out) := AppendPath(ck, v, op.id, cookie, data, isNew);
            var e := Rest(ck, disabled, s, t, out, rest);
            Idle(e) && Mirrors(e, w, if out == Ok then StoredAfter(ck, stored, op.id, data) else stored)
  {
    hide AppendPath, Valid, Publish, Nexts, StoredAfter, Alone, SameBuffers, SameStore, Identical, Written, L.Step;
    var (w, out) := AppendPath(ck, v, op.id, cookie, data, isNew);
    AppendPathIs(ck, v, op.id, cookie, data, isNew);
    SkippedIsStored(ck, v, stored, op.id, data);
    BufferGone(s.dirty, v.dirty, op.id);
    if out == Ok {
      WritingEnds(ck, disabled, s, t, op, data, isNew, 8 - rest);
      WrittenLeaves(ck, s, t, op, data, isNew);
      MirrorsWritten(ck, s, v, stored, op, data, isNew,
                     if isNew || op.id !in v.index then cookie else v.index[op.id].cookie);
    } else if out == InvalidState {
      FailsWriting(ck, disabled, s, t, op, data, isNew);
      NobodyElse(s, t, op, data, isNew);
    } else {
      FailsAppending(ck, disabled, s, t, op, data, isNew);
      NobodyElse(s, t, op, data, isNew);
    }
  }

  lemma NobodyElse(s: L.State, t: L.Tid, op: L.Op, data: Bytes, isNew: bool)
    requires Alone(s, t, L.Writing(op, data, isNew))
    ensures s.info.None?
  {}

  lemma AppendPathIs(ck: Checksum, v: Vol, id: NeedleId, cookie: nat, data: Bytes, isNew: bool)
    requires !isNew ==> id !in v.dirty
    ensures var (w, out) := AppendPath(ck, v, id, cookie, data, isNew);
            var u := v.(dirty := if isNew then v.dirty - {id} else v.dirty);
            && (out == Ok ==>
                  w == if Identical(ck, v, id, data) then u
                       else Publish(ck, u, id, data, if isNew || id !in v.index then cookie else v.index[id].cookie))
            && (out == InvalidState ==> w == v)
            && (out != Ok && out != InvalidState ==> w.(state := u.state) == u)
  {
    hide Publish;
    if !isNew {
      assert v.dirty - {id} == v.dirty;
    }
  }

  lemma WrittenLeaves(ck: Checksum, s: L.State, t: L.Tid, op: L.Op, data: Bytes, isNew: bool)
    requires Alone(s, t, L.Writing(op, data, isNew))
    ensures Idle(Written(ck, s, op, data, isNew))
  {}

  lemma SoloRest(ck: Checksum, disabled: bool, s: L.State, t: L.Tid, op: L.Op, out: Outcome, a: L.State, k: nat)
    requires k == if op.Region? then 4 else 1
    requires a == Nexts(ck, disabled, L.Step(ck, disabled, s, L.Acquire(t, op)), t, k)
    ensures Solo(ck, disabled, s, t, op, out) == Rest(ck, disabled, a, t, out, k)
  {
    hide L.Step;
    var b := L.Step(ck, disabled, s, L.Acquire(t, op));
    NextsAdd(ck, disabled, b, t, k, 8 - k);
    NextsAdd(ck, disabled, b, t, k, 1);
    assert Nexts(ck, disabled, a, t, 1) == L.Step(ck, disabled, a, L.Next(t));
  }

  lemma {:induction false} NextsAdd(ck: Checksum, disabled: bool, s: L.State, t: L.Tid, m: nat, n: nat)
    ensures Nexts(ck, disabled, s, t, m + n) == Nexts(ck, disabled, Nexts(ck, disabled, s, t, m), t, n)
    decreases m
  {
    hide L.Step;
    if m > 0 {
      NextsAdd(ck, disabled, L.Step(ck, disabled, s, L.Next(t)), t, m - 1, n);
    }
  }

  /** The same buffers, rows and file. */
  ghost predicate Shares(s: L.State, n: L.State) {
    n.dirty == s.dirty && n.index == s.index && n.disk == s.disk && n.appendOffset == s.appendOffset
  }

  lemma OneNext(ck: Checksum, disabled: bool, s: L.State, t: L.Tid)
    ensures Nexts(ck, disabled, s, t, 1) == L.Step(ck, disabled, s, L.Next(t))
  {
    NextsOne(ck, disabled, s, t, 1);
    hide L.Step;
  }

  lemma FullBegins(ck: Checksum, disabled: bool, s: L.State, t: L.Tid, op: L.Op) returns (b: L.State)
    requires Idle(s) && op.Full?
    ensures b == Nexts(ck, disabled, L.Step(ck, disabled, s, L.Acquire(t, op)), t, 1)
    ensures Alone(b, t, L.Writing(op, op.data, true)) && Shares(s, b)
  {
    hide L.Bucket;
    var a := L.Step(ck, disabled, s, L.Acquire(t, op));
    Enters(ck, disabled, s, t, op);
    OneNext(ck, disabled, a, t);
    b := L.Step(ck, disabled, a, L.Next(t));
    Goes(a, t, L.Locked(op), L.Writing(op, op.data, true));
  }

  /** A full write that runs alone does what WriteNowait does. */
  lemma FullAlone(ck: Checksum, disabled: bool, s: L.State, v: Vol, stored: map<NeedleId, Bytes>, t: L.Tid,
                  id: NeedleId, cookie: nat, data: Bytes)
    requires Idle(s) && Mirrors(s, v, stored) && Valid(ck, v, stored) && IsKey(id)
    ensures var (w, out) := WriteNowait(ck, v, id, cookie, data);
            var e := Solo(ck, disabled, s, t, L.Full(id, data), out);
            Idle(e) && Mirrors(e, w, if out == Ok then StoredAfter(ck, stored, id, data) else stored)
  {
    hide Valid, WriteNowait, StoredAfter, Nexts, L.Step, Alone, SameBuffers, SameStore, Solo, Rest, Idle;
    var op := L.Full(id, data);
    var b := FullBegins(ck, disabled, s, t, op);
    SoloRest(ck, disabled, s, t, op, WriteNowait(ck, v, id, cookie, data).1, b, 1);
    RestMirrors(ck, disabled, b, v, stored, t, op, cookie, data, true, 1);
  }

  lemma FlushBegins(ck: Checksum, disabled: bool, s: L.State, t: L.Tid, op: L.Op) returns (b: L.State)
    requires Idle(s) && op.Flush?
    ensures b == Nexts(ck, disabled, L.Step(ck, disabled, s, L.Acquire(t, op)), t, 1)
    ensures op.id in s.dirty ==>
              Alone(b, t, L.Writing(op, s.dirty[op.id].0, s.dirty[op.id].1)) &&
              Shares(s.(dirty := s.dirty - {op.id}), b)
    ensures op.id !in s.dirty ==> Alone(b, t, L.Finished(op)) && Shares(s, b)
  {
    hide L.Bucket;
    var a := L.Step(ck, disabled, s, L.Acquire(t, op));
    Enters(ck, disabled, s, t, op);
    OneNext(ck, disabled, a, t);
    b := L.Step(ck, disabled, a, L.Next(t));
    if op.id in s.dirty {
      Goes(a.(dirty := a.dirty - {op.id}), t, L.Locked(op), L.Writing(op, s.dirty[op.id].0, s.dirty[op.id].1));
    } else {
      Goes(a, t, L.Locked(op), L.Finished(op));
    }
  }

  /** A flush that runs alone does what FlushOne does. */
  lemma FlushAlone(ck: Checksum, disabled: bool, s: L.State, v: Vol, stored: map<NeedleId, Bytes>, t: L.Tid,
                   id: NeedleId)
    requires Idle(s) && Mirrors(s, v, stored) && Valid(ck, v, stored)
    ensures var (w, out) := FlushOne(ck, v, id);
            var e := Solo(ck, disabled, s, t, L.Flush(id), out);
            Idle(e) && Mirrors(e, w, if id in v.dirty && out == Ok then StoredAfter(ck, stored, id, v.dirty[id].merged)
                                     else stored)
  {
    SameBuffer(s.dirty, v.dirty, id);
    hide Valid, WriteNowait, AppendVersion, StoredAfter, Nexts, L.Step, Alone, SameBuffers, SameStore, Solo;
    var op := L.Flush(id);
    var b := FlushBegins(ck, disabled, s, t, op);
    SoloRest(ck, disabled, s, t, op, FlushOne(ck, v, id).1, b, 1);
    if id in v.dirty {
      hide Rest, Idle;
      DropKeepsValid(ck, v, stored, {id});
      BufferGone(s.dirty, v.dirty, id);
      RestMirrors(ck, disabled, b, v.(dirty := v.dirty - {id}), stored, t, op, 0, v.dirty[id].merged,
                  v.dirty[id].isNew, 1);
    } else {
      Leaves(ck, disabled, b, t, op, 7);
      NobodyLeft(b, t, op);
    }
  }

  lemma NobodyLeft(s: L.State, t: L.Tid, op: L.Op)
    requires Alone(s, t, L.Finished(op))
    ensures s.info.None?
  {}

  lemma SameBuffer(buffers: map<NeedleId, (Bytes, bool)>, dirty: map<NeedleId, Dirty>, id: NeedleId)
    requires SameBuffers(buffers, dirty)
    ensures id in buffers <==> id in dirty
    ensures id in dirty ==> buffers[id] == (dirty[id].merged, dirty[id].isNew)
  {}

  // ---------- region writes ----------

  /** A region write that finds a buffer, with coalescing on, merges into it. */
  lemma BufferedAlone(ck: Checksum, s: L.State, v: Vol, stored: map<NeedleId, Bytes>, t: L.Tid, op: L.Op)
    requires Idle(s) && Mirrors(s, v, stored) && op.Region? && op.id in v.dirty
    ensures var e := Solo(ck, false, s, t, op, Ok);
            var entry := v.dirty[op.id].(merged := Patch(v.dirty[op.id].merged, op.offset, op.data));
            Idle(e) && Mirrors(e, v.(dirty := v.dirty[op.id := entry]), stored)
  {
    SameBuffer(s.dirty, v.dirty, op.id);
    hide L.Bucket, Patch, SameBuffers, SameStore;
    var a := L.Step(ck, false, s, L.Acquire(t, op));
    Enters(ck, false, s, t, op);
    var b := L.Step(ck, false, a, L.Next(t));
    Goes(a, t, L.Locked(op), L.Buffered(op));
    var c := L.Step(ck, false, b, L.Next(t));
    Goes(L.Record(b, op, None), t, L.Buffered(op), L.Finished(op));
    Leaves(ck, false, c, t, op, 6);
    BufferPut(s.dirty, v.dirty, op.id, v.dirty[op.id].(merged := Patch(v.dirty[op.id].merged, op.offset, op.data)));
  }

  /** One that finds none reads what is stored. */
  lemma RegionObserves(ck: Checksum, disabled: bool, s: L.State, t: L.Tid, op: L.Op) returns (d: L.State)
    requires Idle(s) && op.Region? && op.id !in s.dirty && (op.id in s.index ==> s.index[op.id].offset in s.disk)
    ensures d == Nexts(ck, disabled, L.Step(ck, disabled, s, L.Acquire(t, op)), t, 3)
    ensures var base := if op.id in s.index then Some(s.disk[s.index[op.id].offset]) else None;
            Shares(s, d) && Alone(d, t, L.Observed(op, base))
  {
    hide L.Bucket, Patch;
    var a := L.Step(ck, disabled, s, L.Acquire(t, op));
    Enters(ck, disabled, s, t, op);
    var row := if op.id in s.index then Some(s.index[op.id]) else None;
    var b := L.Step(ck, disabled, a, L.Next(t));
    Goes(a, t, L.Locked(op), L.Missed(op));
    var c := L.Step(ck, disabled, b, L.Next(t));
    Goes(b, t, L.Missed(op), L.Looked(op, row));
    d := L.Step(ck, disabled, c, L.Next(t));
    Goes(c, t, L.Looked(op, row), L.Observed(op, if row.Some? then Some(s.disk[row.value.offset]) else None));
  }

  ghost function Start(base: Option<Bytes>): Bytes {
    if base.Some? then base.value else []
  }

  lemma ObservedStarts(ck: Checksum, s: L.State, t: L.Tid, op: L.Op, base: Option<Bytes>) returns (c: L.State)
    requires Alone(s, t, L.Observed(op, base)) && op.Region? && op.id !in s.dirty
    ensures c == L.Step(ck, false, s, L.Next(t)) && Alone(c, t, L.Finished(op))
    ensures Shares(s.(dirty := s.dirty[op.id := (Patch(Start(base), op.offset, op.data), base.None?)]), c)
  {
    hide L.Bucket, Patch;
    c := L.Step(ck, false, s, L.Next(t));
    Goes(L.Record(s, op, base), t, L.Observed(op, base), L.Finished(op));
  }

  lemma ObservedWrites(ck: Checksum, s: L.State, t: L.Tid, op: L.Op, base: Option<Bytes>) returns (c: L.State)
    requires Alone(s, t, L.Observed(op, base)) && op.Region?
    ensures c == L.Step(ck, true, s, L.Next(t)) && Shares(s, c)
    ensures Alone(c, t, L.Writing(op, Patch(Start(base), op.offset, op.data), base.None?))
  {
    hide L.Bucket, Patch;
    c := L.Step(ck, true, s, L.Next(t));
    Goes(s, t, L.Observed(op, base), L.Writing(op, Patch(Start(base), op.offset, op.data), base.None?));
  }

  /** With coalescing on it starts a buffer from that. */
  lemma StartedAlone(ck: Checksum, s: L.State, v: Vol, stored: map<NeedleId, Bytes>, t: L.Tid, op: L.Op)
    requires Idle(s) && Mirrors(s, v, stored) && op.Region? && op.id !in v.dirty
    ensures var e := Solo(ck, false, s, t, op, Ok);
            var entry := Dirty(Patch(if op.id in v.index then stored[op.id] else [], op.offset, op.data),
                               op.id !in v.index);
            Idle(e) && Mirrors(e, v.(dirty := v.dirty[op.id := entry]), stored)
  {
    SameBuffer(s.dirty, v.dirty, op.id);
    SameBase(s, v, stored, op.id);
    hide Patch, SameBuffers, SameStore, Nexts, L.Step, Alone;
    var entry := Dirty(Patch(if op.id in v.index then stored[op.id] else [], op.offset, op.data), op.id !in v.index);
    var d := RegionObserves(ck, false, s, t, op);
    var base := if op.id in s.index then Some(s.disk[s.index[op.id].offset]) else None;
    NextsAdd(ck, false, L.Step(ck, false, s, L.Acquire(t, op)), t, 3, 5);
    NextsOne(ck, false, d, t, 5);
    var c := ObservedStarts(ck, d, t, op, base);
    Leaves(ck, false, c, t, op, 4);
    NobodyLeft(c, t, op);
    BufferPut(s.dirty, v.dirty, op.id, entry);
  }

  lemma SameBase(s: L.State, v: Vol, stored: map<NeedleId, Bytes>, id: NeedleId)
    requires Mirrors(s, v, stored)
    ensures (id in s.index <==> id in v.index) && (id in v.index ==> id in stored)
    ensures id in v.index ==> s.index[id].offset in s.disk && s.disk[s.index[id].offset] == stored[id]
  {}

  /** With coalescing off it appends the merged payload at once. */
  lemma AppendedAlone(ck: Checksum, s: L.State, v: Vol, stored: map<NeedleId, Bytes>, t: L.Tid, op: L.Op)
    requires Idle(s) && Mirrors(s, v, stored) && Valid(ck, v, stored) && op.Region? && op.id !in v.dirty
    ensures var entry := Dirty(Patch(if op.id in v.index then stored[op.id] else [], op.offset, op.data),
                               op.id !in v.index);
            var (w, out) := FlushEntry(ck, v, op.id, entry);
            var e := Solo(ck, true, s, t, op, out);
            Idle(e) && Mirrors(e, w, if out == Ok then StoredAfter(ck, stored, op.id, entry.merged) else stored)
  {
    SameBuffer(s.dirty, v.dirty, op.id);
    SameBase(s, v, stored, op.id);
    hide Patch, SameBuffers, SameStore, Nexts, Valid, StoredAfter, WriteNowait, AppendVersion, L.Step, Alone, Solo,
         Rest, Idle, Mirrors;
    var entry := Dirty(Patch(if op.id in v.index then stored[op.id] else [], op.offset, op.data), op.id !in v.index);
    var out := FlushEntry(ck, v, op.id, entry).1;
    var d := RegionObserves(ck, true, s, t, op);
    var base := if op.id in s.index then Some(s.disk[s.index[op.id].offset]) else None;
    NextsAdd(ck, true, L.Step(ck, true, s, L.Acquire(t, op)), t, 3, 1);
    OneNext(ck, true, d, t);
    var c := ObservedWrites(ck, d, t, op, base);
    SoloRest(ck, true, s, t, op, out, c, 4);
    ShareMirrors(s, c, v, stored);
    RestMirrors(ck, true, c, v, stored, t, op, 0, entry.merged, entry.isNew, 4);
  }

  lemma ShareMirrors(s: L.State, n: L.State, v: Vol, stored: map<NeedleId, Bytes>)
    requires Mirrors(s, v, stored) && Shares(s, n)
    ensures Mirrors(n, v, stored)
  {}

  /** A region write that runs alone does what WriteBlob does. */
  lemma RegionAlone(ck: Checksum, disabled: bool, s: L.State, v: Vol, stored: map<NeedleId, Bytes>, t: L.Tid,
                    id: NeedleId, offset: nat, data: Bytes)
    requires Idle(s) && Mirrors(s, v, stored) && Valid(ck, v, stored) && IsKey(id) && (disabled ==> v.dirty == map[])
    ensures var (w, out) := WriteBlob(ck, v, disabled, id, offset, data);
            var e := Solo(ck, disabled, s, t, L.Region(id, offset, data), out);
            var patched := Patch(Known(View(v, stored), id), offset, data);
            Idle(e) && Mirrors(e, w, if disabled && out == Ok then StoredAfter(ck, stored, id, patched) else stored)
  {
    SameBuffer(s.dirty, v.dirty, id);
    StoredKeys(ck, v, stored);
    hide Valid, Patch, FlushEntry, Mirrors, Solo, Idle, StoredAfter, WriteBlob;
    var op := L.Region(id, offset, data);
    BlobBase(ck, v, stored, disabled, id, offset, data);
    if id in v.dirty {
      BufferedAlone(ck, s, v, stored, t, op);
    } else if disabled {
      AppendedAlone(ck, s, v, stored, t, op);
    } else {
      StartedAlone(ck, s, v, stored, t, op);
    }
  }
}
