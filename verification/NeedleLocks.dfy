/** Concurrent writers of one volume: region writes, full writes and flushes as micro-steps of any number
    of threads, serialised per needle by striped locks and per append by the info lock. */
module NeedleLocks {
  import opened Bytes
  import opened Options
  import opened NeedleCodec

  type Tid = int

  const BUCKETS := 256

  /** Fibonacci hashing, 64-bit wrapping; unrelated ids may share a bucket. */
  function Bucket(id: NeedleId): int {
    id * 0x9E37_79B9_7F4A_7C15 % U64_LIMIT % BUCKETS
  }

  /** The hash keeps only what the low byte of the id says: two needles share a bucket exactly when their ids agree
      there, because the multiplier is odd and the bucket count divides the word size. */
  lemma BucketIsLowByte(a: NeedleId, b: NeedleId)
    ensures Bucket(a) == Bucket(b) <==> a % 256 == b % 256
  {
    BucketOf(a);
    BucketOf(b);
    hide Bucket;
    Invertible(a % 256);
    Invertible(b % 256);
  }

  lemma BucketOf(id: NeedleId)
    ensures Bucket(id) == id % 256 * 21 % 256
  {
    var product := id * 0x9E37_79B9_7F4A_7C15;
    var high := product / U64_LIMIT;
    assert product == high * U64_LIMIT + product % U64_LIMIT;
    Folds(product % U64_LIMIT, high * (U64_LIMIT / 256));
    assert 0x9E37_79B9_7F4A_7C15 == 0x9E_3779_B97F_4A7C * 256 + 21;
    Folds(id * 21, id * 0x9E_3779_B97F_4A7C);
    Folds(id % 256 * 21, id / 256 * 21);
  }

  lemma Folds(rest: int, k: int)
    ensures (rest + 256 * k) % 256 == rest % 256
  {}

  lemma Invertible(x: int)
    requires 0 <= x < 256
    ensures x * 21 % 256 * 61 % 256 == x
  {
    var r := x * 21 % 256;
    assert r == x * 21 - x * 21 / 256 * 256;
    assert r * 61 == x + 256 * (5 * x - x * 21 / 256 * 61);
    Folds(x, 5 * x - x * 21 / 256 * 61);
  }

  datatype Op =
    | Region(id: NeedleId, offset: nat, data: Bytes)
    | Full(id: NeedleId, data: Bytes)
    | Flush(id: NeedleId)

  datatype Row = Row(offset: int, length: nat, checksum: U64)

  /** Where a thread stands inside its critical section. */
  datatype Pc =
    | Locked(op: Op)                              // stripe lock taken, nothing looked at
    | Buffered(op: Op)                            // region: a dirty buffer was seen
    | Missed(op: Op)                              // region: no dirty buffer was seen
    | Looked(op: Op, row: Option<Row>)            // region: the index row was read
    | Observed(op: Op, base: Option<Bytes>)       // region: the stored payload was read
    | Writing(op: Op, data: Bytes, isNew: bool)   // a payload waits for the info lock
    | Appending(op: Op, data: Bytes)              // info lock held
    | Appended(op: Op, data: Bytes, at: int)      // bytes are in the file, not in the index
    | Finished(op: Op)                            // only the stripe lock is left to release

  datatype State = State(
    dirty: map<NeedleId, (Bytes, bool)>,          // merged payload, and whether the needle was new
    index: map<NeedleId, Row>,
    disk: map<int, Bytes>,                        // payload of the record written at an offset
    appendOffset: nat,
    locks: map<int, Tid>,
    info: Option<Tid>,
    threads: map<Tid, Pc>,
    log: seq<Op>,                                 // history: operations in lock-acquisition order
    spoiled: set<NeedleId>)                       // history: needles hit by a failed append, a collision or an
                                                  // oversized payload

  datatype Event = Acquire(t: Tid, op: Op) | Next(t: Tid) | Fail(t: Tid)

  /** Operations name a needle; a full write to key 0 leaves the choice of a key to the volume and takes no lock. */
  predicate Keyed(e: Event) {
    e.Acquire? ==> 0 < e.op.id
  }

  // ---------- micro-steps ----------

  function Goto(s: State, t: Tid, pc: Pc): State {
    s.(threads := s.threads[t := pc])
  }

  /** Merge a region into the dirty buffer; an existing buffer wins over `base`. */
  function Record(s: State, op: Op, base: Option<Bytes>): State
    requires op.Region?
  {
    var start := if base.Some? then base.value else [];
    if op.id in s.dirty
    then s.(dirty := s.dirty[op.id := (Patch(s.dirty[op.id].0, op.offset, op.data), s.dirty[op.id].1)])
    else s.(dirty := s.dirty[op.id := (Patch(start, op.offset, op.data), base.None?)])
  }

  predicate Identical(ck: Checksum, s: State, id: NeedleId, data: Bytes) {
    id in s.index && s.index[id].length == |data| && s.index[id].checksum == ck(data)
  }

  /** First step under the stripe lock: look for a dirty buffer, or take it. */
  function Begin(s: State, t: Tid, op: Op): State {
    match op
    case Region(id, _, _) => Goto(s, t, if id in s.dirty then Buffered(op) else Missed(op))
    case Full(_, data) => Goto(s, t, Writing(op, data, true))
    case Flush(id) =>
      if id in s.dirty
      then Goto(s.(dirty := s.dirty - {id}), t, Writing(op, s.dirty[id].0, s.dirty[id].1))
      else Goto(s, t, Finished(op))
  }

  /** A region write looks its needle up, reads it and merges; with coalescing disabled the merged payload
      is appended at once. */
  function Merge(disabled: bool, s: State, t: Tid, pc: Pc): State
    requires pc.Buffered? || pc.Missed? || pc.Looked? || pc.Observed?
  {
    var op := pc.op;
    match pc
    case Buffered(_) => if op.Region? then Goto(Record(s, op, None), t, Finished(op)) else s
    case Missed(_) => Goto(s, t, Looked(op, if op.id in s.index then Some(s.index[op.id]) else None))
    case Looked(_, row) =>
      if row.Some? && row.value.offset !in s.disk then s
      else Goto(s, t, Observed(op, if row.Some? then Some(s.disk[row.value.offset]) else None))
    case Observed(_, base) =>
      if !op.Region? then s
      else if disabled
      then Goto(s, t, Writing(op, Patch(if base.Some? then base.value else [], op.offset, op.data), base.None?))
      else Goto(Record(s, op, base), t, Finished(op))
  }

  /** Append a payload under the info lock: skip it if identical, else write at the append offset, then
      publish.  A full write (and the first version of a needle) drops the dirty buffer first. */
  function Append(ck: Checksum, s: State, t: Tid, pc: Pc): State
    requires pc.Writing? || pc.Appending? || pc.Appended?
  {
    var op, data := pc.op, pc.data;
    match pc
    case Writing(_, _, isNew) =>
      if s.info.Some? then s
      else Goto(s.(info := Some(t), dirty := if isNew then s.dirty - {op.id} else s.dirty), t, Appending(op, data))
    case Appending(_, _) =>
      if Identical(ck, s, op.id, data) && s.index[op.id].offset in s.disk
      then Goto(s.(info := None,
                   spoiled := if s.disk[s.index[op.id].offset] == data then s.spoiled else s.spoiled + {op.id}),
                t, Finished(op))
      else Goto(s.(disk := s.disk[s.appendOffset := data]), t, Appended(op, data, s.appendOffset))
    case Appended(_, _, at) =>
      Goto(s.(info := None, index := s.index[op.id := Row(at, |data| % U32_LIMIT, ck(data))],
              appendOffset := s.appendOffset + Size(|data|),
              spoiled := if Readable(|data|) then s.spoiled else s.spoiled + {op.id}), t, Finished(op))
  }

  function Release(s: State, t: Tid, op: Op): State {
    s.(locks := s.locks - {Bucket(op.id)}, threads := s.threads - {t})
  }

  function StepThread(ck: Checksum, disabled: bool, s: State, t: Tid): State
    requires t in s.threads
  {
    var pc := s.threads[t];
    if pc.Locked? then Begin(s, t, pc.op)
    else if pc.Finished? then Release(s, t, pc.op)
    else if pc.Writing? || pc.Appending? || pc.Appended? then Append(ck, s, t, pc)
    else Merge(disabled, s, t, pc)
  }

  function Step(ck: Checksum, disabled: bool, s: State, e: Event): State {
    match e
    case Acquire(t, op) =>
      if t in s.threads || Bucket(op.id) in s.locks then s
      else s.(threads := s.threads[t := Locked(op)], locks := s.locks[Bucket(op.id) := t], log := s.log + [op])
    case Next(t) =>
      if t in s.threads then StepThread(ck, disabled, s, t) else s
    case Fail(t) =>
      // volume not available, out of space, or a backend error
      if t !in s.threads then s
      else
        match s.threads[t]
        case Appending(op, _) => Goto(s.(info := None, spoiled := s.spoiled + {op.id}), t, Finished(op))
        case Writing(op, _, _) => Goto(s.(spoiled := s.spoiled + {op.id}), t, Finished(op))
        case _ => s
  }

  // ---------- what a needle holds, and what it should hold ----------

  function Held(s: State, id: NeedleId): Option<Bytes> {
    if id in s.dirty then Some(s.dirty[id].0)
    else if id in s.index && s.index[id].offset in s.disk then Some(s.disk[s.index[id].offset])
    else None
  }

  function Apply(c: Option<Bytes>, op: Op): Option<Bytes> {
    match op
    case Region(_, offset, data) => Some(Patch(if c.Some? then c.value else [], offset, data))
    case Full(_, data) => Some(data)
    case Flush(_) => c
  }

  /** The operations of the log on one needle, applied in order. */
  function Expected(start: Option<Bytes>, log: seq<Op>, id: NeedleId): Option<Bytes>
    decreases |log|
  {
    if log == [] then start
    else
      var before := Expected(start, log[..|log| - 1], id);
      if log[|log| - 1].id == id then Apply(before, log[|log| - 1]) else before
  }

  ghost predicate Works(s: State, id: NeedleId) {
    && Bucket(id) in s.locks && s.locks[Bucket(id)] in s.threads
    && s.threads[s.locks[Bucket(id)]].op.id == id
  }

  /** What the needle of a thread will hold once the thread is through its critical section. */
  ghost function SettlesAt(s: State, pc: Pc): Option<Bytes> {
    match pc
    case Finished(op) => Held(s, op.id)
    case Observed(op, base) => Apply(base, op)
    case Writing(_, data, _) => Some(data)
    case Appending(_, data) => Some(data)
    case Appended(_, data, _) => Some(data)
    case pc => Apply(Held(s, pc.op.id), pc.op)
  }

  ghost function Settles(s: State, id: NeedleId): Option<Bytes> {
    if Works(s, id) then SettlesAt(s, s.threads[s.locks[Bucket(id)]]) else Held(s, id)
  }

  // ---------- the invariant ----------

  /** Every thread inside holds the stripe of its needle, and no stripe is held by a thread outside. */
  ghost predicate Striped(s: State) {
    && (forall t :: t in s.threads ==>
          Bucket(s.threads[t].op.id) in s.locks && s.locks[Bucket(s.threads[t].op.id)] == t)
    && (forall b :: b in s.locks ==> s.locks[b] in s.threads && Bucket(s.threads[s.locks[b]].op.id) == b)
  }

  predicate InAppend(pc: Pc) {
    pc.Appending? || pc.Appended?
  }

  /** The info lock is held by exactly the thread that is appending. */
  ghost predicate InfoOwned(s: State) {
    && (s.info.Some? ==> s.info.value in s.threads && InAppend(s.threads[s.info.value]))
    && (forall t :: t in s.threads && InAppend(s.threads[t]) ==> s.info == Some(t))
  }

  /** Index rows lie below the append offset and describe the record they point at. */
  ghost predicate RowOk(ck: Checksum, s: State, row: Row) {
    row.offset < s.appendOffset && row.offset in s.disk &&
    row.length == |s.disk[row.offset]| % U32_LIMIT && row.checksum == ck(s.disk[row.offset])
  }

  ghost predicate RowsOk(ck: Checksum, s: State) {
    forall id :: id in s.index ==> RowOk(ck, s, s.index[id])
  }

  /** What a thread has seen of its needle is still true. */
  ghost predicate PcOk(s: State, pc: Pc) {
    match pc
    case Buffered(op) => op.Region? && op.id in s.dirty
    case Missed(op) => op.Region? && op.id !in s.dirty
    case Looked(op, row) =>
      op.Region? && op.id !in s.dirty && row == if op.id in s.index then Some(s.index[op.id]) else None
    case Observed(op, base) => op.Region? && op.id !in s.dirty && base == Held(s, op.id)
    case Writing(op, _, isNew) => op.id in s.dirty ==> op.Full? && isNew
    case Appending(op, _) => op.id !in s.dirty
    case Appended(op, data, at) => op.id !in s.dirty && at == s.appendOffset && at in s.disk && s.disk[at] == data
    case _ => true
  }

  ghost predicate PcsOk(s: State) {
    forall t :: t in s.threads ==> PcOk(s, s.threads[t])
  }

  /** Every needle not spoiled is on its way to what the log says, starting from `s0`. */
  ghost predicate Settled(s0: State, s: State) {
    forall id :: id !in s.spoiled ==> Settles(s, id) == Expected(Held(s0, id), s.log, id)
  }

  ghost predicate Inv(ck: Checksum, s0: State, s: State) {
    Striped(s) && InfoOwned(s) && RowsOk(ck, s) && PcsOk(s) && Settled(s0, s)
  }

  // ---------- one step of one thread, seen from its own needle and from the others ----------

  /** A step inside a critical section: it moves one thread, and of the shared maps it touches only the
      entries of that thread's needle and the record at the append offset. */
  ghost predicate Local(s: State, n: State, t: Tid) {
    && t in s.threads && t in n.threads && n.threads == s.threads[t := n.threads[t]]
    && n.threads[t].op == s.threads[t].op && n.locks == s.locks && n.log == s.log
    && InfoMoves(s, n, t) && Confined(s, n, s.threads[t].op.id)
    && (InAppend(s.threads[t]) || (n.disk == s.disk && n.appendOffset == s.appendOffset))
  }

  ghost predicate InfoMoves(s: State, n: State, t: Tid)
    requires t in s.threads && t in n.threads
  {
    || (n.info == s.info && InAppend(n.threads[t]) == InAppend(s.threads[t]))
    || (s.info.None? && n.info == Some(t) && InAppend(n.threads[t]))
    || (InAppend(s.threads[t]) && n.info.None? && !InAppend(n.threads[t]))
  }

  ghost predicate Confined(s: State, n: State, own: NeedleId) {
    && (forall id :: id != own ==> (id in n.dirty <==> id in s.dirty) && (id in s.dirty ==> n.dirty[id] == s.dirty[id]))
    && (forall id :: id != own ==> (id in n.index <==> id in s.index) && (id in s.index ==> n.index[id] == s.index[id]))
    && (forall o :: o in s.disk && o != s.appendOffset ==> o in n.disk && n.disk[o] == s.disk[o])
    && n.appendOffset >= s.appendOffset
    && (forall id :: id in s.spoiled ==> id in n.spoiled)
    && (forall id :: id in n.spoiled && id != own ==> id in s.spoiled)
  }

  /** Changing only the own needle's entries, then moving the thread, is a local step. */
  lemma GotoIsLocal(s: State, m: State, t: Tid, pc: Pc)
    requires t in s.threads && m.threads == s.threads && m.locks == s.locks && m.log == s.log
    requires pc.op == s.threads[t].op && Confined(s, m, pc.op.id)
    requires InAppend(s.threads[t]) || (m.disk == s.disk && m.appendOffset == s.appendOffset)
    requires || (m.info == s.info && InAppend(pc) == InAppend(s.threads[t]))
             || (s.info.None? && m.info == Some(t) && InAppend(pc))
             || (InAppend(s.threads[t]) && m.info.None? && !InAppend(pc))
    ensures Local(s, Goto(m, t, pc), t)
  {}

  lemma Unchanged(s: State, t: Tid)
    requires t in s.threads
    ensures Local(s, s, t)
  {}

  lemma BeginIsLocal(s: State, t: Tid)
    requires t in s.threads && s.threads[t].Locked?
    ensures Local(s, Begin(s, t, s.threads[t].op), t)
  {
    hide Local;
    var op := s.threads[t].op;
    match op
    case Region(id, _, _) => GotoIsLocal(s, s, t, if id in s.dirty then Buffered(op) else Missed(op));
    case Full(_, data) => GotoIsLocal(s, s, t, Writing(op, data, true));
    case Flush(id) =>
      if id in s.dirty {
        GotoIsLocal(s, s.(dirty := s.dirty - {id}), t, Writing(op, s.dirty[id].0, s.dirty[id].1));
      } else {
        GotoIsLocal(s, s, t, Finished(op));
      }
  }

  lemma MergeIsLocal(disabled: bool, s: State, t: Tid)
    requires t in s.threads
    requires var pc := s.threads[t]; pc.Buffered? || pc.Missed? || pc.Looked? || pc.Observed?
    ensures Local(s, Merge(disabled, s, t, s.threads[t]), t)
  {
    hide Local, Patch;
    var pc := s.threads[t];
    var op := pc.op;
    var n := Merge(disabled, s, t, pc);
    if n == s {
      Unchanged(s, t);
    } else if n.threads[t].Finished? {
      GotoIsLocal(s, Record(s, op, if pc.Observed? then pc.base else None), t, Finished(op));
    } else {
      GotoIsLocal(s, s, t, n.threads[t]);
    }
  }

  lemma AppendIsLocal(ck: Checksum, s: State, t: Tid)
    requires t in s.threads
    requires var pc := s.threads[t]; pc.Writing? || pc.Appending? || pc.Appended?
    ensures Local(s, Append(ck, s, t, s.threads[t]), t)
  {
    hide Local;
    Unchanged(s, t);
    var pc := s.threads[t];
    var op, data := pc.op, pc.data;
    match pc
    case Writing(_, _, isNew) =>
      if s.info.None? {
        GotoIsLocal(s, s.(info := Some(t), dirty := if isNew then s.dirty - {op.id} else s.dirty), t,
                    Appending(op, data));
      }
    case Appending(_, _) =>
      if Identical(ck, s, op.id, data) && s.index[op.id].offset in s.disk {
        var spoiled := if s.disk[s.index[op.id].offset] == data then s.spoiled else s.spoiled + {op.id};
        GotoIsLocal(s, s.(info := None, spoiled := spoiled), t, Finished(op));
      } else {
        GotoIsLocal(s, s.(disk := s.disk[s.appendOffset := data]), t, Appended(op, data, s.appendOffset));
      }
    case Appended(_, _, at) =>
      var spoiled := if Readable(|data|) then s.spoiled else s.spoiled + {op.id};
      GotoIsLocal(s, s.(info := None, index := s.index[op.id := Row(at, |data| % U32_LIMIT, ck(data))],
                        appendOffset := s.appendOffset + Size(|data|), spoiled := spoiled), t, Finished(op));
  }

  lemma StepIsLocal(ck: Checksum, disabled: bool, s: State, t: Tid)
    requires t in s.threads && !s.threads[t].Finished?
    ensures Local(s, StepThread(ck, disabled, s, t), t)
  {
    hide Local, Begin, Merge, Append;
    var pc := s.threads[t];
    if pc.Locked? {
      BeginIsLocal(s, t);
    } else if pc.Writing? || pc.Appending? || pc.Appended? {
      AppendIsLocal(ck, s, t);
    } else {
      MergeIsLocal(disabled, s, t);
    }
  }

  lemma FailIsLocal(ck: Checksum, disabled: bool, s: State, t: Tid)
    requires t in s.threads
    ensures Local(s, Step(ck, disabled, s, Fail(t)), t)
  {
    hide Local;
    Unchanged(s, t);
    match s.threads[t]
    case Appending(op, _) =>
      GotoIsLocal(s, s.(info := None, spoiled := s.spoiled + {op.id}), t, Finished(op));
    case Writing(op, _, _) =>
      GotoIsLocal(s, s.(spoiled := s.spoiled + {op.id}), t, Finished(op));
    case _ =>
  }

  lemma LocalKeepsStripes(s: State, n: State, t: Tid)
    requires Striped(s) && Local(s, n, t)
    ensures Striped(n)
  {}

  lemma LocalKeepsInfo(s: State, n: State, t: Tid)
    requires InfoOwned(s) && Local(s, n, t)
    ensures InfoOwned(n)
  {}

  lemma LocalKeepsHeld(ck: Checksum, s: State, n: State, t: Tid, id: NeedleId)
    requires RowsOk(ck, s) && Local(s, n, t) && id != s.threads[t].op.id
    ensures Held(n, id) == Held(s, id)
  {}

  lemma LocalKeepsOthers(ck: Checksum, s: State, n: State, t: Tid, id: NeedleId)
    requires RowsOk(ck, s) && Local(s, n, t) && id != s.threads[t].op.id
    ensures Settles(n, id) == Settles(s, id)
  {
    LocalKeepsHeld(ck, s, n, t, id);
    hide Bucket, Confined, InfoMoves, Held;
  }

  lemma LocalKeepsOtherPcs(ck: Checksum, s: State, n: State, t: Tid, u: Tid)
    requires RowsOk(ck, s) && PcsOk(s) && Striped(s) && InfoOwned(s) && Local(s, n, t)
    requires u in s.threads && u != t
    ensures u in n.threads && PcOk(n, n.threads[u])
  {
    var pc := s.threads[u];
    assert pc.op.id != s.threads[t].op.id;
    LocalKeepsHeld(ck, s, n, t, pc.op.id);
    assert PcOk(s, pc) && n.threads[u] == pc;
    hide Held, Bucket, Striped, InfoMoves, RowsOk;
  }

  ghost predicate OwnKept(s: State, n: State, t: Tid)
    requires t in s.threads
  {
    t in n.threads && PcOk(n, n.threads[t]) &&
    (s.threads[t].op.id !in n.spoiled ==> SettlesAt(n, n.threads[t]) == SettlesAt(s, s.threads[t]))
  }

  lemma BeginKeepsOwn(s: State, t: Tid)
    requires t in s.threads && s.threads[t].Locked?
    ensures OwnKept(s, Begin(s, t, s.threads[t].op), t)
  {
    hide Patch;
  }

  lemma MergeKeepsOwn(ck: Checksum, disabled: bool, s: State, t: Tid)
    requires RowsOk(ck, s) && t in s.threads && PcOk(s, s.threads[t])
    requires var pc := s.threads[t]; pc.Buffered? || pc.Missed? || pc.Looked? || pc.Observed?
    ensures OwnKept(s, Merge(disabled, s, t, s.threads[t]), t)
  {
    hide Patch;
  }

  lemma AppendKeepsOwn(ck: Checksum, s: State, t: Tid)
    requires RowsOk(ck, s) && t in s.threads && PcOk(s, s.threads[t])
    requires var pc := s.threads[t]; pc.Writing? || pc.Appending? || pc.Appended?
    ensures OwnKept(s, Append(ck, s, t, s.threads[t]), t)
  {
    hide Patch;
  }

  /** The step of a thread keeps what its needle will settle to; it can only spoil it by a collision. */
  lemma StepKeepsOwn(ck: Checksum, disabled: bool, s: State, t: Tid)
    requires RowsOk(ck, s) && t in s.threads && PcOk(s, s.threads[t]) && !s.threads[t].Finished?
    ensures OwnKept(s, StepThread(ck, disabled, s, t), t)
  {
    hide OwnKept, Begin, Merge, Append, RowsOk, PcOk;
    var pc := s.threads[t];
    if pc.Locked? {
      BeginKeepsOwn(s, t);
    } else if pc.Writing? || pc.Appending? || pc.Appended? {
      AppendKeepsOwn(ck, s, t);
    } else {
      MergeKeepsOwn(ck, disabled, s, t);
    }
  }

  lemma FailKeepsOwn(ck: Checksum, disabled: bool, s: State, t: Tid)
    requires t in s.threads && PcOk(s, s.threads[t])
    ensures OwnKept(s, Step(ck, disabled, s, Fail(t)), t)
  {
    hide Patch;
  }

  lemma OneWorker(s: State, t: Tid)
    requires Striped(s) && t in s.threads
    ensures Works(s, s.threads[t].op.id) && s.locks[Bucket(s.threads[t].op.id)] == t
  {}

  lemma AppendKeepsRows(ck: Checksum, s: State, t: Tid, pc: Pc)
    requires RowsOk(ck, s) && PcOk(s, pc) && (pc.Writing? || pc.Appending? || pc.Appended?)
    ensures RowsOk(ck, Append(ck, s, t, pc))
  {}

  ghost predicate SameStore(s: State, n: State) {
    n.index == s.index && n.disk == s.disk && n.appendOffset == s.appendOffset
  }

  lemma SameStoreKeepsRows(ck: Checksum, s: State, n: State)
    requires RowsOk(ck, s) && SameStore(s, n)
    ensures RowsOk(ck, n)
  {}

  lemma StepKeepsRows(ck: Checksum, disabled: bool, s: State, t: Tid)
    requires RowsOk(ck, s) && t in s.threads && PcOk(s, s.threads[t])
    ensures RowsOk(ck, StepThread(ck, disabled, s, t))
  {
    hide Patch, RowsOk, PcOk;
    var pc := s.threads[t];
    if pc.Writing? || pc.Appending? || pc.Appended? {
      hide Append;
      AppendKeepsRows(ck, s, t, pc);
    } else {
      hide StepThread;
      StepKeepsStore(ck, disabled, s, t);
      SameStoreKeepsRows(ck, s, StepThread(ck, disabled, s, t));
    }
  }

  lemma StepKeepsStore(ck: Checksum, disabled: bool, s: State, t: Tid)
    requires t in s.threads
    requires var pc := s.threads[t]; !pc.Writing? && !pc.Appending? && !pc.Appended?
    ensures SameStore(s, StepThread(ck, disabled, s, t))
  {
    hide Begin, Merge;
    var pc := s.threads[t];
    if pc.Locked? {
      BeginKeepsStore(s, t, pc.op);
    } else if !pc.Finished? {
      MergeKeepsStore(disabled, s, t, pc);
    }
  }

  lemma BeginKeepsStore(s: State, t: Tid, op: Op)
    ensures SameStore(s, Begin(s, t, op))
  {}

  lemma MergeKeepsStore(disabled: bool, s: State, t: Tid, pc: Pc)
    requires pc.Buffered? || pc.Missed? || pc.Looked? || pc.Observed?
    ensures SameStore(s, Merge(disabled, s, t, pc))
  {
    hide Patch;
  }

  // ---------- every step keeps the invariant ----------

  lemma LocalKeepsPcs(ck: Checksum, s: State, n: State, t: Tid)
    requires RowsOk(ck, s) && PcsOk(s) && Striped(s) && InfoOwned(s) && Local(s, n, t) && OwnKept(s, n, t)
    ensures PcsOk(n)
  {
    hide PcOk, Striped, InfoOwned, RowsOk, InfoMoves, Confined;
    forall u | u in n.threads
      ensures PcOk(n, n.threads[u])
    {
      if u != t {
        LocalKeepsOtherPcs(ck, s, n, t, u);
      }
    }
  }

  lemma LocalKeepsSettled(ck: Checksum, s0: State, s: State, n: State, t: Tid)
    requires RowsOk(ck, s) && Striped(s) && Local(s, n, t) && OwnKept(s, n, t) && Settled(s0, s)
    ensures Settled(s0, n)
  {
    OneWorker(s, t);
    LocalKeepsStripes(s, n, t);
    OneWorker(n, t);
    var own := s.threads[t].op.id;
    hide SettlesAt, PcOk, RowsOk, Held, Striped, Expected, Bucket;
    forall id | id !in n.spoiled
      ensures Settles(n, id) == Expected(Held(s0, id), n.log, id)
    {
      assert id !in s.spoiled;
      if id != own {
        LocalKeepsOthers(ck, s, n, t, id);
      }
    }
  }

  lemma LocalKeepsInv(ck: Checksum, s0: State, s: State, n: State, t: Tid)
    requires Inv(ck, s0, s) && Local(s, n, t) && OwnKept(s, n, t) && RowsOk(ck, n)
    ensures Inv(ck, s0, n)
  {
    hide Striped, InfoOwned, RowsOk, PcsOk, Settled, Local, OwnKept;
    LocalKeepsStripes(s, n, t);
    LocalKeepsInfo(s, n, t);
    LocalKeepsPcs(ck, s, n, t);
    LocalKeepsSettled(ck, s0, s, n, t);
  }

  lemma AcquireKeepsSettled(ck: Checksum, disabled: bool, s0: State, s: State, t: Tid, op: Op)
    requires Striped(s) && Settled(s0, s) && t !in s.threads && Bucket(op.id) !in s.locks
    ensures Settled(s0, Step(ck, disabled, s, Acquire(t, op)))
  {
    hide Bucket, Apply;
    var n := Step(ck, disabled, s, Acquire(t, op));
    assert n.log[..|n.log| - 1] == s.log;
    forall id | id !in n.spoiled
      ensures Settles(n, id) == Expected(Held(s0, id), n.log, id)
    {
      assert Held(n, id) == Held(s, id);
      assert Settles(s, id) == Expected(Held(s0, id), s.log, id);
    }
  }

  lemma AcquireKeepsInv(ck: Checksum, disabled: bool, s0: State, s: State, t: Tid, op: Op)
    requires Inv(ck, s0, s) && t !in s.threads && Bucket(op.id) !in s.locks
    ensures Inv(ck, s0, Step(ck, disabled, s, Acquire(t, op)))
  {
    AcquireKeepsSettled(ck, disabled, s0, s, t, op);
    hide Bucket, Settled;
    var n := Step(ck, disabled, s, Acquire(t, op));
    SameStoreKeepsRows(ck, s, n);
  }

  lemma ReleaseKeepsSettled(s0: State, s: State, t: Tid)
    requires Striped(s) && Settled(s0, s) && t in s.threads && s.threads[t].Finished?
    ensures Settled(s0, Release(s, t, s.threads[t].op))
  {
    hide Bucket, Expected;
    var n := Release(s, t, s.threads[t].op);
    forall id | id !in n.spoiled
      ensures Settles(n, id) == Settles(s, id)
    {
      assert Held(n, id) == Held(s, id);
    }
  }

  lemma ReleaseKeepsInv(ck: Checksum, s0: State, s: State, t: Tid)
    requires Inv(ck, s0, s) && t in s.threads && s.threads[t].Finished?
    ensures Inv(ck, s0, Release(s, t, s.threads[t].op))
  {
    ReleaseKeepsSettled(s0, s, t);
    hide Bucket, Settled;
    SameStoreKeepsRows(ck, s, Release(s, t, s.threads[t].op));
  }

  lemma StepKeepsInv(ck: Checksum, disabled: bool, s0: State, s: State, e: Event)
    requires Inv(ck, s0, s)
    ensures Inv(ck, s0, Step(ck, disabled, s, e))
  {
    assert forall t :: t in s.threads ==> PcOk(s, s.threads[t]);
    hide Inv, Bucket, PcOk, Local, OwnKept, RowsOk;
    match e
    case Acquire(t, op) =>
      if t !in s.threads && Bucket(op.id) !in s.locks {
        AcquireKeepsInv(ck, disabled, s0, s, t, op);
      }
    case Next(t) =>
      if t in s.threads {
        assert RowsOk(ck, s) by { InvRows(ck, s0, s); }
        var n := StepThread(ck, disabled, s, t);
        if s.threads[t].Finished? {
          ReleaseKeepsInv(ck, s0, s, t);
        } else {
          hide StepThread;
          StepIsLocal(ck, disabled, s, t);
          StepKeepsOwn(ck, disabled, s, t);
          StepKeepsRows(ck, disabled, s, t);
          LocalKeepsInv(ck, s0, s, n, t);
        }
      }
    case Fail(t) =>
      if t in s.threads {
        assert RowsOk(ck, s) by { InvRows(ck, s0, s); }
        var n := Step(ck, disabled, s, e);
        FailIsLocal(ck, disabled, s, t);
        FailKeepsOwn(ck, disabled, s, t);
        SameStoreKeepsRows(ck, s, n);
        LocalKeepsInv(ck, s0, s, n, t);
      }
  }

  lemma InvRows(ck: Checksum, s0: State, s: State)
    requires Inv(ck, s0, s)
    ensures RowsOk(ck, s)
  {}

  // ---------- whole runs ----------

  function Run(ck: Checksum, disabled: bool, s: State, events: seq<Event>): State
    decreases |events|
  {
    if events == [] then s else Run(ck, disabled, Step(ck, disabled, s, events[0]), events[1..])
  }

  /** No thread inside, no lock held, an index that describes the file, and nothing buffered when coalescing
      is off. */
  ghost predicate Quiet(ck: Checksum, disabled: bool, s: State) {
    && s.threads == map[] && s.locks == map[] && s.info == None && RowsOk(ck, s) && s.log == [] && s.spoiled == {}
    && (disabled ==> s.dirty == map[])
  }

  lemma {:induction false} RunKeepsInv(ck: Checksum, disabled: bool, s0: State, s: State, events: seq<Event>)
    requires Inv(ck, s0, s)
    ensures Inv(ck, s0, Run(ck, disabled, s, events))
    decreases |events|
  {
    hide Inv, Step;
    if events != [] {
      StepKeepsInv(ck, disabled, s0, s, events[0]);
      RunKeepsInv(ck, disabled, s0, Step(ck, disabled, s, events[0]), events[1..]);
    }
  }

  /** No lost update: after any interleaving of any number of threads, a needle that nobody is inside holds
      exactly what applying its operations one after the other, in the order their locks were taken, gives --
      unless one of its own appends failed, hit a checksum collision or was oversized. */
  lemma NoLostUpdate(ck: Checksum, disabled: bool, s0: State, events: seq<Event>, id: NeedleId)
    requires Quiet(ck, disabled, s0) && forall i :: 0 <= i < |events| ==> Keyed(events[i])
    ensures var s := Run(ck, disabled, s0, events);
            id !in s.spoiled && !Works(s, id) ==> Held(s, id) == Expected(Held(s0, id), s.log, id)
  {
    assert Inv(ck, s0, s0);
    hide RowsOk, InfoOwned, Striped, PcsOk;
    RunKeepsInv(ck, disabled, s0, s0, events);
    assert Settled(s0, Run(ck, disabled, s0, events));
  }

  /** Two regions that do not overlap. */
  predicate Apart(a: Op, b: Op)
    requires a.Region? && b.Region?
  {
    a.offset + |a.data| <= b.offset || b.offset + |b.data| <= a.offset
  }

  ghost predicate Contains(c: Option<Bytes>, op: Op)
    requires op.Region?
  {
    c.Some? && op.offset + |op.data| <= |c.value| && c.value[op.offset..op.offset + |op.data|] == op.data
  }

  lemma ApplyKeepsRegion(c: Option<Bytes>, op: Op, other: Op)
    requires op.Region? && Contains(c, op) && (other.Flush? || (other.Region? && Apart(op, other)))
    ensures Contains(Apply(c, other), op)
  {}

  /** A region whose needle saw only flushes and disjoint regions afterwards is there to the last byte. */
  lemma {:induction false} RegionSurvives(start: Option<Bytes>, log: seq<Op>, id: NeedleId, k: nat)
    requires k < |log| && log[k].Region? && log[k].id == id
    requires forall j :: k < j < |log| && log[j].id == id ==> log[j].Flush? || (log[j].Region? && Apart(log[k], log[j]))
    ensures Contains(Expected(start, log, id), log[k])
    decreases |log|
  {
    var last := |log| - 1;
    var before := Expected(start, log[..last], id);
    if k == last {
      PatchedSlice(if before.Some? then before.value else [], log[k].offset, log[k].data);
    } else {
      RegionSurvives(start, log[..last], id, k);
      if log[last].id == id {
        ApplyKeepsRegion(before, log[k], log[last]);
      }
    }
  }

  /** So concurrent first writers of disjoint regions of one needle all survive, whatever other needles
      share their stripe and however the flushes fall. */
  lemma DisjointWritersSurvive(ck: Checksum, disabled: bool, s0: State, events: seq<Event>, id: NeedleId, k: nat)
    requires Quiet(ck, disabled, s0) && forall i :: 0 <= i < |events| ==> Keyed(events[i])
    requires var s := Run(ck, disabled, s0, events);
             && id !in s.spoiled && !Works(s, id)
             && k < |s.log| && s.log[k].Region? && s.log[k].id == id
             && forall j :: k < j < |s.log| && s.log[j].id == id ==>
                  s.log[j].Flush? || (s.log[j].Region? && Apart(s.log[k], s.log[j]))
    ensures var s := Run(ck, disabled, s0, events); Contains(Held(s, id), s.log[k])
  {
    hide Run, Held, Expected, Contains;
    NoLostUpdate(ck, disabled, s0, events, id);
    RegionSurvives(Held(s0, id), Run(ck, disabled, s0, events).log, id, k);
  }

  // ---------- progress ----------

  /** How many steps a thread still has to take before it leaves. */
  function Rank(pc: Pc): nat {
    match pc
    case Locked(_) => 7
    case Missed(_) => 6
    case Looked(_, _) => 5
    case Observed(_, _) => 4
    case Buffered(_) => 4
    case Writing(_, _, _) => 3
    case Appending(_, _) => 2
    case Appended(_, _, _) => 1
    case Finished(_) => 0
  }

  ghost predicate Advances(s: State, n: State, t: Tid)
    requires t in s.threads
  {
    t !in n.threads || Rank(n.threads[t]) < Rank(s.threads[t])
  }

  lemma AppendAdvances(ck: Checksum, s: State, t: Tid)
    requires t in s.threads && (s.info.None? || InAppend(s.threads[t]))
    requires var pc := s.threads[t]; pc.Writing? || pc.Appending? || pc.Appended?
    ensures Advances(s, Append(ck, s, t, s.threads[t]), t)
  {}

  lemma MergeAdvances(disabled: bool, s: State, t: Tid)
    requires t in s.threads && PcOk(s, s.threads[t])
    requires var pc := s.threads[t]; pc.Buffered? || pc.Missed? || pc.Looked? || pc.Observed?
    requires var op := s.threads[t].op; op.id in s.index ==> s.index[op.id].offset in s.disk
    ensures Advances(s, Merge(disabled, s, t, s.threads[t]), t)
  {
    hide Patch, Held;
  }

  /** No deadlock: while any thread is inside, some thread can take a step that brings it closer to the end
      of its critical section (waiting happens only for the info lock, whose holder never waits). */
  lemma SomeoneCanMove(ck: Checksum, disabled: bool, s0: State, s: State, t: Tid) returns (mover: Tid)
    requires Inv(ck, s0, s) && t in s.threads
    ensures mover in s.threads
    ensures var n := Step(ck, disabled, s, Next(mover));
            mover !in n.threads || Rank(n.threads[mover]) < Rank(s.threads[mover])
  {
    hide Bucket, Settled, Striped, Append, Merge;
    mover := if s.info.Some? then s.info.value else t;
    var pc := s.threads[mover];
    assert PcOk(s, pc);
    if pc.Writing? || pc.Appending? || pc.Appended? {
      AppendAdvances(ck, s, mover);
    } else if pc.Buffered? || pc.Missed? || pc.Looked? || pc.Observed? {
      assert pc.op.id in s.index ==> RowOk(ck, s, s.index[pc.op.id]);
      MergeAdvances(disabled, s, mover);
    }
  }
}
