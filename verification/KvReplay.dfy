/** Replay of the replicated log into the cache engine, in log order, on top of whatever was restored. */
module KvReplay {
  import opened Bytes
  import opened KvBlocks
  import opened KvGc
  import opened KvTracking
  import opened KvEngine
  import R = KvReplication
  import N = KvNamespaces

  datatype Payload = Inline(data: Bytes) | External(fid: string, size: nat)

  datatype RaftCommand =
    | KvPut(ns: string, key: string, owner: string, payload: Payload, version: nat)
    | KvDelete(ns: string, keys: seq<string>)
    | KvCreateNamespace(ns: string)
    | KvCreateSession(session: string, ttl: nat)
    | KvDeleteSession(session: string)
    | KvSaveBlocks(list: seq<Saved>)
    | KvGcEnqueue(entries: seq<GcEntry>)

  /** An inline payload travels with an empty fid. */
  function PutOf(c: RaftCommand): R.Command
    requires c.KvPut?
  {
    match c.payload
    case Inline(data) => R.Put(c.ns, c.key, true, data, "", 0, c.owner, c.version)
    case External(fid, size) => R.Put(c.ns, c.key, false, [], fid, size, c.owner, c.version)
  }

  /** What the log does to slots and namespaces, in order. */
  ghost function SlotLog(log: seq<RaftCommand>): seq<N.Entry>
    decreases |log|
  {
    if log == [] then []
    else
      var c := log[|log| - 1];
      var init := SlotLog(log[..|log| - 1]);
      if c.KvPut? then init + [N.Change(PutOf(c))]
      else if c.KvDelete? then init + [N.Change(R.DeleteKeys(c.ns, c.keys))]
      else if c.KvCreateNamespace? then init + [N.Create(c.ns)]
      else init
  }

  /** Needle references carry a fid, and a block id has one fid for good. */
  ghost predicate Proper(c: RaftCommand, fidOf: int -> string) {
    match c
    case KvPut(_, _, _, payload, _) => payload.External? ==> payload.fid != ""
    case KvSaveBlocks(list) => forall i :: 0 <= i < |list| ==> list[i].fid == fidOf(list[i].id)
    case _ => true
  }

  ghost predicate Disciplined(slots: R.Slots, fids: FidMap, fidOf: int -> string) {
    && (forall k :: k in slots && slots[k].External? ==> slots[k].fid != "")
    && (forall id :: id in fids ==> fids[id] == fidOf(id))
  }

  lemma DisciplinedPut(namespaces: set<string>, slots: R.Slots, fids: FidMap, fidOf: int -> string, c: RaftCommand)
    requires c.KvPut? && Proper(c, fidOf) && Disciplined(slots, fids, fidOf)
    ensures Disciplined(R.ApplyPut(namespaces, slots, PutOf(c)), fids, fidOf) && !Forgets(namespaces, slots, PutOf(c))
  {}

  lemma DisciplinedDelete(namespaces: set<string>, slots: R.Slots, fids: FidMap, fidOf: int -> string, c: R.Command)
    requires c.DeleteKeys? && Disciplined(slots, fids, fidOf)
    ensures Disciplined(R.Apply(namespaces, slots, c), fids, fidOf)
  {}

  lemma DisciplinedDrop(slots: R.Slots, fids: FidMap, fidOf: int -> string, gone: set<int>)
    requires Disciplined(slots, fids, fidOf)
    ensures Disciplined(slots, Drop(fids, gone), fidOf)
  {}

  lemma {:induction false} DisciplinedSave(slots: R.Slots, fids: FidMap, fidOf: int -> string, list: seq<Saved>)
    requires Disciplined(slots, fids, fidOf) && forall i :: 0 <= i < |list| ==> list[i].fid == fidOf(list[i].id)
    ensures Disciplined(slots, SavedFids(fids, list), fidOf) && OneFid(fids, list)
    decreases |list|
  {
    if list != [] {
      DisciplinedSave(slots, fids, fidOf, list[..|list| - 1]);
      assert list[|list| - 1].fid == fidOf(list[|list| - 1].id);
    }
  }

  /** Apply one command the way every replica does. */
  method Apply(e: KVCacheEngine, c: RaftCommand, now: nat, millis: nat, ghost fidOf: int -> string)
    requires e.Valid()
    modifies e
    ensures e.Valid()
    ensures old(e.Tracked()) && old(Disciplined(e.slots, e.fids, fidOf)) && Proper(c, fidOf) ==>
              e.Tracked() && Disciplined(e.slots, e.fids, fidOf)
    ensures e.namespaces == old(e.namespaces) + if c.KvCreateNamespace? then {c.ns} else {}
    ensures c.KvPut? ==> e.slots == R.Apply(old(e.namespaces), old(e.slots), PutOf(c))
    ensures c.KvPut? ==> e.slots == old(if R.Accepted(e.namespaces, e.slots, c.ns, c.key, c.version)
                                        then e.slots["kv:" + c.ns + ":" + c.key := Value(c)] else e.slots)
    ensures c.KvDelete? ==> e.slots == R.Apply(old(e.namespaces), old(e.slots), R.DeleteKeys(c.ns, c.keys))
    ensures !c.KvPut? && !c.KvDelete? ==> e.slots == old(e.slots)
    ensures e.fids == match c
                      case KvSaveBlocks(list) => SavedFids(old(e.fids), list)
                      case KvDeleteSession(session) =>
                        if session !in old(e.sessions) then old(e.fids)
                        else Drop(old(e.fids), IdSet(old(e.sessions)[session].blockIds))
                      case _ => old(e.fids)
  {
    hide KVCacheEngine.ValidBelow, Disciplined, PutOf, OneFid, SavedFids, SavedOwed, ListedToo, Drop, IdSet, Entries,
         MappedFids, DeletedFids;
    match c {
      case KvPut(_, _, _, _, _) =>
        if old(Disciplined(e.slots, e.fids, fidOf)) && Proper(c, fidOf) {
          DisciplinedPut(e.namespaces, e.slots, e.fids, fidOf, c);
        }
        PutOfStores(e.namespaces, e.slots, c);
        var _ := e.ApplyKvPut(PutOf(c), millis);
      case KvDelete(ns, keys) =>
        if old(Disciplined(e.slots, e.fids, fidOf)) {
          DisciplinedDelete(e.namespaces, e.slots, e.fids, fidOf, R.DeleteKeys(ns, keys));
        }
        e.ApplyKvDeleteKeys(R.DeleteKeys(ns, keys), millis);
      case KvCreateNamespace(ns) =>
        e.ApplyCreateNamespace(ns);
      case KvCreateSession(session, ttl) =>
        var _ := e.CreateSession(session, ttl, now);
      case KvDeleteSession(session) =>
        DeletionDisciplined(e, fidOf, session);
        var _ := e.DeleteSession(session, millis);
      case KvSaveBlocks(list) =>
        if old(Disciplined(e.slots, e.fids, fidOf)) && Proper(c, fidOf) {
          DisciplinedSave(e.slots, e.fids, fidOf, list);
        }
        e.ApplySaveBlocks(list);
      case KvGcEnqueue(entries) =>
        e.ApplyGcEnqueue(entries);
    }
  }

  /** What a put leaves to be read: its own payload under its own owner and version. */
  function Value(c: RaftCommand): R.Slot
    requires c.KvPut?
  {
    match c.payload
    case Inline(data) => R.Inline(data, c.owner, c.version)
    case External(fid, size) => R.External(fid, size, c.owner, c.version)
  }

  lemma PutOfStores(namespaces: set<string>, slots: R.Slots, c: RaftCommand)
    requires c.KvPut?
    ensures PutOf(c).Put?
    ensures R.ApplyPut(namespaces, slots, PutOf(c)) ==
              if R.Accepted(namespaces, slots, c.ns, c.key, c.version)
              then slots["kv:" + c.ns + ":" + c.key := Value(c)] else slots
  {
    R.PutStores(namespaces, slots, PutOf(c));
  }

  lemma DeletionDisciplined(e: KVCacheEngine, fidOf: int -> string, session: string)
    ensures Disciplined(e.slots, e.fids, fidOf) && session in e.sessions ==>
              Disciplined(e.slots, Drop(e.fids, IdSet(e.sessions[session].blockIds)), fidOf)
  {}

  /** Replay: over every log, from every consistent state, memory accounting and listing hold at the end; no
      needle is out of sight when references carry fids and ids keep theirs; and slots and namespaces are those of
      the log's own puts, deletions and creations. */
  method Replay(e: KVCacheEngine, log: seq<RaftCommand>, now: nat, millis: nat, ghost fidOf: int -> string)
    requires e.Valid()
    modifies e
    ensures e.Valid()
    ensures old(e.Tracked()) && old(Disciplined(e.slots, e.fids, fidOf)) &&
            (forall i :: 0 <= i < |log| ==> Proper(log[i], fidOf)) ==>
              e.Tracked() && Disciplined(e.slots, e.fids, fidOf)
    ensures e.slots == N.Run(old(e.namespaces), old(e.slots), SlotLog(log))
    ensures e.namespaces == old(e.namespaces) + N.Created(SlotLog(log))
  {
    hide KVCacheEngine.ValidBelow, KVCacheEngine.Tracked, Disciplined, N.Run, N.Created, R.Apply, SlotLog, PutOf,
         Proper;
    NothingReplayed(e.namespaces, e.slots);
    for i := 0 to |log|
      invariant e.Valid()
      invariant old(e.Tracked()) && old(Disciplined(e.slots, e.fids, fidOf)) &&
                (forall j :: 0 <= j < |log| ==> Proper(log[j], fidOf)) ==>
                  e.Tracked() && Disciplined(e.slots, e.fids, fidOf)
      invariant e.slots == N.Run(old(e.namespaces), old(e.slots), SlotLog(log[..i]))
      invariant e.namespaces == old(e.namespaces) + N.Created(SlotLog(log[..i]))
    {
      ReplayOneMore(old(e.namespaces), old(e.slots), log, i);
      Apply(e, log[i], now, millis, fidOf);
    }
    assert log[..|log|] == log;
  }

  lemma NothingReplayed(namespaces: set<string>, slots: R.Slots)
    ensures N.Run(namespaces, slots, SlotLog([])) == slots && N.Created(SlotLog([])) == {}
  {}

  lemma ReplayOneMore(namespaces: set<string>, slots: R.Slots, log: seq<RaftCommand>, i: nat)
    requires i < |log|
    ensures var c := log[i];
            var done, next := SlotLog(log[..i]), SlotLog(log[..i + 1]);
            var known, before := namespaces + N.Created(done), N.Run(namespaces, slots, done);
            && N.Run(namespaces, slots, next) == (
                 if c.KvPut? then R.Apply(known, before, PutOf(c))
                 else if c.KvDelete? then R.Apply(known, before, R.DeleteKeys(c.ns, c.keys)) else before)
            && namespaces + N.Created(next) == known + if c.KvCreateNamespace? then {c.ns} else {}
  {
    hide R.Apply;
    assert log[..i + 1][..i] == log[..i];
    var done, next := SlotLog(log[..i]), SlotLog(log[..i + 1]);
    if next != done {
      var e := next[|next| - 1];
      assert next == done + [e] && next[..|next| - 1] == done;
      N.CreatedOneMore(done, e);
      N.RunLast(namespaces, slots, next);
    }
  }

  // ---------- whole runs ----------

  datatype Request =
    | Put(session: string, data: Bytes, pin: Pin, now: nat)
    | Reserve
    | Store(id: int, session: string, data: Bytes, pin: Pin, now: nat)
    | Read(id: int, now: nat)
    | Evict(needed: nat)
    | Sweep(now: nat, millis: nat)
    | Collect(now: nat, grace: nat, outcome: string -> Deletion)
    | Replicated(command: RaftCommand, now: nat, millis: nat)

  ghost predicate ProperRequest(q: Request, fidOf: int -> string) {
    q.Replicated? ==> Proper(q.command, fidOf)
  }

  lemma DisciplinedMap(slots: R.Slots, fids: FidMap, fidOf: int -> string, id: int)
    requires Disciplined(slots, fids, fidOf)
    ensures Disciplined(slots, fids[id := fidOf(id)], fidOf) && (id in fids ==> fids[id] == fidOf(id))
  {}

  /** One request; `fidOf` gives the needle each block id is stored under, and an id that was never reserved is
      not stored. */
  method Handle(e: KVCacheEngine, q: Request, fidOf: int -> string)
    requires e.Valid()
    modifies e
    ensures e.Valid()
    ensures old(e.Tracked() && Disciplined(e.slots, e.fids, fidOf)) && ProperRequest(q, fidOf) ==>
              e.Tracked() && Disciplined(e.slots, e.fids, fidOf)
  {
    hide KVCacheEngine.ValidBelow, KVCacheEngine.Tracked, Disciplined, Drop, Referenced, Fids, Proper, NothingEvictable,
         SameIdentity;
    match q {
      case Put(session, data, pin, now) =>
        if old(Disciplined(e.slots, e.fids, fidOf)) {
          DisciplinedMap(e.slots, e.fids, fidOf, e.nextId);
        }
        var _ := e.PutBlock(session, data, fidOf(e.nextId), pin, now, e.nextId);
      case Reserve => var _ := e.AllocBlockId();
      case Store(id, session, data, pin, now) =>
        if old(Disciplined(e.slots, e.fids, fidOf)) {
          DisciplinedMap(e.slots, e.fids, fidOf, id);
        }
        if id < e.nextId {
          var _ := e.StoreLeaderBlock(id, session, data, fidOf(id), pin, now);
        }
      case Read(id, now) => var _ := e.GetBlockData(id, now);
      case Evict(needed) => EvictTracked(e, needed);
      case Sweep(now, millis) =>
        var _ := e.CleanupExpired(now, millis);
        if old(Disciplined(e.slots, e.fids, fidOf)) {
          ghost var listed := ListedBy(old(e.sessions), DeadSessions(old(e.sessions), now));
          DisciplinedDrop(e.slots, old(e.fids), fidOf, listed);
          DisciplinedDrop(e.slots, Drop(old(e.fids), listed), fidOf, DeadBlocks(Drop(old(e.blocks), listed), now));
        }
      case Collect(now, grace, outcome) => e.GcTick(now, grace, outcome);
      case Replicated(c, now, millis) => Apply(e, c, now, millis, fidOf);
    }
  }

  method EvictTracked(e: KVCacheEngine, needed: nat)
    requires e.Valid()
    modifies e`blocks, e`free, e`stats
    ensures e.Valid() && (old(e.Tracked()) ==> e.Tracked())
  {
    hide KVCacheEngine.ValidBelow, EvictionRun, EvictAll, SameIdentity, Mapped, Deduped, NoLeak;
    var _, groups := e.EvictLru(needed, e.nextId);
    EvictionTracks(old(e.blocks), groups);
    SameIdentityTracks(old(e.blocks), e.blocks, e.fids);
  }

  /** Over every run of requests from an empty engine, memory is accounted for byte by byte within the budget and
      every block is listed and holds its own bytes; and no needle is lost from sight as long as references
      carry fids and every block id keeps one. */
  method Serve(maxMemory: nat, blockSize: nat, requests: seq<Request>, fidOf: int -> string) returns (e: KVCacheEngine)
    requires blockSize > 0
    ensures fresh(e) && e.Valid() && e.maxMemory == maxMemory && e.stats.used <= maxMemory
    ensures (forall i :: 0 <= i < |requests| ==> ProperRequest(requests[i], fidOf)) ==> e.Tracked()
  {
    hide KVCacheEngine.Tracked, ProperRequest;
    e := new KVCacheEngine(maxMemory, blockSize);
    for i := 0 to |requests|
      invariant fresh(e) && e.Valid() && e.maxMemory == maxMemory
      invariant (forall j :: 0 <= j < |requests| ==> ProperRequest(requests[j], fidOf)) ==>
                  e.Tracked() && Disciplined(e.slots, e.fids, fidOf)
    {
      hide KVCacheEngine.ValidBelow, Disciplined;
      Handle(e, requests[i], fidOf);
    }
  }
}
