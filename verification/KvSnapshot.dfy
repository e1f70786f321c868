/** The reclaiming worker looks references up once per round and deletes later: what happens in between. */
module KvSnapshot {
  import opened Options
  import opened KvReplication
  import opened KvNamespaces
  import opened KvGc
  import opened KvTracking
  import E = KvEngine

  /** What can change the references: a replicated slot command or namespace creation, a block id being mapped --
      by a put, a leader store or a replicated save -- and ids being unmapped, with their session or by expiry. */
  datatype Event = Slots(entry: Entry) | Map(id: int, fid: string) | Unmap(ids: set<int>)

  function Entries(log: seq<Event>): seq<Entry>
    decreases |log|
  {
    if log == [] then []
    else
      var last := log[|log| - 1];
      Entries(log[..|log| - 1]) + if last.Slots? then [last.entry] else []
  }

  function FidsAfter(fids: FidMap, log: seq<Event>): FidMap
    decreases |log|
  {
    if log == [] then fids
    else
      var before, last := FidsAfter(fids, log[..|log| - 1]), log[|log| - 1];
      match last
      case Map(id, fid) => before[id := fid]
      case Unmap(ids) => before - ids
      case Slots(_) => before
  }

  /** A replicated save maps its ids one after the other. */
  ghost function Maps(list: seq<E.Saved>): seq<Event> {
    seq(|list|, i requires 0 <= i < |list| => Map(list[i].id, list[i].fid))
  }

  lemma {:induction false} SavesAreMaps(fids: FidMap, list: seq<E.Saved>)
    ensures E.SavedFids(fids, list) == FidsAfter(fids, Maps(list)) && Entries(Maps(list)) == []
    decreases |list|
  {
    if list != [] {
      SavesAreMaps(fids, list[..|list| - 1]);
      assert Maps(list)[..|list| - 1] == Maps(list[..|list| - 1]);
    }
  }

  // ---------- the last word on an id ----------

  predicate Touches(e: Event, id: int) {
    (e.Map? && e.id == id) || (e.Unmap? && id in e.ids)
  }

  /** Event i maps the id to the needle, and nothing after it touches the id. */
  ghost predicate LastMaps(log: seq<Event>, i: int, id: int, fid: string) {
    0 <= i < |log| && log[i] == Map(id, fid) && forall j :: i < j < |log| ==> !Touches(log[j], id)
  }

  lemma LastMapsInLonger(log: seq<Event>, id: int, fid: string)
    requires log != []
    ensures var init, last := log[..|log| - 1], log[|log| - 1];
            forall i :: LastMaps(log, i, id, fid) <==>
                          (LastMaps(init, i, id, fid) && !Touches(last, id)) || (i == |log| - 1 && last == Map(id, fid))
  {
    var init, last := log[..|log| - 1], log[|log| - 1];
    assert forall i :: 0 <= i < |init| ==> init[i] == log[i];
    hide Touches;
  }

  lemma {:induction false} MappedAfter(fids: FidMap, log: seq<Event>, id: int, fid: string)
    requires id in fids ==> fids[id] != fid
    ensures var after := FidsAfter(fids, log);
            (id in after && after[id] == fid) <==> exists i :: LastMaps(log, i, id, fid)
    decreases |log|
  {
    if log != [] {
      var init, last := log[..|log| - 1], log[|log| - 1];
      MappedAfter(fids, init, id, fid);
      LastMapsInLonger(log, id, fid);
      if last == Map(id, fid) {
        assert LastMaps(log, |log| - 1, id, fid);
      }
      hide LastMaps;
      if i :| LastMaps(init, i, id, fid) {
        assert !Touches(last, id) ==> LastMaps(log, i, id, fid);
      }
    }
  }

  // ---------- the last word on a key ----------

  /** Put w is heard, has the last word on the key, and names the needle. */
  ghost predicate Revives(namespaces: set<string>, slots: Slots, log: seq<Entry>, k: string, w: int, fid: string) {
    var all, heard := namespaces + Created(log), Heard(namespaces, log);
    && Outranks(all, heard, w, k) && heard[w].version >= Guard(Base(At(slots, k), heard, k))
    && !heard[w].inline && heard[w].fid == fid
  }

  lemma HeldAfter(namespaces: set<string>, slots: Slots, log: seq<Entry>, k: string, fid: string)
    requires !Holds(At(slots, k), fid)
    ensures Holds(At(Run(namespaces, slots, log), k), fid) <==> exists w :: Revives(namespaces, slots, log, k, w, fid)
  {
    var all, heard := namespaces + Created(log), Heard(namespaces, log);
    FirstPass(namespaces, slots, log, all, k);
    var w := FoldWins(all, At(slots, k), heard, k);
    hide Run, FoldKey, Created, Heard, Stands, Deleted;
    if w >= 0 {
      assert !heard[w].inline && heard[w].fid == fid ==> Revives(namespaces, slots, log, k, w, fid);
      assert forall v :: Revives(namespaces, slots, log, k, v, fid) ==> v == w;
    }
  }

  // ---------- the references after it all ----------

  lemma ReferencedMeans(slots: Slots, fids: FidMap, fid: string)
    ensures fid in Referenced(slots, fids) <==>
            (exists k :: Holds(At(slots, k), fid)) || (exists id :: id in fids && fids[id] == fid)
  {
    if k :| Holds(At(slots, k), fid) {
      assert slots[k].fid == fid;
    }
    if k :| k in slots && slots[k].External? && slots[k].fid == fid {
      assert Holds(At(slots, k), fid);
    }
  }

  /** A needle that nothing referred to when the worker looked is in use by the time it is deleted exactly when, in
      between, a block id was mapped to it for good, or a heard put named it and had the last word on its key. */
  lemma SnapshotGoesStale(namespaces: set<string>, slots: Slots, fids: FidMap, log: seq<Event>, fid: string)
    requires fid !in Referenced(slots, fids)
    ensures fid in Referenced(Run(namespaces, slots, Entries(log)), FidsAfter(fids, log)) <==>
            (exists id, i :: LastMaps(log, i, id, fid)) ||
            (exists k, w :: Revives(namespaces, slots, Entries(log), k, w, fid))
  {
    StaleBy(namespaces, slots, fids, Entries(log), log, fid);
  }

  lemma StaleBy(namespaces: set<string>, slots: Slots, fids: FidMap, entries: seq<Entry>, log: seq<Event>, fid: string)
    requires fid !in Referenced(slots, fids)
    ensures fid in Referenced(Run(namespaces, slots, entries), FidsAfter(fids, log)) <==>
            (exists id, i :: LastMaps(log, i, id, fid)) ||
            (exists k, w :: Revives(namespaces, slots, entries, k, w, fid))
  {
    var slots', fids' := Run(namespaces, slots, entries), FidsAfter(fids, log);
    ReferencedMeans(slots, fids, fid);
    ReferencedMeans(slots', fids', fid);
    hide Referenced, LastMaps, Revives, Holds;
    forall k
      ensures Holds(At(slots', k), fid) <==> exists w :: Revives(namespaces, slots, entries, k, w, fid)
    {
      HeldAfter(namespaces, slots, entries, k, fid);
    }
    forall id
      ensures (id in fids' && fids'[id] == fid) <==> exists i :: LastMaps(log, i, id, fid)
    {
      MappedAfter(fids, log, id, fid);
    }
    if id, i :| LastMaps(log, i, id, fid) {
      assert id in fids';
    }
    if k, w :| Revives(namespaces, slots, entries, k, w, fid) {
      assert Holds(At(slots', k), fid);
    }
  }

  // ---------- it does happen ----------

  /** A save whose proposal was given up and its fid queued arrives after the look-up: the round deletes a needle
      that block 1 is mapped to. */
  lemma SaveComesLate(now: nat, grace: nat, outcome: string -> E.Deletion)
    requires now >= grace && outcome("3,a") == E.Deleted
    ensures var queue := [GcEntry("3,a", 0, 0)];
            var gone := E.Reclaimed(Due(queue, now, grace), Referenced(map[], map[]), outcome);
            && "3,a" in gone
            && "3,a" in Referenced(map[], FidsAfter(map[], Maps([E.Saved(1, "s", "3,a")])))
  {
    var queue := [GcEntry("3,a", 0, 0)];
    DueNow(queue[0], now, grace);
    var save := Maps([E.Saved(1, "s", "3,a")]);
    assert save[0] == Map(1, "3,a") && save[..0] == [];
    assert FidsAfter(map[], save) == map[1 := "3,a"];
    assert map[1 := "3,a"][1] == "3,a";
  }

  lemma DueNow(e: GcEntry, now: nat, grace: nat)
    requires e.enqueuedAt == 0 && now >= grace
    ensures Due([e], now, grace) == [e]
  {}

  /** So can a put into a namespace that comes into being in between. */
  lemma PutComesLate()
    ensures var c := Put("n", "k", false, [], "3,a", 10, "o", 1);
            var log := [Slots(Create("n")), Slots(Change(c))];
            && "3,a" !in Referenced(map[], map[])
            && "3,a" in Referenced(Run({}, map[], Entries(log)), FidsAfter(map[], log))
  {
    var c := Put("n", "k", false, [], "3,a", 10, "o", 1);
    var first, log := [Slots(Create("n"))], [Slots(Create("n")), Slots(Change(c))];
    assert log[..1] == first && first[..0] == [];
    var entries := [Create("n"), Change(c)];
    assert Entries(first) == [Create("n")] && Entries(log) == entries;
    assert entries[..1] == [Create("n")] && [Create("n")][..0] == [];
    assert Create("n") in [Create("n")];
    RunLast({}, map[], [Create("n")]);
    RunLast({}, map[], entries);
    var k := SlotKey("n", "k");
    assert Run({}, map[], entries) == map[k := NewSlot(c)];
    assert map[k := NewSlot(c)][k].fid == "3,a";
  }
}
