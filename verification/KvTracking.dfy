/** Needle tracking: what each replicated command does to references and the orphan queue, and when a needle
    can slip out of both. */
module KvTracking {
  import opened KvReplication
  import opened KvGc
  import opened Options

  type FidMap = map<int, string>

  function Entries(fids: seq<string>, at: nat, reason: nat): (r: seq<GcEntry>)
    ensures |r| == |fids| && forall i :: 0 <= i < |r| ==> r[i] == GcEntry(fids[i], at, reason)
  {
    seq(|fids|, i requires 0 <= i < |fids| => GcEntry(fids[i], at, reason))
  }

  lemma EntriesFids(fids: seq<string>, at: nat, reason: nat)
    ensures Fids(Entries(fids, at, reason)) == set f | f in fids
  {}

  // ---------- unmapping blocks ----------

  /** The fids of those of the ids that are mapped, in order. */
  function MappedFids(ids: seq<int>, fids: FidMap): (r: seq<string>)
    ensures forall f :: f in r <==> exists id :: id in ids && id in fids && fids[id] == f
  {
    if ids == [] then []
    else
      var rest := MappedFids(ids[1..], fids);
      assert forall id :: id in ids <==> id == ids[0] || id in ids[1..];
      if ids[0] in fids then [fids[ids[0]]] + rest else rest
  }

  lemma UnmapTracks(owed: set<string>, slots: Slots, fids: FidMap, gone: set<int>, queue: Queue, queue': Queue)
    requires NoLeak(owed, slots, fids, queue) && Fids(queue) <= Fids(queue')
    requires forall id :: id in gone && id in fids ==> fids[id] in Fids(queue')
    ensures NoLeak(owed, slots, fids - gone, queue')
  {
    hide Fids;
    forall f | f in Referenced(slots, fids)
      ensures f in Referenced(slots, fids - gone) + Fids(queue')
    {
      if id :| id in fids && fids[id] == f {
        if id !in gone {
          assert (fids - gone)[id] == f;
        }
      }
    }
  }

  // ---------- mapping blocks ----------

  /** Mapping a block keeps every needle in sight exactly when the fid it displaces, if any, is one nobody
      is owed or one some other reference or the queue still holds. */
  lemma RemapLeaks(owed: set<string>, slots: Slots, fids: FidMap, queue: Queue, id: int, fid: string)
    requires NoLeak(owed, slots, fids, queue)
    ensures NoLeak(owed + {fid}, slots, fids[id := fid], queue) <==>
            (id in fids && fids[id] != fid ==>
             fids[id] !in owed || fids[id] in Referenced(slots, fids - {id}) + Fids(queue))
  {
    hide Fids;
    ReferencedRemap(slots, fids, id, fid);
    if id in fids {
      ReferencedRemap(slots, fids - {id}, id, fids[id]);
      assert (fids - {id})[id := fids[id]] == fids;
    } else {
      assert fids - {id} == fids;
    }
  }

  lemma ReferencedRemap(slots: Slots, fids: FidMap, id: int, fid: string)
    ensures Referenced(slots, fids[id := fid]) == Referenced(slots, fids - {id}) + {fid}
  {
    var after, rest := fids[id := fid], fids - {id};
    var all := set i | i in after :: after[i];
    var others := set i | i in rest :: rest[i];
    assert fid in all by {
      assert after[id] == fid;
    }
    forall f | f in others
      ensures f in all
    {
      var i :| i in rest && rest[i] == f;
      assert after[i] == f;
    }
    forall f | f in all && f != fid
      ensures f in others
    {
      var i :| i in after && after[i] == f;
      assert rest[i] == f;
    }
  }

  /** A block id that moves to another fid loses sight of the first one: nothing queues it. */
  lemma RemapLosesNeedle()
    ensures var fids: FidMap := map[1 := "3,a"];
            && NoLeak({"3,a"}, map[], fids, [])
            && !NoLeak({"3,a", "3,b"}, map[], fids[1 := "3,b"], [])
  {
    var fids: FidMap := map[1 := "3,a"];
    assert fids[1] == "3,a";
    assert fids - {1} == map[];
    assert Fids([]) == {};
    RemapLeaks({"3,a"}, map[], fids, [], 1, "3,b");
    assert "3,a" != "3,b";
    assert {"3,a"} + {"3,b"} == {"3,a", "3,b"};
  }

  // ---------- replicated puts ----------

  /** The needle the slot points at, unless the command names the same one. */
  function ReplacedFids(namespaces: set<string>, slots: Slots, c: Command): seq<string>
    requires c.Put?
  {
    var k := SlotKey(c.ns, c.key);
    if c.ns in namespaces && !Stale(slots, k, c.version) && k in slots && slots[k].External? && slots[k].fid != c.fid
    then [slots[k].fid] else []
  }

  function PutQueue(namespaces: set<string>, slots: Slots, queue: Queue, c: Command, at: nat): Queue
    requires c.Put?
  {
    EnqueueAll(queue, Entries(ReplacedFids(namespaces, slots, c), at, 0))
  }

  ghost function PutOwed(namespaces: set<string>, slots: Slots, owed: set<string>, c: Command): set<string>
    requires c.Put?
  {
    if c.inline || c.ns !in namespaces || Stale(slots, SlotKey(c.ns, c.key), c.version) then owed else owed + {c.fid}
  }

  /** The put overwrites a marker with inline bytes while naming the marker's own fid. */
  predicate Forgets(namespaces: set<string>, slots: Slots, c: Command)
    requires c.Put?
  {
    var k := SlotKey(c.ns, c.key);
    c.ns in namespaces && !Stale(slots, k, c.version) && c.inline && k in slots && slots[k].External? &&
        slots[k].fid == c.fid
  }

  lemma ReferencedSlot(slots: Slots, fids: FidMap, k: string, slot: Slot)
    ensures Referenced(slots[k := slot], fids) ==
            Referenced(slots - {k}, fids) + if slot.External? then {slot.fid} else {}
  {
    var after, rest := slots[k := slot], slots - {k};
    var all := set i | i in after && after[i].External? :: after[i].fid;
    var others := set i | i in rest && rest[i].External? :: rest[i].fid;
    if slot.External? {
      assert slot.fid in all by {
        assert after[k] == slot;
      }
    }
    forall f | f in others
      ensures f in all
    {
      var i :| i in rest && rest[i].External? && rest[i].fid == f;
      assert after[i] == rest[i];
    }
    forall f | f in all && !(slot.External? && slot.fid == f)
      ensures f in others
    {
      var i :| i in after && after[i].External? && after[i].fid == f;
      assert rest[i] == after[i];
    }
  }

  lemma ReferencedWithout(slots: Slots, fids: FidMap, k: string)
    ensures Referenced(slots, fids) ==
            Referenced(slots - {k}, fids) + if k in slots && slots[k].External? then {slots[k].fid} else {}
  {
    if k in slots {
      ReferencedSlot(slots, fids, k, slots[k]);
      assert slots[k := slots[k]] == slots;
    } else {
      assert slots - {k} == slots;
    }
  }

  lemma PutQueueFids(namespaces: set<string>, slots: Slots, queue: Queue, c: Command, at: nat)
    requires c.Put?
    ensures Fids(PutQueue(namespaces, slots, queue, c, at)) ==
            Fids(queue) + set f | f in ReplacedFids(namespaces, slots, c)
    ensures Deduped(queue) ==> Deduped(PutQueue(namespaces, slots, queue, c, at))
  {
    var fs := ReplacedFids(namespaces, slots, c);
    EntriesFids(fs, at, 0);
    EnqueueAllAdds(queue, Entries(fs, at, 0));
  }

  /** A put keeps every needle in sight exactly when it does not overwrite a marker with inline bytes while
      naming the marker's own fid -- or that fid is one nobody is owed, or something else still holds it. */
  lemma PutLeaks(namespaces: set<string>, owed: set<string>, slots: Slots, fids: FidMap, queue: Queue, c: Command,
                 at: nat)
    requires c.Put? && NoLeak(owed, slots, fids, queue)
    ensures NoLeak(PutOwed(namespaces, slots, owed, c), ApplyPut(namespaces, slots, c), fids,
                   PutQueue(namespaces, slots, queue, c, at)) <==>
            (Forgets(namespaces, slots, c) ==>
               c.fid !in owed || c.fid in Referenced(slots - {SlotKey(c.ns, c.key)}, fids) + Fids(queue))
  {
    var k := SlotKey(c.ns, c.key);
    PutQueueFids(namespaces, slots, queue, c, at);
    ReferencedWithout(slots, fids, k);
    ReferencedSlot(slots, fids, k, NewSlot(c));
    hide Fids, Referenced, PutQueue, SlotKey;
  }

  /** An inline put that names the fid of the marker it overwrites loses sight of that needle. */
  lemma InlinePutLosesNeedle()
    ensures var slots: Slots := map[SlotKey("n", "k") := External("3,a", 10, "o", 1)];
            var c := Put("n", "k", true, [], "3,a", 0, "o", 2);
            && NoLeak({"3,a"}, slots, map[], [])
            && !NoLeak(PutOwed({"n"}, slots, {"3,a"}, c), ApplyPut({"n"}, slots, c), map[],
                       PutQueue({"n"}, slots, [], c, 0))
  {
    var k := SlotKey("n", "k");
    var slots: Slots := map[k := External("3,a", 10, "o", 1)];
    var c := Put("n", "k", true, [], "3,a", 0, "o", 2);
    assert slots[k].fid == "3,a";
    assert slots - {k} == map[];
    assert Fids([]) == {};
    PutLeaks({"n"}, {"3,a"}, slots, map[], [], c, 0);
  }

  // ---------- replicated deletions ----------

  /** The needles the deleted slots point at, each once, in the order the keys are met. */
  function DeletedFids(slots: Slots, ns: string, keys: seq<string>): (r: seq<string>)
    ensures forall f :: f in r <==>
              exists key :: key in keys && SlotKey(ns, key) in slots &&
                            slots[SlotKey(ns, key)].External? && slots[SlotKey(ns, key)].fid == f
    decreases |keys|
  {
    hide SlotKey;
    if keys == [] then []
    else
      var init, key := keys[..|keys| - 1], keys[|keys| - 1];
      var rest := DeletedFids(slots, ns, init);
      assert forall x :: x in keys <==> x in init || x == key;
      var k := SlotKey(ns, key);
      if k in slots && slots[k].External? && slots[k].fid !in rest then rest + [slots[k].fid] else rest
  }

  lemma DeleteTracks(owed: set<string>, slots: Slots, fids: FidMap, queue: Queue, c: Command, queue': Queue)
    requires c.DeleteKeys? && NoLeak(owed, slots, fids, queue)
    requires Fids(queue) <= Fids(queue') && forall f :: f in DeletedFids(slots, c.ns, c.keys) ==> f in Fids(queue')
    ensures NoLeak(owed, slots - DeletedKeys(c), fids, queue')
  {
    hide Fids, SlotKey;
    var gone := DeletedKeys(c);
    forall f | f in Referenced(slots, fids)
      ensures f in Referenced(slots - gone, fids) + Fids(queue')
    {
      if k :| k in slots && slots[k].External? && slots[k].fid == f {
        if k in gone {
          var key :| key in c.keys && SlotKey(c.ns, key) == k;
          assert f in DeletedFids(slots, c.ns, c.keys);
        } else {
          assert (slots - gone)[k].fid == f;
        }
      }
    }
  }

  // ---------- replay ----------

  /** What a command adds to the orphan queue. */
  function QueuedFids(namespaces: set<string>, slots: Slots, c: Command): seq<string> {
    if c.Put? then ReplacedFids(namespaces, slots, c) else DeletedFids(slots, c.ns, c.keys)
  }

  predicate Holds(slot: Option<Slot>, fid: string) {
    slot.Some? && slot.value.External? && slot.value.fid == fid
  }

  /** The command takes the needle out of the key's slot and queues it. */
  predicate Queues(namespaces: set<string>, slot: Option<Slot>, c: Command, k: string, fid: string) {
    Holds(slot, fid) && (Deletes(c, k) || (Puts(namespaces, c, k) && c.version >= Guard(slot) && c.fid != fid))
  }

  /** A command queues a needle exactly when it takes it out of some key's slot. */
  lemma QueuedByKey(namespaces: set<string>, slots: Slots, c: Command, fid: string)
    ensures fid in QueuedFids(namespaces, slots, c) <==> exists k :: Queues(namespaces, At(slots, k), c, k, fid)
  {
    hide SlotKey;
    if fid in QueuedFids(namespaces, slots, c) {
      if c.Put? {
        assert Queues(namespaces, At(slots, SlotKey(c.ns, c.key)), c, SlotKey(c.ns, c.key), fid);
      } else {
        var key :| key in c.keys && SlotKey(c.ns, key) in slots && slots[SlotKey(c.ns, key)].External? &&
                   slots[SlotKey(c.ns, key)].fid == fid;
        assert Queues(namespaces, At(slots, SlotKey(c.ns, key)), c, SlotKey(c.ns, key), fid);
      }
    }
  }

  /** A deletion makes a log forget what it started from. */
  lemma DeletionForgets(namespaces: set<string>, x: Option<Slot>, y: Option<Slot>, log: seq<Command>, k: string)
    requires Deleted(log, k)
    ensures FoldKey(namespaces, x, log, k) == FoldKey(namespaces, y, log, k)
  {
    var v := FoldWins(namespaces, x, log, k);
    var w := FoldWins(namespaces, y, log, k);
    hide FoldKey, Stands, Deleted;
  }

  /** What position i of a replay meets in a key: once a deletion lies behind it, what the first pass met there;
      until then the final slot, or the put that has outranked it so far (w). */
  lemma ReplayMeets(namespaces: set<string>, start: Option<Slot>, log: seq<Command>, i: nat, k: string) returns (w: int)
    requires i <= |log|
    ensures var once := FoldKey(namespaces, start, log, k);
            var met := FoldKey(namespaces, once, log[..i], k);
            && -1 <= w < i
            && (Deleted(log[..i], k) ==> met == FoldKey(namespaces, start, log[..i], k))
            && (!Deleted(log[..i], k) && w == -1 ==>
                  met == once && forall j :: Stands(namespaces, log[..i], j, k) ==> log[j].version < Guard(once))
            && (!Deleted(log[..i], k) && w >= 0 ==>
                  Outranks(namespaces, log[..i], w, k) && log[w].version >= Guard(once) && met == Some(NewSlot(log[w])))
  {
    var once := FoldKey(namespaces, start, log, k);
    w := FoldWins(namespaces, once, log[..i], k);
    hide FoldKey;
    if Deleted(log[..i], k) {
      DeletionForgets(namespaces, once, start, log[..i], k);
    }
  }

  /** As long as no position of a replay queues the needle, the key goes on holding it. */
  lemma {:induction false} HeldUntilQueued(namespaces: set<string>, once: Option<Slot>, log: seq<Command>, n: nat,
                                           k: string, fid: string)
    requires n <= |log| && Holds(once, fid)
    requires forall i :: 0 <= i < n ==> !Queues(namespaces, FoldKey(namespaces, once, log[..i], k), log[i], k, fid)
    requires forall i :: 0 <= i < |log| && Puts(namespaces, log[i], k) && log[i].inline ==> log[i].fid != fid
    ensures Holds(FoldKey(namespaces, once, log[..n], k), fid)
    decreases n
  {
    if n > 0 {
      HeldUntilQueued(namespaces, once, log, n - 1, k, fid);
      assert log[..n][..n - 1] == log[..n - 1];
      FoldLast(namespaces, once, log[..n], k);
      hide FoldKey, SlotKey, DeletedKeys;
      assert !Queues(namespaces, FoldKey(namespaces, once, log[..n - 1], k), log[n - 1], k, fid);
    }
  }

  /** Nothing a log without deletions put before position i is newer than what the log leaves, and a replay meets
      nothing older. */
  lemma ReplayMeetsSameVersion(namespaces: set<string>, start: Option<Slot>, log: seq<Command>, i: nat, k: string)
    requires i <= |log| && !Deleted(log, k)
    ensures var once := FoldKey(namespaces, start, log, k);
            Guard(FoldKey(namespaces, once, log[..i], k)) == Guard(once)
  {
    var w := ReplayMeets(namespaces, start, log, i, k);
    var v := FoldWins(namespaces, start, log, k);
    assert !Deleted(log[..i], k);
    hide FoldKey, SlotKey;
    if w >= 0 {
      assert Stands(namespaces, log, w, k) by {
        assert forall j :: 0 <= j < |log| ==> !Deletes(log[j], k);
      }
    }
  }

  /** The replay takes the needle that the key ends up with out of the key at position i, and queues it. */
  ghost predicate QueuesLive(namespaces: set<string>, once: Option<Slot>, log: seq<Command>, i: int, k: string)
    requires once.Some? && once.value.External?
  {
    0 <= i < |log| && Queues(namespaces, FoldKey(namespaces, once, log[..i], k), log[i], k, once.value.fid)
  }

  /** Position by position: behind a deletion a replay queues the needle where the first pass did; until then it does
      exactly where the key still holds the needle -- no put so far has installed anything else over it -- and the
      log deletes the key, or puts another needle that neither the final slot nor an earlier put outranks. */
  lemma QueuesLiveAt(namespaces: set<string>, start: Option<Slot>, log: seq<Command>, i: nat, k: string)
    requires var once := FoldKey(namespaces, start, log, k); i < |log| && once.Some? && once.value.External?
    ensures var once := FoldKey(namespaces, start, log, k);
            var fid := once.value.fid;
            QueuesLive(namespaces, once, log, i, k) <==>
              if Deleted(log[..i], k) then Queues(namespaces, FoldKey(namespaces, start, log[..i], k), log[i], k, fid)
              else
                && (forall w :: Outranks(namespaces, log[..i], w, k) && log[w].version >= Guard(once) ==>
                                  Holds(Some(NewSlot(log[w])), fid))
                && (Deletes(log[i], k) ||
                    (Rivals(namespaces, once, log[i], k) &&
                     forall j :: Stands(namespaces, log[..i], j, k) ==> log[j].version <= log[i].version))
  {
    var w := ReplayMeets(namespaces, start, log, i, k);
    hide FoldKey, SlotKey, Deleted, DeletedKeys, Stands;
    if w >= 0 {
      assert forall j :: Outranks(namespaces, log[..i], j, k) && Outranks(namespaces, log[..i], w, k) ==> j == w;
    }
  }

  /** A put of another needle that the final slot is too old to turn away. */
  predicate Rivals(namespaces: set<string>, once: Option<Slot>, c: Command, k: string)
    requires once.Some? && once.value.External?
  {
    Puts(namespaces, c, k) && c.version >= Guard(once) && c.fid != once.value.fid
  }

  /** The key ends up with a needle that no inline put to it names. */
  ghost predicate EndsWithNeedle(namespaces: set<string>, once: Option<Slot>, log: seq<Command>, k: string) {
    && once.Some? && once.value.External?
    && forall i :: 0 <= i < |log| && Puts(namespaces, log[i], k) && log[i].inline ==> log[i].fid != once.value.fid
  }

  lemma QueuedByRival(namespaces: set<string>, start: Option<Slot>, log: seq<Command>, i: nat, k: string)
    requires var once := FoldKey(namespaces, start, log, k);
             once.Some? && once.value.External? && !Deleted(log, k) && QueuesLive(namespaces, once, log, i, k)
    ensures Rivals(namespaces, FoldKey(namespaces, start, log, k), log[i], k)
  {
    ReplayMeetsSameVersion(namespaces, start, log, i, k);
    hide FoldKey, SlotKey;
    assert !Deletes(log[i], k);
  }

  /** A deletion or a rival queues the needle, unless something before it has. */
  lemma RivalQueues(namespaces: set<string>, start: Option<Slot>, log: seq<Command>, i: nat, k: string) returns (j: nat)
    requires var once := FoldKey(namespaces, start, log, k);
             && EndsWithNeedle(namespaces, once, log, k) && i < |log|
             && (Deletes(log[i], k) || (!Deleted(log, k) && Rivals(namespaces, once, log[i], k)))
    ensures QueuesLive(namespaces, FoldKey(namespaces, start, log, k), log, j, k)
  {
    var once := FoldKey(namespaces, start, log, k);
    var fid := once.value.fid;
    if j' :| 0 <= j' < i && Queues(namespaces, FoldKey(namespaces, once, log[..j'], k), log[j'], k, fid) {
      j := j';
    } else {
      j := i;
      HeldUntilQueued(namespaces, once, log, i, k, fid);
      if !Deleted(log, k) {
        ReplayMeetsSameVersion(namespaces, start, log, i, k);
      }
    }
    hide FoldKey, SlotKey, DeletedKeys, Deleted;
  }

  /** Replaying a log queues the needle a key ends up with -- a needle in use before and after -- exactly when the
      log deletes the key somewhere or puts another needle under a version that is not older. */
  lemma ReplayQueuesLive(namespaces: set<string>, start: Option<Slot>, log: seq<Command>, k: string)
    requires EndsWithNeedle(namespaces, FoldKey(namespaces, start, log, k), log, k)
    ensures var once := FoldKey(namespaces, start, log, k);
            && FoldKey(namespaces, once, log, k) == once
            && ((exists i :: QueuesLive(namespaces, once, log, i, k)) <==>
                  Deleted(log, k) || exists i :: 0 <= i < |log| && Rivals(namespaces, once, log[i], k))
  {
    hide FoldKey, QueuesLive, Rivals, Deletes;
    var once := FoldKey(namespaces, start, log, k);
    KeyReplays(namespaces, start, log, k);
    if i :| QueuesLive(namespaces, once, log, i, k) {
      if !Deleted(log, k) {
        Position(namespaces, once, log, i, k);
        QueuedByRival(namespaces, start, log, i, k);
      }
    }
    if i :| 0 <= i < |log| && (Deletes(log[i], k) || (!Deleted(log, k) && Rivals(namespaces, once, log[i], k))) {
      var j := RivalQueues(namespaces, start, log, i, k);
    }
  }

  lemma Position(namespaces: set<string>, once: Option<Slot>, log: seq<Command>, i: int, k: string)
    requires once.Some? && once.value.External? && QueuesLive(namespaces, once, log, i, k)
    ensures 0 <= i < |log|
  {}

  /** Replaying a log can queue a needle that is in use: the second pass of [put v1 a, delete, put v2 b] meets
      the newer marker b, turns put v1 away, and the deletion then queues b before put v2 installs it again. */
  lemma ReplayQueuesLiveNeedle()
    ensures var del := DeleteKeys("n", ["k"]);
            var second := Put("n", "k", false, [], "3,b", 10, "o", 2);
            var log := [Put("n", "k", false, [], "3,a", 10, "o", 1), del, second];
            var once := ApplyLog({"n"}, map[], log);
            && once == map[SlotKey("n", "k") := NewSlot(second)]
            && ApplyLog({"n"}, once, log[..1]) == once
            && DeletedFids(ApplyLog({"n"}, once, log[..1]), del.ns, del.keys) == ["3,b"]
            && "3,b" in Referenced(ApplyLog({"n"}, once, log), map[])
  {
    var del := DeleteKeys("n", ["k"]);
    var first := Put("n", "k", false, [], "3,a", 10, "o", 1);
    var second := Put("n", "k", false, [], "3,b", 10, "o", 2);
    var log := [first, del, second];
    var k := SlotKey("n", "k");
    var empty: Slots := map[];
    var once: Slots := map[k := NewSlot(second)];
    assert log[..2] == [first, del] && log[..1] == [first] && [first, del][..1] == [first] && [first][..0] == [];
    assert DeletedKeys(del) == {k};
    OneStep(empty, [], first);
    assert Apply({"n"}, empty, first) == map[k := NewSlot(first)];
    OneStep(empty, [first], del);
    assert Apply({"n"}, map[k := NewSlot(first)], del) == map[];
    OneStep(empty, [first, del], second);
    assert [first] + [del] == [first, del] && [first, del] + [second] == log && [] + [first] == [first];
    assert ApplyLog({"n"}, empty, log) == once;
    LogReplays({"n"}, empty, log);
    OneStep(once, [], first);
    assert DeletedFids(once, "n", ["k"][..0]) == [];
    assert once[k].fid == "3,b";
  }

  /** No deletion is needed: of two needles under one version the second pass of [put v1 a, put v1 b] installs a
      over b, which queues b, before it installs b again. */
  lemma ReplayQueuesRival()
    ensures var first := Put("n", "k", false, [], "3,a", 10, "o", 1);
            var second := Put("n", "k", false, [], "3,b", 10, "o", 1);
            var once := ApplyLog({"n"}, map[], [first, second]);
            && once == map[SlotKey("n", "k") := NewSlot(second)]
            && QueuedFids({"n"}, once, first) == ["3,b"]
            && "3,b" in Referenced(ApplyLog({"n"}, once, [first, second]), map[])
  {
    var first := Put("n", "k", false, [], "3,a", 10, "o", 1);
    var second := Put("n", "k", false, [], "3,b", 10, "o", 1);
    var k := SlotKey("n", "k");
    var empty: Slots := map[];
    var once: Slots := map[k := NewSlot(second)];
    OneStep(empty, [], first);
    OneStep(empty, [first], second);
    assert [] + [first] == [first] && [first] + [second] == [first, second];
    assert Apply({"n"}, empty, first) == map[k := NewSlot(first)];
    assert ApplyLog({"n"}, empty, [first, second]) == once;
    LogReplays({"n"}, empty, [first, second]);
    assert "3,a" != "3,b";
    assert once[k].fid == "3,b";
  }

  lemma OneStep(slots: Slots, log: seq<Command>, c: Command)
    ensures ApplyLog({"n"}, slots, log + [c]) == Apply({"n"}, ApplyLog({"n"}, slots, log), c)
  {}
}
