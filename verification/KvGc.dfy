/** The orphan-needle queue: candidates deduplicated by fid, kept until their deletion is confirmed. */
module KvGc {
  import opened Bytes
  import opened KvReplication

  const U128_MAX: nat := 0x1_0000_0000_0000_0000_0000_0000_0000_0000 - 1

  datatype GcEntry = GcEntry(fid: string, enqueuedAt: nat, reason: nat)

  type Queue = seq<GcEntry>

  ghost function Fids(queue: Queue): set<string> {
    set i | 0 <= i < |queue| :: queue[i].fid
  }

  ghost predicate Deduped(queue: Queue) {
    forall i, j :: 0 <= i < j < |queue| ==> queue[i].fid != queue[j].fid
  }

  predicate Queued(queue: Queue, fid: string) {
    exists i :: 0 <= i < |queue| && queue[i].fid == fid
  }

  function Enqueue(queue: Queue, entry: GcEntry): Queue {
    if Queued(queue, entry.fid) then queue else queue + [entry]
  }

  function EnqueueAll(queue: Queue, entries: seq<GcEntry>): Queue
    decreases |entries|
  {
    if entries == [] then queue else Enqueue(EnqueueAll(queue, entries[..|entries| - 1]), entries[|entries| - 1])
  }

  lemma EnqueueAdds(queue: Queue, entry: GcEntry)
    ensures Fids(Enqueue(queue, entry)) == Fids(queue) + {entry.fid}
    ensures Deduped(queue) ==> Deduped(Enqueue(queue, entry))
    ensures queue <= Enqueue(queue, entry)
  {
    var r := Enqueue(queue, entry);
    if Queued(queue, entry.fid) {
      assert entry.fid in Fids(queue);
    } else {
      assert r[|queue|] == entry;
      assert forall i :: 0 <= i < |queue| ==> r[i] == queue[i];
      assert entry.fid in Fids(r);
      forall f | f in Fids(queue)
        ensures f in Fids(r)
      {
        var i :| 0 <= i < |queue| && queue[i].fid == f;
        assert r[i].fid == f;
      }
    }
  }

  /** Queueing loses nothing that was queued, adds exactly the given fids, and keeps them unique. */
  lemma {:induction false} EnqueueAllAdds(queue: Queue, entries: seq<GcEntry>)
    ensures Fids(EnqueueAll(queue, entries)) == Fids(queue) + Fids(entries)
    ensures Deduped(queue) ==> Deduped(EnqueueAll(queue, entries))
    ensures queue <= EnqueueAll(queue, entries)
    decreases |entries|
  {
    hide Enqueue;
    if entries == [] {
      assert Fids(entries) == {};
    } else {
      var init, last := entries[..|entries| - 1], entries[|entries| - 1];
      EnqueueAllAdds(queue, init);
      EnqueueAdds(EnqueueAll(queue, init), last);
      FidsSplit(entries);
    }
  }

  lemma FidsSplit(entries: seq<GcEntry>)
    requires entries != []
    ensures Fids(entries) == Fids(entries[..|entries| - 1]) + {entries[|entries| - 1].fid}
  {}

  /** A candidate past its grace period; the sum saturates at the largest 128-bit value. */
  predicate IsDue(e: GcEntry, now: nat, grace: nat) {
    now >= Min(e.enqueuedAt + grace, U128_MAX)
  }

  /** Candidates past the grace period, in queue order.  Nothing is removed. */
  function Due(queue: Queue, now: nat, grace: nat): (r: Queue)
    ensures forall e :: e in r <==> e in queue && IsDue(e, now, grace)
  {
    hide IsDue;
    if queue == [] then []
    else
      var rest := Due(queue[1..], now, grace);
      assert queue == [queue[0]] + queue[1..];
      if IsDue(queue[0], now, grace) then [queue[0]] + rest else rest
  }

  /** Remove a confirmed candidate. */
  function Complete(queue: Queue, fid: string): (r: Queue)
    ensures forall e :: e in r <==> e in queue && e.fid != fid
  {
    if queue == [] then []
    else
      var rest := Complete(queue[1..], fid);
      assert queue == [queue[0]] + queue[1..];
      if queue[0].fid != fid then [queue[0]] + rest else rest
  }

  lemma {:induction false} CompleteStaysDeduped(queue: Queue, fid: string)
    requires Deduped(queue)
    ensures Deduped(Complete(queue, fid))
  {
    if queue != [] {
      CompleteStaysDeduped(queue[1..], fid);
      HeadDiffers(queue, Complete(queue[1..], fid));
    }
  }

  lemma HeadDiffers(queue: Queue, rest: Queue)
    requires queue != [] && Deduped(queue) && forall e :: e in rest ==> e in queue[1..]
    ensures forall j :: 0 <= j < |rest| ==> rest[j].fid != queue[0].fid
  {
    forall j | 0 <= j < |rest|
      ensures rest[j].fid != queue[0].fid
    {
      assert rest[j] in queue[1..];
      var i :| 0 <= i < |queue[1..]| && queue[1..][i] == rest[j];
      assert queue[i + 1] == rest[j];
    }
  }

  lemma InFids(queue: Queue, fid: string)
    ensures fid in Fids(queue) <==> exists e :: e in queue && e.fid == fid
  {}

  lemma CompleteFids(queue: Queue, fid: string)
    ensures Fids(Complete(queue, fid)) == Fids(queue) - {fid}
  {
    hide Complete, Fids;
    forall f: string
      ensures f in Fids(Complete(queue, fid)) <==> f in Fids(queue) - {fid}
    {
      InFids(queue, f);
      InFids(Complete(queue, fid), f);
    }
  }

  // ---------- references ----------

  /** Every needle the engine still points at: external slots and mapped blocks. */
  function Referenced(slots: Slots, fids: map<int, string>): set<string> {
    (set k | k in slots && slots[k].External? :: slots[k].fid) + (set id | id in fids :: fids[id])
  }

  ghost predicate NoLeak(owed: set<string>, slots: Slots, fids: map<int, string>, queue: Queue) {
    owed <= Referenced(slots, fids) + Fids(queue)
  }
}
