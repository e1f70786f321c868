/** Replicated key-value commands: versioned upserts and key deletions, applied in log order on every
    replica and replayed after a restart. */
module KvReplication {
  import opened Bytes
  import opened Options

  /** A slot holds the value inline, or a reference to a volume needle, or bytes nobody can parse. */
  datatype Slot =
    | Inline(data: Bytes, owner: string, version: nat)
    | External(fid: string, size: nat, owner: string, version: nat)
    | Opaque(raw: Bytes)

  type Slots = map<string, Slot>

  datatype Command =
    | Put(ns: string, key: string, inline: bool, data: Bytes, fid: string, size: nat, owner: string, version: nat)
    | DeleteKeys(ns: string, keys: seq<string>)

  function SlotKey(ns: string, key: string): string {
    "kv:" + ns + ":" + key
  }

  function SlotVersion(slot: Slot): Option<nat> {
    match slot
    case Inline(_, _, version) => Some(version)
    case External(_, _, _, version) => Some(version)
    case Opaque(_) => None
  }

  function NewSlot(c: Command): Slot
    requires c.Put?
  {
    if c.inline then Inline(c.data, c.owner, c.version) else External(c.fid, c.size, c.owner, c.version)
  }

  /** A slot that is strictly newer turns the write away; bytes nobody can parse never do. */
  predicate Stale(slots: Slots, k: string, version: nat) {
    k in slots && SlotVersion(slots[k]).Some? && SlotVersion(slots[k]).value > version
  }

  function ApplyPut(namespaces: set<string>, slots: Slots, c: Command): Slots
    requires c.Put?
  {
    var k := SlotKey(c.ns, c.key);
    if c.ns !in namespaces || Stale(slots, k, c.version) then slots else slots[k := NewSlot(c)]
  }

  /** A put is accepted when its namespace is known and its slot holds no value of a larger version. */
  predicate Accepted(namespaces: set<string>, slots: Slots, ns: string, key: string, version: nat) {
    var k := "kv:" + ns + ":" + key;
    ns in namespaces && (k in slots && !slots[k].Opaque? ==> slots[k].version <= version)
  }

  /** A put that is accepted leaves exactly its own bytes, or its own reference, with its owner and its version, in
      the slot of its key and in no other; one that is not accepted changes nothing. */
  lemma PutStores(namespaces: set<string>, slots: Slots, c: Command)
    requires c.Put?
    ensures ApplyPut(namespaces, slots, c) == (
              if !Accepted(namespaces, slots, c.ns, c.key, c.version) then slots
              else if c.inline then slots["kv:" + c.ns + ":" + c.key := Inline(c.data, c.owner, c.version)]
              else slots["kv:" + c.ns + ":" + c.key := External(c.fid, c.size, c.owner, c.version)])
  {
    assert SlotKey(c.ns, c.key) == "kv:" + c.ns + ":" + c.key;
  }

  /** A deletion takes away the slots of its keys and of no others. */
  lemma DeletionRemoves(namespaces: set<string>, slots: Slots, c: Command)
    requires c.DeleteKeys?
    ensures forall k :: k in Apply(namespaces, slots, c) <==>
                          k in slots && forall key :: key in c.keys ==> k != "kv:" + c.ns + ":" + key
    ensures forall k :: k in Apply(namespaces, slots, c) ==> Apply(namespaces, slots, c)[k] == slots[k]
  {
    forall key | key in c.keys
      ensures SlotKey(c.ns, key) in DeletedKeys(c) && SlotKey(c.ns, key) == "kv:" + c.ns + ":" + key
    {}
  }

  function DeletedKeys(c: Command): set<string>
    requires c.DeleteKeys?
  {
    set key | key in c.keys :: SlotKey(c.ns, key)
  }

  function Apply(namespaces: set<string>, slots: Slots, c: Command): Slots {
    if c.Put? then ApplyPut(namespaces, slots, c) else slots - DeletedKeys(c)
  }

  function ApplyLog(namespaces: set<string>, slots: Slots, log: seq<Command>): Slots
    decreases |log|
  {
    if log == [] then slots
    else Apply(namespaces, ApplyLog(namespaces, slots, log[..|log| - 1]), log[|log| - 1])
  }

  // ---------- one key at a time ----------

  function At(slots: Slots, k: string): Option<Slot> {
    if k in slots then Some(slots[k]) else None
  }

  /** The version that guards a key, -1 when anything may overwrite it. */
  function Guard(slot: Option<Slot>): int {
    if slot.Some? && SlotVersion(slot.value).Some? then SlotVersion(slot.value).value else -1
  }

  predicate Puts(namespaces: set<string>, c: Command, k: string) {
    c.Put? && c.ns in namespaces && SlotKey(c.ns, c.key) == k
  }

  function StepKey(namespaces: set<string>, slot: Option<Slot>, c: Command, k: string): Option<Slot> {
    if Puts(namespaces, c, k) then (if Guard(slot) > c.version then slot else Some(NewSlot(c)))
    else if c.DeleteKeys? && k in DeletedKeys(c) then None
    else slot
  }

  function FoldKey(namespaces: set<string>, slot: Option<Slot>, log: seq<Command>, k: string): Option<Slot>
    decreases |log|
  {
    if log == [] then slot
    else StepKey(namespaces, FoldKey(namespaces, slot, log[..|log| - 1], k), log[|log| - 1], k)
  }

  lemma ApplyIsPerKey(namespaces: set<string>, slots: Slots, c: Command, k: string)
    ensures At(Apply(namespaces, slots, c), k) == StepKey(namespaces, At(slots, k), c, k)
  {}

  lemma {:induction false} LogIsPerKey(namespaces: set<string>, slots: Slots, log: seq<Command>, k: string)
    ensures At(ApplyLog(namespaces, slots, log), k) == FoldKey(namespaces, At(slots, k), log, k)
    decreases |log|
  {
    hide Apply, StepKey;
    if log != [] {
      var init := log[..|log| - 1];
      LogIsPerKey(namespaces, slots, init, k);
      ApplyIsPerKey(namespaces, ApplyLog(namespaces, slots, init), log[|log| - 1], k);
    }
  }

  // ---------- convergence ----------

  predicate Deletes(c: Command, k: string) {
    c.DeleteKeys? && k in DeletedKeys(c)
  }

  predicate Deleted(log: seq<Command>, k: string) {
    exists i :: 0 <= i < |log| && Deletes(log[i], k)
  }

  /** The slot a log builds on: a deletion anywhere in it wipes out what was there before. */
  function Base(start: Option<Slot>, log: seq<Command>, k: string): Option<Slot> {
    if Deleted(log, k) then None else start
  }

  /** A put to the key that no later deletion takes back. */
  ghost predicate Stands(namespaces: set<string>, log: seq<Command>, i: int, k: string) {
    0 <= i < |log| && Puts(namespaces, log[i], k) && forall j :: i < j < |log| ==> !Deletes(log[j], k)
  }

  /** The standing put of the largest version, and the last one of that version. */
  ghost predicate Outranks(namespaces: set<string>, log: seq<Command>, i: int, k: string) {
    && Stands(namespaces, log, i, k)
    && forall j :: Stands(namespaces, log, j, k) ==>
                     log[j].version < log[i].version || (log[j].version == log[i].version && j <= i)
  }

  lemma StandsInLonger(namespaces: set<string>, log: seq<Command>, k: string)
    requires log != []
    ensures var init, last := log[..|log| - 1], log[|log| - 1];
            && (Deleted(log, k) <==> Deleted(init, k) || Deletes(last, k))
            && (forall i :: Stands(namespaces, log, i, k) <==>
                              (Stands(namespaces, init, i, k) && !Deletes(last, k)) ||
                              (i == |log| - 1 && Puts(namespaces, last, k)))
            && (forall i :: Stands(namespaces, init, i, k) ==> 0 <= i < |init| && init[i] == log[i] && log[i].Put?)
  {
    hide Deletes;
    var init, last := log[..|log| - 1], log[|log| - 1];
    assert forall i :: 0 <= i < |init| ==> init[i] == log[i];
    assert forall i :: i == |log| - 1 ==> log[i] == last;
    if Deleted(init, k) {
      var i :| 0 <= i < |init| && Deletes(init[i], k);
      assert Deletes(log[i], k);
    }
  }

  /** What a log leaves in a key: its base when that is newer than every standing put (-1), otherwise the slot
      of the put that outranks all others. */
  lemma {:induction false} FoldWins(namespaces: set<string>, start: Option<Slot>, log: seq<Command>, k: string)
    returns (w: int)
    ensures -1 <= w < |log|
    ensures w == -1 ==> FoldKey(namespaces, start, log, k) == Base(start, log, k) &&
                        forall i :: Stands(namespaces, log, i, k) ==> log[i].version < Guard(Base(start, log, k))
    ensures w >= 0 ==> Outranks(namespaces, log, w, k) && log[w].version >= Guard(Base(start, log, k)) &&
                       FoldKey(namespaces, start, log, k) == Some(NewSlot(log[w]))
    ensures w >= 0 && log[w].inline ==>
              FoldKey(namespaces, start, log, k) == Some(Inline(log[w].data, log[w].owner, log[w].version))
    ensures w >= 0 && !log[w].inline ==>
              FoldKey(namespaces, start, log, k) ==
                Some(External(log[w].fid, log[w].size, log[w].owner, log[w].version))
    decreases |log|
  {
    hide SlotKey, DeletedKeys, Deleted, Stands;
    w := -1;
    if log == [] {
      assert !Deleted(log, k) && forall i :: !Stands(namespaces, log, i, k) by {
        NothingStands(namespaces, k);
      }
    } else {
      var init, last := log[..|log| - 1], log[|log| - 1];
      StandsInLonger(namespaces, log, k);
      w := FoldWins(namespaces, start, init, k);
      var before := FoldKey(namespaces, start, init, k);
      if Deletes(last, k) {
        w := -1;
      } else if Puts(namespaces, last, k) && Guard(before) <= last.version {
        w := |log| - 1;
      }
    }
  }

  lemma NothingStands(namespaces: set<string>, k: string)
    ensures !Deleted([], k) && forall i :: !Stands(namespaces, [], i, k)
  {}

  ghost predicate AllPuts(namespaces: set<string>, puts: seq<Command>, k: string) {
    forall i :: 0 <= i < |puts| ==> Puts(namespaces, puts[i], k)
  }

  /** Convergence: replicas that apply the same puts to a key, in any order and with any repetitions, end in
      the same slot -- that of the largest version -- as long as no two different puts share a version. */
  lemma PutsConverge(namespaces: set<string>, start: Option<Slot>, p: seq<Command>, q: seq<Command>, k: string)
    requires AllPuts(namespaces, p, k)
    requires forall c :: c in p <==> c in q
    requires forall i, j :: 0 <= i < |p| && 0 <= j < |p| && p[i].version == p[j].version ==> p[i] == p[j]
    ensures FoldKey(namespaces, start, p, k) == FoldKey(namespaces, start, q, k)
  {
    hide SlotKey, FoldKey;
    forall i | 0 <= i < |q|
      ensures Puts(namespaces, q[i], k)
    {
      var j := Find(q, p, i);
    }
    AllStand(namespaces, p, k);
    AllStand(namespaces, q, k);
    var v := FoldWins(namespaces, start, p, k);
    var w := FoldWins(namespaces, start, q, k);
    if v >= 0 {
      var i := Find(p, q, v);
      if w >= 0 {
        var j := Find(q, p, w);
        assert p[v] == p[j];
      }
    } else if w >= 0 {
      var j := Find(q, p, w);
    }
  }

  lemma AllStand(namespaces: set<string>, puts: seq<Command>, k: string)
    requires AllPuts(namespaces, puts, k)
    ensures !Deleted(puts, k) && forall i :: 0 <= i < |puts| ==> Stands(namespaces, puts, i, k)
  {
    assert forall i :: 0 <= i < |puts| ==> Puts(namespaces, puts[i], k);
  }

  lemma Find(p: seq<Command>, q: seq<Command>, i: nat) returns (j: nat)
    requires i < |p| && forall c :: c in p <==> c in q
    ensures j < |q| && q[j] == p[i]
  {
    assert p[i] in q;
    j :| 0 <= j < |q| && q[j] == p[i];
  }

  /** Two puts to one key commute exactly when their versions differ, or they write the same slot, or the
      key is already newer than both. */
  lemma TwoPutsCommute(namespaces: set<string>, start: Option<Slot>, a: Command, b: Command, k: string)
    requires Puts(namespaces, a, k) && Puts(namespaces, b, k)
    ensures FoldKey(namespaces, start, [a, b], k) == FoldKey(namespaces, start, [b, a], k) <==>
            (a.version != b.version || NewSlot(a) == NewSlot(b) || Guard(start) > a.version)
  {
    hide SlotKey;
    FoldTwo(namespaces, start, a, b, k);
    FoldTwo(namespaces, start, b, a, k);
  }

  lemma FoldTwo(namespaces: set<string>, start: Option<Slot>, a: Command, b: Command, k: string)
    ensures FoldKey(namespaces, start, [a, b], k) == StepKey(namespaces, StepKey(namespaces, start, a, k), b, k)
  {
    hide StepKey;
    assert [a, b][..1] == [a];
    assert [a][..0] == [];
    assert FoldKey(namespaces, start, [a], k) == StepKey(namespaces, FoldKey(namespaces, start, [], k), a, k);
  }

  // ---------- replay ----------

  lemma GuardSteps(namespaces: set<string>, x: Option<Slot>, y: Option<Slot>, bound: int, c: Command, k: string)
    requires Guard(x) <= bound || Guard(x) <= Guard(y)
    ensures var x', y' := StepKey(namespaces, x, c, k), StepKey(namespaces, y, c, k);
            Guard(x') <= bound || Guard(x') <= Guard(y')
  {}

  /** Folding a log from another start never guards a key more tightly than that start, or than the log does. */
  lemma {:induction false} FoldGuards(namespaces: set<string>, x: Option<Slot>, y: Option<Slot>, log: seq<Command>,
                                      k: string)
    ensures var fx, fy := FoldKey(namespaces, x, log, k), FoldKey(namespaces, y, log, k);
            Guard(fx) <= Guard(x) || Guard(fx) <= Guard(fy)
    decreases |log|
  {
    hide StepKey, Guard;
    if log != [] {
      var init := log[..|log| - 1];
      FoldGuards(namespaces, x, y, init, k);
      var fx, fy := FoldKey(namespaces, x, init, k), FoldKey(namespaces, y, init, k);
      GuardSteps(namespaces, fx, fy, Guard(x), log[|log| - 1], k);
    }
  }

  lemma {:induction false} KeyReplays(namespaces: set<string>, start: Option<Slot>, log: seq<Command>, k: string)
    ensures FoldKey(namespaces, FoldKey(namespaces, start, log, k), log, k) == FoldKey(namespaces, start, log, k)
    decreases |log|
  {
    if log != [] {
      var init, last := log[..|log| - 1], log[|log| - 1];
      KeyReplays(namespaces, start, init, k);
      var a := FoldKey(namespaces, start, init, k);
      var b := FoldKey(namespaces, start, log, k);
      FoldGuards(namespaces, b, start, init, k);
      hide SlotKey, FoldKey;
      assert b == StepKey(namespaces, a, last, k) by { FoldLast(namespaces, start, log, k); }
      FoldLast(namespaces, b, log, k);
    }
  }

  lemma FoldLast(namespaces: set<string>, start: Option<Slot>, log: seq<Command>, k: string)
    requires log != []
    ensures FoldKey(namespaces, start, log, k)
         == StepKey(namespaces, FoldKey(namespaces, start, log[..|log| - 1], k), log[|log| - 1], k)
  {}

  /** Replay: applying a whole log of puts and deletions a second time changes no slot, whatever the slots
      were to begin with and whatever versions the log carries. */
  lemma LogReplays(namespaces: set<string>, slots: Slots, log: seq<Command>)
    ensures ApplyLog(namespaces, ApplyLog(namespaces, slots, log), log) == ApplyLog(namespaces, slots, log)
  {
    var once := ApplyLog(namespaces, slots, log);
    var twice := ApplyLog(namespaces, once, log);
    hide ApplyLog, FoldKey;
    forall k: string
      ensures At(twice, k) == At(once, k)
    {
      LogIsPerKey(namespaces, slots, log, k);
      LogIsPerKey(namespaces, once, log, k);
      KeyReplays(namespaces, At(slots, k), log, k);
    }
    SameEverywhere(twice, once);
  }

  lemma SameEverywhere(a: Slots, b: Slots)
    requires forall k: string :: At(a, k) == At(b, k)
    ensures a == b
  {
    forall k: string | k in a
      ensures k in b && a[k] == b[k]
    {
      assert At(a, k) == At(b, k);
    }
    forall k: string | k in b
      ensures k in a
    {
      assert At(a, k) == At(b, k);
    }
  }

  // ---------- slot keys ----------

  /** The longer namespace id, `ns'`, reads as the shorter one followed by the beginning of its key. */
  predicate Straddles(ns: string, key: string, ns': string, key': string) {
    ns + ":" <= ns' && key == ns'[|ns| + 1..] + ":" + key'
  }

  /** Two (namespace, key) pairs share a slot exactly when they are the same, or one's key carries the rest of the
      other's namespace id. */
  lemma SlotKeysCollide(ns: string, key: string, ns': string, key': string)
    ensures SlotKey(ns, key) == SlotKey(ns', key') <==>
            (ns == ns' && key == key') || Straddles(ns, key, ns', key') || Straddles(ns', key', ns, key)
  {
    if SlotKey(ns, key) == SlotKey(ns', key') {
      if |ns| <= |ns'| {
        SharedSlot(ns, key, ns', key');
      } else {
        SharedSlot(ns', key', ns, key);
      }
    }
    if Straddles(ns, key, ns', key') {
      StraddlingShares(ns, key, ns', key');
    }
    if Straddles(ns', key', ns, key) {
      StraddlingShares(ns', key', ns, key);
    }
  }

  lemma SharedSlot(ns: string, key: string, ns': string, key': string)
    requires SlotKey(ns, key) == SlotKey(ns', key') && |ns| <= |ns'|
    ensures (ns == ns' && key == key') || Straddles(ns, key, ns', key')
  {
    var s := SlotKey(ns, key);
    var n, n' := |ns|, |ns'|;
    assert s[3..3 + n] == ns && s[3..3 + n'] == ns';
    assert s[3 + n] == ':' && s[3 + n'] == ':';
    assert s[3 + n + 1..] == key && s[3 + n' + 1..] == key';
    if n < n' {
      assert ns'[..n] == ns && ns'[n] == ':';
      assert ns' == ns + ":" + ns'[n + 1..];
      assert ns'[n + 1..] == s[3 + n + 1..3 + n'];
      assert key == s[3 + n + 1..3 + n'] + s[3 + n'..];
      assert s[3 + n'..] == ":" + key';
    }
  }

  lemma StraddlingShares(ns: string, key: string, ns': string, key': string)
    requires Straddles(ns, key, ns', key')
    ensures SlotKey(ns, key) == SlotKey(ns', key')
  {
    assert ns' == ns + ":" + ns'[|ns| + 1..];
  }

  /** Different namespaces share slots exactly when one id, followed by a colon, is a prefix of the other. */
  lemma NamespacesCollide(ns: string, ns': string)
    requires ns != ns'
    ensures (exists key, key' :: SlotKey(ns, key) == SlotKey(ns', key')) <==> ns + ":" <= ns' || ns' + ":" <= ns
  {
    hide SlotKey;
    if key, key' :| SlotKey(ns, key) == SlotKey(ns', key') {
      SlotKeysCollide(ns, key, ns', key');
    }
    if ns + ":" <= ns' {
      SlotKeysCollide(ns, ns'[|ns| + 1..] + ":", ns', "");
      assert Straddles(ns, ns'[|ns| + 1..] + ":", ns', "");
    }
    if ns' + ":" <= ns {
      SlotKeysCollide(ns, "", ns', ns[|ns'| + 1..] + ":");
      assert Straddles(ns', ns[|ns'| + 1..] + ":", ns, "");
    }
  }

  lemma ColonsCollide()
    ensures SlotKey("a", "b:c") == SlotKey("a:b", "c")
  {
    assert SlotKey("a", "b:c") == "kv:a:b:c" == SlotKey("a:b", "c");
  }
}
