/** Replicated logs that create namespaces as they go: what a replay does to the puts that came too early. */
module KvNamespaces {
  import opened Options
  import opened KvReplication

  datatype Entry = Change(command: Command) | Create(ns: string)

  function Created(log: seq<Entry>): set<string> {
    set e | e in log && e.Create? :: e.ns
  }

  function ApplyEntry(namespaces: set<string>, slots: Slots, e: Entry): Slots {
    if e.Change? then Apply(namespaces, slots, e.command) else slots
  }

  /** Every entry meets the namespaces that the entries before it have created. */
  function Run(namespaces: set<string>, slots: Slots, log: seq<Entry>): Slots
    decreases |log|
  {
    if log == [] then slots
    else
      var init := log[..|log| - 1];
      ApplyEntry(namespaces + Created(init), Run(namespaces, slots, init), log[|log| - 1])
  }

  /** A command that changes nothing. */
  const NOTHING: Command := DeleteKeys("", [])

  /** The commands of the log by position. */
  function Commands(log: seq<Entry>): (r: seq<Command>)
    ensures |r| == |log|
  {
    seq(|log|, i requires 0 <= i < |log| => if log[i].Change? then log[i].command else NOTHING)
  }

  /** A put to the key that comes before the creation of its namespace. */
  ghost predicate Early(namespaces: set<string>, log: seq<Entry>, i: int, k: string) {
    && 0 <= i < |log|
    && Puts(namespaces + Created(log), Commands(log)[i], k)
    && Commands(log)[i].ns !in namespaces + Created(log[..i])
  }

  /** The commands of the log by position, without the puts that come before their namespace. */
  function Heard(namespaces: set<string>, log: seq<Entry>): (r: seq<Command>)
    ensures |r| == |log|
  {
    seq(|log|, i requires 0 <= i < |log| =>
      var c := Commands(log)[i];
      if c.Put? && c.ns !in namespaces + Created(log[..i]) then NOTHING else c)
  }

  // ---------- both passes as folds of one key ----------

  lemma CreatedGrows(log: seq<Entry>, i: nat)
    requires i <= |log|
    ensures Created(log[..i]) <= Created(log)
  {}

  lemma CreatedOneMore(log: seq<Entry>, e: Entry)
    ensures Created(log + [e]) == Created(log) + if e.Create? then {e.ns} else {}
  {
    var after := log + [e];
    assert forall x :: x in after <==> x in log || x == e;
    if e.Create? {
      assert e in after;
    }
  }

  lemma HeardInit(namespaces: set<string>, log: seq<Entry>)
    requires log != []
    ensures Heard(namespaces, log)[..|log| - 1] == Heard(namespaces, log[..|log| - 1])
    ensures Commands(log)[..|log| - 1] == Commands(log[..|log| - 1])
  {
    var init := log[..|log| - 1];
    hide Created;
    assert forall i :: 0 <= i < |init| ==> log[..i] == init[..i];
  }

  /** The first pass does what the heard commands do. */
  lemma {:induction false} FirstPass(namespaces: set<string>, slots: Slots, log: seq<Entry>, all: set<string>,
                                     k: string)
    requires namespaces + Created(log) <= all
    ensures At(Run(namespaces, slots, log), k) == FoldKey(all, At(slots, k), Heard(namespaces, log), k)
    decreases |log|
  {
    if log != [] {
      var n := |log| - 1;
      CreatedGrows(log, n);
      HeardInit(namespaces, log);
      FirstPass(namespaces, slots, log[..n], all, k);
      hide Created, Run, FoldKey;
      FoldLast(all, At(slots, k), Heard(namespaces, log), k);
      EntryIsPerKey(namespaces + Created(log[..n]), all, Run(namespaces, slots, log[..n]), log[n], k);
      RunLast(namespaces, slots, log);
    }
  }

  lemma RunLast(namespaces: set<string>, slots: Slots, log: seq<Entry>)
    requires log != []
    ensures var init := log[..|log| - 1];
            Run(namespaces, slots, log) == ApplyEntry(namespaces + Created(init), Run(namespaces, slots, init),
                                                      log[|log| - 1])
  {}

  lemma EntryIsPerKey(namespaces: set<string>, all: set<string>, slots: Slots, e: Entry, k: string)
    requires namespaces <= all
    ensures var c := if e.Change? then e.command else NOTHING;
            At(ApplyEntry(namespaces, slots, e), k) ==
              StepKey(all, At(slots, k), if c.Put? && c.ns !in namespaces then NOTHING else c, k)
  {
    if e.Change? {
      ApplyIsPerKey(namespaces, slots, e.command, k);
    }
  }

  /** A pass that finds all the namespaces in place does what all the commands do. */
  lemma {:induction false} SecondPass(all: set<string>, slots: Slots, log: seq<Entry>, k: string)
    requires Created(log) <= all
    ensures At(Run(all, slots, log), k) == FoldKey(all, At(slots, k), Commands(log), k)
    decreases |log|
  {
    if log != [] {
      var n := |log| - 1;
      CreatedGrows(log, n);
      HeardInit(all, log);
      SecondPass(all, slots, log[..n], k);
      hide Created, Run, FoldKey;
      FoldLast(all, At(slots, k), Commands(log), k);
      assert all + Created(log[..n]) == all;
      EntryIsPerKey(all, all, Run(all, slots, log[..n]), log[n], k);
      RunLast(all, slots, log);
    }
  }

  /** Deletions are always heard, and of the standing puts exactly the early ones are not. */
  lemma HeardStands(namespaces: set<string>, log: seq<Entry>, k: string)
    ensures var all := namespaces + Created(log);
            && (Deleted(Heard(namespaces, log), k) <==> Deleted(Commands(log), k))
            && (forall i :: Stands(all, Heard(namespaces, log), i, k) <==>
                              Stands(all, Commands(log), i, k) && !Early(namespaces, log, i, k))
            && (forall i :: Stands(all, Heard(namespaces, log), i, k) ==> Heard(namespaces, log)[i] == Commands(log)[i])
  {
    var all := namespaces + Created(log);
    var heard, commands := Heard(namespaces, log), Commands(log);
    forall i | 0 <= i < |log|
      ensures Deletes(heard[i], k) <==> Deletes(commands[i], k)
      ensures Puts(all, heard[i], k) <==> Puts(all, commands[i], k) && !Early(namespaces, log, i, k)
      ensures Puts(all, heard[i], k) ==> heard[i] == commands[i]
    {
      CreatedGrows(log, i);
      hide Created;
    }
    hide Created, Early, Puts, Deletes, Heard, Commands;
    if Deleted(commands, k) {
      var i :| 0 <= i < |log| && Deletes(commands[i], k);
      assert Deletes(heard[i], k);
    }
    if Deleted(heard, k) {
      var i :| 0 <= i < |log| && Deletes(heard[i], k);
      assert Deletes(commands[i], k);
    }
  }

  // ---------- replaying such a log ----------

  /** A put the first pass dropped outranks every other standing put, is not older than the slot, and is not what
      the slot says. */
  ghost predicate Surfaces(namespaces: set<string>, slot: Option<Slot>, log: seq<Entry>, i: int, k: string) {
    var all, commands := namespaces + Created(log), Commands(log);
    && Early(namespaces, log, i, k) && Outranks(all, commands, i, k)
    && commands[i].version >= Guard(slot) && slot != Some(NewSlot(commands[i]))
  }

  lemma NewSlotGuards(c: Command)
    requires c.Put?
    ensures Guard(Some(NewSlot(c))) == c.version
  {}

  lemma NoneIsFree()
    ensures Guard(None) == -1
  {}

  /** A heard put that decides the replay has already decided the first pass. */
  lemma HeardPutDecides(namespaces: set<string>, start: Option<Slot>, log: seq<Entry>, k: string, w: nat)
    requires var all, commands := namespaces + Created(log), Commands(log);
             var once := FoldKey(all, start, Heard(namespaces, log), k);
             && Outranks(all, commands, w, k) && !Early(namespaces, log, w, k)
             && commands[w].version >= Guard(Base(once, commands, k))
    ensures FoldKey(namespaces + Created(log), start, Heard(namespaces, log), k) == Some(NewSlot(Commands(log)[w]))
  {
    var all, heard, commands := namespaces + Created(log), Heard(namespaces, log), Commands(log);
    HeardStands(namespaces, log, k);
    var v := FoldWins(all, start, heard, k);
    hide FoldKey, Created, Heard, Commands, Deleted, Stands, Early, Guard, NewSlot;
    NoneIsFree();
    assert Stands(all, heard, w, k);
    assert v >= 0 ==> Stands(all, commands, v, k);
  }

  /** Without a put to decide the replay, the first pass has left no more than the replay starts from. */
  lemma NothingDecides(namespaces: set<string>, start: Option<Slot>, log: seq<Entry>, k: string)
    requires var all, commands := namespaces + Created(log), Commands(log);
             var once := FoldKey(all, start, Heard(namespaces, log), k);
             forall i :: Stands(all, commands, i, k) ==> commands[i].version < Guard(Base(once, commands, k))
    ensures var once := FoldKey(namespaces + Created(log), start, Heard(namespaces, log), k);
            Base(once, Commands(log), k) == once && forall i :: !Surfaces(namespaces, once, log, i, k)
  {
    var all, heard, commands := namespaces + Created(log), Heard(namespaces, log), Commands(log);
    HeardStands(namespaces, log, k);
    var v := FoldWins(all, start, heard, k);
    hide FoldKey, Created, Heard, Commands, Deleted, Stands, Early, Guard, NewSlot;
    NoneIsFree();
    assert v >= 0 ==> Stands(all, commands, v, k);
  }

  lemma DecidingPutIsNew(namespaces: set<string>, start: Option<Slot>, log: seq<Entry>, k: string, w: nat)
    requires var all, commands := namespaces + Created(log), Commands(log);
             var once := FoldKey(all, start, Heard(namespaces, log), k);
             Outranks(all, commands, w, k) && commands[w].version >= Guard(Base(once, commands, k))
    ensures Commands(log)[w].version >= Guard(FoldKey(namespaces + Created(log), start, Heard(namespaces, log), k))
  {
    var all, heard, commands := namespaces + Created(log), Heard(namespaces, log), Commands(log);
    HeardStands(namespaces, log, k);
    var v := FoldWins(all, start, heard, k);
    if v >= 0 {
      NewSlotGuards(heard[v]);
    }
    hide FoldKey, Created, Heard, Commands, Deleted, Stands, Early, Guard, NewSlot;
    NoneIsFree();
    assert v >= 0 ==> Stands(all, commands, v, k);
  }

  lemma KeySurfaces(namespaces: set<string>, start: Option<Slot>, log: seq<Entry>, k: string)
    ensures var all, commands := namespaces + Created(log), Commands(log);
            var once := FoldKey(all, start, Heard(namespaces, log), k);
            FoldKey(all, once, commands, k) != once <==> exists i :: Surfaces(namespaces, once, log, i, k)
  {
    var all, commands := namespaces + Created(log), Commands(log);
    var once := FoldKey(all, start, Heard(namespaces, log), k);
    var w := FoldWins(all, once, commands, k);
    hide FoldKey, Created, Heard, Commands, Deleted, NewSlot;
    if w == -1 {
      NothingDecides(namespaces, start, log, k);
    } else if Early(namespaces, log, w, k) {
      OnlyOneOutranks(namespaces, log, k, w);
      DecidingPutIsNew(namespaces, start, log, k, w);
      if once != Some(NewSlot(commands[w])) {
        assert Surfaces(namespaces, once, log, w, k);
      }
    } else {
      OnlyOneOutranks(namespaces, log, k, w);
      HeardPutDecides(namespaces, start, log, k, w);
    }
  }

  lemma OnlyOneOutranks(namespaces: set<string>, log: seq<Entry>, k: string, w: int)
    requires Outranks(namespaces + Created(log), Commands(log), w, k)
    ensures forall i, once :: Surfaces(namespaces, once, log, i, k) ==> i == w
  {
    hide Created, Commands, Stands, Early;
  }

  /** Replaying a log changes a key exactly when an early put outranks every other standing put to it, is not
      older than what the first pass left there, and says something else. */
  lemma EarlyPutsSurface(namespaces: set<string>, slots: Slots, log: seq<Entry>, k: string)
    ensures var all := namespaces + Created(log);
            var once := Run(namespaces, slots, log);
            At(Run(all, once, log), k) != At(once, k) <==> exists i :: Surfaces(namespaces, At(once, k), log, i, k)
  {
    var all := namespaces + Created(log);
    FirstPass(namespaces, slots, log, all, k);
    SecondPass(all, Run(namespaces, slots, log), log, k);
    KeySurfaces(namespaces, At(slots, k), log, k);
  }

  /** All the puts to the key come from one namespace. */
  ghost predicate OneNamespace(log: seq<Entry>, k: string, ns: string) {
    forall i :: 0 <= i < |log| ==>
      var c := Commands(log)[i];
      c.Put? && SlotKey(c.ns, c.key) == k ==> c.ns == ns
  }

  /** For a key of one namespace the log and the slots it started from tell in advance: a replay changes the key
      exactly when a put that came before the namespace outranks every other standing put to the key, is not older
      than the slot the log builds on, and is not that slot. */
  lemma OwnNamespaceReplays(namespaces: set<string>, slots: Slots, log: seq<Entry>, k: string, ns: string)
    requires OneNamespace(log, k, ns)
    ensures var all, commands := namespaces + Created(log), Commands(log);
            var once := Run(namespaces, slots, log);
            var base := Base(At(slots, k), commands, k);
            At(Run(all, once, log), k) != At(once, k) <==> exists i :: Surfaces(namespaces, base, log, i, k)
  {
    var all, heard, commands := namespaces + Created(log), Heard(namespaces, log), Commands(log);
    var once := Run(namespaces, slots, log);
    EarlyPutsSurface(namespaces, slots, log, k);
    FirstPass(namespaces, slots, log, all, k);
    HeardStands(namespaces, log, k);
    EarlyFirst(namespaces, log, k, ns);
    var v := FoldWins(all, At(slots, k), heard, k);
    if v >= 0 {
      NewSlotGuards(heard[v]);
    }
    forall i | Early(namespaces, log, i, k)
      ensures Guard(Some(NewSlot(commands[i]))) == commands[i].version
    {
      NewSlotGuards(commands[i]);
    }
    hide Run, FoldKey, Created, Heard, Commands, Deleted, Puts, Stands, Early, OneNamespace, Guard, NewSlot;
    NoneIsFree();
    var base := Base(At(slots, k), commands, k);
    forall i
      ensures Surfaces(namespaces, base, log, i, k) <==> Surfaces(namespaces, At(once, k), log, i, k)
    {
    }
  }

  /** Within one namespace the early puts come first. */
  lemma EarlyFirst(namespaces: set<string>, log: seq<Entry>, k: string, ns: string)
    requires OneNamespace(log, k, ns)
    ensures var all, commands := namespaces + Created(log), Commands(log);
            forall i, j
              | Early(namespaces, log, i, k) && Stands(all, commands, j, k) && !Early(namespaces, log, j, k) :: i < j
  {}

  /** Replaying a whole log changes nothing exactly when no key has an early put that surfaces. */
  lemma LogReplaysUnlessEarly(namespaces: set<string>, slots: Slots, log: seq<Entry>)
    ensures var all := namespaces + Created(log);
            var once := Run(namespaces, slots, log);
            Run(all, once, log) == once <==> forall k, i :: !Surfaces(namespaces, At(once, k), log, i, k)
  {
    var all := namespaces + Created(log);
    var once := Run(namespaces, slots, log);
    var twice := Run(all, once, log);
    hide Run, Created, Surfaces;
    forall k
      ensures At(twice, k) != At(once, k) <==> exists i :: Surfaces(namespaces, At(once, k), log, i, k)
    {
      EarlyPutsSurface(namespaces, slots, log, k);
    }
    if forall k, i :: !Surfaces(namespaces, At(once, k), log, i, k) {
      SameEverywhere(twice, once);
    }
  }

  /** Two passes over a put followed by the creation of its namespace: dropped the first time, kept the second. */
  lemma EarlyPutIsKeptLate()
    ensures var c := Put("n", "k", true, [1], "", 0, "o", 1);
            var log := [Change(c), Create("n")];
            && Run({}, map[], log) == map[]
            && Run({"n"}, map[], log) == map[SlotKey("n", "k") := NewSlot(c)]
  {
    var c := Put("n", "k", true, [1], "", 0, "o", 1);
    var log := [Change(c), Create("n")];
    assert log[..1] == [Change(c)] && [Change(c)][..0] == [];
    var empty: Slots := map[];
    assert Created([]) == {};
    RunLast({}, empty, [Change(c)]);
    RunLast({}, empty, log);
    RunLast({"n"}, empty, [Change(c)]);
    RunLast({"n"}, empty, log);
  }
}
