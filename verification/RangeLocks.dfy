/** Byte-range locks on inodes. */
module RangeLocks {
  datatype LockRange = LockRange(start: nat, end: nat, exclusive: bool, owner: nat)

  type Ranges = seq<LockRange>

  predicate Overlap(a: LockRange, b: LockRange) {
    a.start < b.end && b.start < a.end
  }

  predicate Conflict(a: LockRange, b: LockRange) {
    Overlap(a, b) && (a.exclusive || b.exclusive) && a.owner != b.owner
  }

  predicate Covers(r: LockRange, byte: nat) {
    r.start <= byte < r.end
  }

  /** Ranges with a byte in common overlap, and overlapping ranges have one unless one of them is empty. */
  lemma OverlapMeans(a: LockRange, b: LockRange)
    ensures (exists byte :: Covers(a, byte) && Covers(b, byte)) <==> Overlap(a, b) && a.start < a.end && b.start < b.end
  {
    if Overlap(a, b) && a.start < a.end && b.start < b.end {
      var byte := if a.start < b.start then b.start else a.start;
      assert Covers(a, byte) && Covers(b, byte);
    }
  }

  /** An empty range in the middle of another one is turned away although they share no byte. */
  lemma EmptyRangeRefused()
    ensures var held, asked := LockRange(0, 10, true, 1), LockRange(5, 5, false, 2);
            Conflict(held, asked) && !exists byte :: Covers(held, byte) && Covers(asked, byte)
  {
    var held, asked := LockRange(0, 10, true, 1), LockRange(5, 5, false, 2);
    OverlapMeans(held, asked);
  }

  ghost predicate Compatible(s: Ranges) {
    forall i, j :: 0 <= i < j < |s| ==> !Conflict(s[i], s[j])
  }

  /** No byte is under one owner's exclusive lock and any lock of another owner. */
  lemma Exclusion(s: Ranges, a: LockRange, b: LockRange, byte: nat)
    requires Compatible(s) && a in s && b in s && a.exclusive && Covers(a, byte) && Covers(b, byte)
    ensures a.owner == b.owner
  {
    OverlapMeans(a, b);
    var i :| 0 <= i < |s| && s[i] == a;
    var j :| 0 <= j < |s| && s[j] == b;
    if i != j {
      assert !Conflict(s[if i < j then i else j], s[if i < j then j else i]);
    }
  }

  // ---------- releasing ----------

  function WithoutOwner(s: Ranges, owner: nat): (r: Ranges)
    ensures forall x :: x in r <==> x in s && x.owner != owner
  {
    if s == [] then []
    else
      assert s == [s[0]] + s[1..];
      (if s[0].owner != owner then [s[0]] else []) + WithoutOwner(s[1..], owner)
  }

  function WithoutRange(s: Ranges, owner: nat, start: nat, end: nat): (r: Ranges)
    ensures forall x :: x in r <==> x in s && !(x.owner == owner && x.start == start && x.end == end)
  {
    if s == [] then []
    else
      assert s == [s[0]] + s[1..];
      (if !(s[0].owner == owner && s[0].start == start && s[0].end == end) then [s[0]] else []) +
      WithoutRange(s[1..], owner, start, end)
  }

  /** Releasing locks creates no conflict. */
  lemma FewerCompatible(s: Ranges, t: Ranges)
    requires Compatible(s) && forall x :: x in t ==> x in s
    ensures Compatible(t)
  {
    forall i, j | 0 <= i < j < |t|
      ensures !Conflict(t[i], t[j])
    {
      assert t[i] in s && t[j] in s;
      var k :| 0 <= k < |s| && s[k] == t[i];
      var l :| 0 <= l < |s| && s[l] == t[j];
      if k != l {
        assert !Conflict(s[if k < l then k else l], s[if k < l then l else k]);
      }
    }
  }

  class LockManager {
    var locks: map<nat, Ranges>

    function Held(inode: nat): Ranges
      reads this
    {
      if inode in locks then locks[inode] else []
    }

    ghost predicate Valid()
      reads this
    {
      forall inode :: inode in locks ==> Compatible(locks[inode])
    }

    constructor ()
      ensures Valid() && locks == map[]
    {
      locks := map[];
    }

    /** Refused exactly when a lock already held conflicts; granted otherwise, and nothing else changes. */
    method TryLock(inode: nat, range: LockRange) returns (granted: bool)
      requires Valid()
      modifies this
      ensures Valid()
      ensures granted <==> forall held :: held in old(Held(inode)) ==>
                             || held.end <= range.start || range.end <= held.start
                             || (!held.exclusive && !range.exclusive) || held.owner == range.owner
      ensures Held(inode) == old(Held(inode)) + if granted then [range] else []
      ensures forall other :: other != inode ==> Held(other) == old(Held(other))
    {
      var ranges := Held(inode);
      locks := locks[inode := ranges];
      for i := 0 to |ranges|
        invariant forall j :: 0 <= j < i ==> !Conflict(ranges[j], range)
      {
        if Conflict(ranges[i], range) {
          assert ranges[i] in old(Held(inode));
          return false;
        }
      }
      locks := locks[inode := ranges + [range]];
      granted := true;
    }

    method Unlock(inode: nat, owner: nat)
      requires Valid()
      modifies this
      ensures Valid() && Held(inode) == WithoutOwner(old(Held(inode)), owner)
      ensures forall other :: other != inode ==> Held(other) == old(Held(other))
    {
      if inode in locks {
        FewerCompatible(locks[inode], WithoutOwner(locks[inode], owner));
        locks := locks[inode := WithoutOwner(locks[inode], owner)];
      }
    }

    method UnlockRange(inode: nat, owner: nat, start: nat, end: nat)
      requires Valid()
      modifies this
      ensures Valid() && Held(inode) == WithoutRange(old(Held(inode)), owner, start, end)
      ensures forall other :: other != inode ==> Held(other) == old(Held(other))
    {
      if inode in locks {
        FewerCompatible(locks[inode], WithoutRange(locks[inode], owner, start, end));
        locks := locks[inode := WithoutRange(locks[inode], owner, start, end)];
      }
    }
  }

  // ---------- whole runs ----------

  datatype Request =
    | Lock(inode: nat, range: LockRange)
    | Release(inode: nat, owner: nat)
    | ReleaseRange(inode: nat, owner: nat, start: nat, end: nat)

  /** After every run of requests on a new table, no byte of any inode is under one owner's exclusive lock and
      another owner's lock. */
  method Serve(requests: seq<Request>) returns (m: LockManager)
    ensures fresh(m) && m.Valid()
    ensures forall inode, byte: nat, a, b ::
              a in m.Held(inode) && b in m.Held(inode) && a.exclusive && Covers(a, byte) && Covers(b, byte) ==>
                a.owner == b.owner
  {
    m := new LockManager();
    for i := 0 to |requests|
      invariant fresh(m) && m.Valid()
    {
      match requests[i] {
        case Lock(inode, range) => var _ := m.TryLock(inode, range);
        case Release(inode, owner) => m.Unlock(inode, owner);
        case ReleaseRange(inode, owner, start, end) => m.UnlockRange(inode, owner, start, end);
      }
    }
    forall inode, byte: nat, a, b
      | a in m.Held(inode) && b in m.Held(inode) && a.exclusive && Covers(a, byte) && Covers(b, byte)
      ensures a.owner == b.owner
    {
      Exclusion(m.Held(inode), a, b, byte);
    }
  }
}
