/** Finite sets: picking a member, and counting. */
module Sets {

  /** Iterating over a hash map or hash set yields its members in no particular order. */
  method Pick<T>(s: set<T>) returns (x: T)
    requires s != {}
    ensures x in s
  {
    x :| x in s;
  }

  lemma Witness<T>(s: set<T>) returns (x: T)
    requires s != {}
    ensures x in s
  {
    x :| x in s;
  }

  lemma {:induction false} SubsetSize<T>(a: set<T>, b: set<T>)
    requires a <= b
    ensures |a| <= |b|
    ensures |a| == |b| ==> a == b
  {
    if a != {} {
      var x :| x in a;
      SubsetSize(a - {x}, b - {x});
      if |a| == |b| {
        assert a == a - {x} + {x} && b == b - {x} + {x};
      }
    } else if b != {} {
      var y :| y in b;
      assert |b| >= 1;
    }
  }

  function UpTo(n: nat): (s: set<int>)
    ensures |s| == n && forall x :: x in s <==> 0 <= x < n
  {
    if n == 0 then {} else UpTo(n - 1) + {n - 1}
  }

  /** The values of the first n places. */
  ghost function Image(f: int -> int, n: nat): set<int> {
    if n == 0 then {} else Image(f, n - 1) + {f(n - 1)}
  }

  lemma {:induction false} PlaceOf(f: int -> int, n: nat, x: int) returns (i: nat)
    requires x in Image(f, n)
    ensures i < n && f(i) == x
  {
    if x == f(n - 1) {
      i := n - 1;
    } else {
      i := PlaceOf(f, n - 1, x);
    }
  }

  /** Among the first n places two share a value, or there are n values. */
  lemma {:induction false} SharedOrMany(f: int -> int, n: nat) returns (shared: bool, i: nat, j: nat)
    ensures shared ==> i < j < n && f(i) == f(j)
    ensures !shared ==> |Image(f, n)| == n
  {
    shared, i, j := false, 0, 0;
    if n > 0 {
      shared, i, j := SharedOrMany(f, n - 1);
      if !shared && f(n - 1) in Image(f, n - 1) {
        i := PlaceOf(f, n - 1, f(n - 1));
        shared, j := true, n - 1;
      }
    }
  }

  lemma {:induction false} ImageUpTo(f: int -> int, n: nat, limit: nat)
    requires forall x :: 0 <= x < n ==> 0 <= f(x) < limit
    ensures Image(f, n) <= UpTo(limit)
  {
    if n > 0 {
      ImageUpTo(f, n - 1, limit);
    }
  }

  /** More places than values: two of them share a value. */
  lemma Pigeonhole(f: int -> int, limit: nat) returns (i: nat, j: nat)
    requires forall x :: 0 <= x <= limit ==> 0 <= f(x) < limit
    ensures i < j <= limit && f(i) == f(j)
  {
    hide Image, UpTo;
    var shared;
    shared, i, j := SharedOrMany(f, limit + 1);
    if !shared {
      ImageUpTo(f, limit + 1, limit);
      SubsetSize(Image(f, limit + 1), UpTo(limit));
    }
  }
}
