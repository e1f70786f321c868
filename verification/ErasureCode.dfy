/** Erasure coding: cutting data into shards, and putting it together again from any sufficient subset. */
module ErasureCode {
  import opened Bytes
  import opened Options

  const DEFAULT_CUTOFF: nat := 64 * 1024

  datatype Config = Config(k: nat, m: nat, cutoff: nat)

  /** The code library: parity from the data shards, and missing shards from the present ones. */
  datatype Code = Code(parity: seq<Bytes> -> seq<Bytes>, rebuild: seq<Option<Bytes>> -> Option<seq<Option<Bytes>>>)

  datatype Error = SingleShardMissing | NotEnoughShards(available: nat) | ReconstructFailed | StillMissing

  datatype Result = Ok(data: Bytes) | Err(error: Error)

  // ---------- cutting ----------

  function CeilDiv(n: nat, k: nat): (r: nat)
    requires k > 0
    ensures n <= k * r && (n > 0 ==> k * (r - 1) < n) && (n == 0 ==> r == 0)
  {
    (n + k - 1) / k
  }

  /** Every slice starts inside the data. */
  predicate InRange(n: nat, k: nat)
    requires k > 0
  {
    (k - 1) * CeilDiv(n, k) <= n
  }

  /** Where shard i starts. */
  function Offset(i: nat, size: nat): nat {
    i * size
  }

  lemma NextOffset(i: nat, size: nat)
    ensures Offset(0, size) == 0 && Offset(i + 1, size) == Offset(i, size) + size
  {}

  function Shard(data: Bytes, start: nat, size: nat): (r: Bytes)
    requires start <= |data|
    ensures |r| == size
  {
    var end := Min(start + size, |data|);
    data[start..end] + Zeros(size - (end - start))
  }

  lemma Starts(n: nat, k: nat, i: nat)
    requires k > 0 && InRange(n, k) && i < k
    ensures Offset(i, CeilDiv(n, k)) <= n
  {}

  /** Cutting all shards independently of each other. */
  function Split(data: Bytes, k: nat): (r: seq<Bytes>)
    requires k > 0 && InRange(|data|, k)
    ensures |r| == k && forall i :: 0 <= i < k ==> |r[i]| == CeilDiv(|data|, k)
  {
    var size := CeilDiv(|data|, k);
    seq(k, i requires 0 <= i < k => Starts(|data|, k, i); Shard(data, Offset(i, size), size))
  }

  /** Cutting them one after the other gives the same shards. */
  method SplitSerial(data: Bytes, k: nat) returns (shards: seq<Bytes>)
    requires k > 0 && InRange(|data|, k)
    ensures shards == Split(data, k)
  {
    hide CeilDiv, Offset;
    var size := CeilDiv(|data|, k);
    shards := [];
    for i := 0 to k
      invariant |shards| == i
      invariant forall j :: 0 <= j < i ==> shards[j] == Split(data, k)[j]
    {
      Starts(|data|, k, i);
      var start := Offset(i, size);
      var end := Min(start + size, |data|);
      var shard := data[start..end];
      while |shard| < size
        invariant end - start <= |shard| <= size && shard == data[start..end] + Zeros(|shard| - (end - start))
      {
        shard := shard + [0];
      }
      shards := shards + [shard];
    }
  }

  /** Long enough data is cut without ever reaching past its end. */
  lemma LongEnough(n: nat, k: nat)
    requires k > 0 && n >= (k - 1) * (k - 1)
    ensures InRange(n, k)
  {
    var c, d := CeilDiv(n, k), k - 1;
    if n > 0 {
      assert k * c <= n + d by {
        assert k * (c - 1) == k * c - k;
      }
      if c >= d {
        assert d * c == k * c - c;
      } else {
        Times(d, c, d);
      }
    }
  }

  lemma Times(a: nat, b: int, c: int)
    requires b <= c
    ensures a * b <= a * c
  {}

  /** With the default cutoff, every shard count the code library accepts is safe. */
  lemma DefaultCutoffSuffices(n: nat, k: nat)
    requires n >= DEFAULT_CUTOFF && 0 < k <= 257
    ensures InRange(n, k)
  {
    assert (k - 1) * (k - 1) <= 256 * 256 by {
      Times(k - 1, k - 1, 256);
      Times(256, k - 1, 256);
    }
    LongEnough(n, k);
  }

  /** Short data is not safe: five bytes in four shards of two would start the last one at byte six. */
  lemma FiveInFour()
    ensures !InRange(5, 4)
  {
    assert CeilDiv(5, 4) == 2;
  }

  // ---------- putting together ----------

  function Concat(shards: seq<Bytes>): Bytes
    decreases |shards|
  {
    if shards == [] then [] else Concat(shards[..|shards| - 1]) + shards[|shards| - 1]
  }

  lemma {:induction false} ConcatPrefix(data: Bytes, k: nat, i: nat)
    requires k > 0 && InRange(|data|, k) && i < k
    ensures var end := Offset(i, CeilDiv(|data|, k));
            end <= |data| && Concat(Split(data, k)[..i]) == data[..end]
  {
    var size, shards := CeilDiv(|data|, k), Split(data, k);
    Starts(|data|, k, i);
    NextOffset(0, size);
    hide CeilDiv, Offset, InRange;
    if i > 0 {
      ConcatPrefix(data, k, i - 1);
      NextOffset(i - 1, size);
      var start, end := Offset(i - 1, size), Offset(i, size);
      assert shards[..i][..i - 1] == shards[..i - 1];
      assert shards[i - 1] == data[start..end];
      assert data[..end] == data[..start] + data[start..end];
    }
  }

  /** The shards of the data, end to end, are the data and its padding. */
  lemma ConcatSplit(data: Bytes, k: nat)
    requires k > 0 && InRange(|data|, k)
    ensures Concat(Split(data, k)) == data + Zeros(k * CeilDiv(|data|, k) - |data|)
  {
    var size, shards := CeilDiv(|data|, k), Split(data, k);
    ConcatPrefix(data, k, k - 1);
    var start := Offset(k - 1, size);
    NextOffset(k - 1, size);
    assert k * size == Offset(k, size);
    hide CeilDiv, Offset, InRange;
    assert shards[..k] == shards;
    assert shards[k - 1] == data[start..] + Zeros(size - (|data| - start));
    assert data == data[..start] + data[start..];
  }

  // ---------- encoding ----------

  function SkipsEc(c: Config, n: nat): bool {
    n < c.cutoff
  }

  /** A usable configuration: at least one shard of each kind, at most 256 in all. */
  predicate Usable(c: Config) {
    c.k > 0 && c.m > 0 && c.k + c.m <= 256
  }

  /** Small data stays whole; other data is cut and parity added.  None where the original aborts: a slice out
      of range, or shards without a byte. */
  function Encode(code: Code, c: Config, data: Bytes): Option<seq<Bytes>>
    requires Usable(c)
  {
    if SkipsEc(c, |data|) then Some([data])
    else if data == [] || !InRange(|data|, c.k) then None
    else Some(Split(data, c.k) + code.parity(Split(data, c.k)))
  }

  /** What the code library promises: parity shards of the same length, and all shards again from any k. */
  ghost predicate Mds(code: Code, k: nat, m: nat) {
    && (forall d: seq<Bytes> :: SameLength(d, k) ==>
          |code.parity(d)| == m && forall i :: 0 <= i < m ==> |code.parity(d)[i]| == |d[0]|)
    && (forall d: seq<Bytes>, slots: seq<Option<Bytes>> ::
          SameLength(d, k) && Erased(d + code.parity(d), slots) && Present(slots) >= k ==>
            code.rebuild(slots) == Some(Whole(d + code.parity(d))))
  }

  ghost predicate SameLength(d: seq<Bytes>, k: nat) {
    k > 0 && |d| == k && |d[0]| > 0 && forall i :: 0 <= i < k ==> |d[i]| == |d[0]|
  }

  /** Each slot holds its shard or nothing. */
  ghost predicate Erased(shards: seq<Bytes>, slots: seq<Option<Bytes>>) {
    |slots| == |shards| && forall i :: 0 <= i < |slots| ==> slots[i].None? || slots[i] == Some(shards[i])
  }

  function Present(slots: seq<Option<Bytes>>): nat
    decreases |slots|
  {
    if slots == [] then 0 else Present(slots[..|slots| - 1]) + if slots[|slots| - 1].Some? then 1 else 0
  }

  function Whole(shards: seq<Bytes>): (r: seq<Option<Bytes>>)
    ensures |r| == |shards| && forall i :: 0 <= i < |r| ==> r[i] == Some(shards[i])
  {
    seq(|shards|, i requires 0 <= i < |shards| => Some(shards[i]))
  }

  // ---------- decoding ----------

  method CanRecover(c: Config, available: seq<bool>) returns (r: bool)
    ensures r <==> CountTrue(available) >= c.k
  {
    var count := 0;
    for i := 0 to |available|
      invariant count == CountTrue(available[..i])
    {
      assert available[..i + 1][..i] == available[..i];
      if available[i] {
        count := count + 1;
      }
    }
    assert available[..|available|] == available;
    r := count >= c.k;
  }

  function CountTrue(s: seq<bool>): nat
    decreases |s|
  {
    if s == [] then 0 else CountTrue(s[..|s| - 1]) + if s[|s| - 1] then 1 else 0
  }

  /** Recoverable means decodable: the flags to test are those of the slots that hold a shard. */
  lemma {:induction false} FlagsCount(slots: seq<Option<Bytes>>)
    ensures CountTrue(seq(|slots|, i requires 0 <= i < |slots| => slots[i].Some?)) == Present(slots)
    decreases |slots|
  {
    if slots != [] {
      var init := slots[..|slots| - 1];
      FlagsCount(init);
      var flags := seq(|slots|, i requires 0 <= i < |slots| => slots[i].Some?);
      assert flags[..|slots| - 1] == seq(|init|, i requires 0 <= i < |init| => init[i].Some?);
    }
  }

  /** The first shards of a list, or nothing if one of them is missing. */
  ghost function FirstShards(slots: seq<Option<Bytes>>, n: nat): Option<Bytes>
    requires n <= |slots|
  {
    if n == 0 then Some([])
    else
      var init := FirstShards(slots, n - 1);
      if init.None? || slots[n - 1].None? then None else Some(init.value + slots[n - 1].value)
  }

  ghost function Decoded(code: Code, c: Config, slots: seq<Option<Bytes>>): Result {
    if |slots| == 1 then (if slots[0].Some? then Ok(slots[0].value) else Err(SingleShardMissing))
    else if Present(slots) < c.k then Err(NotEnoughShards(Present(slots)))
    else
      var whole := code.rebuild(slots);
      if whole.None? then Err(ReconstructFailed)
      else
        var data := FirstShards(whole.value, Min(c.k, |whole.value|));
        if data.None? then Err(StillMissing) else Ok(data.value)
  }

  method DecodeMissing(code: Code, c: Config, slots: seq<Option<Bytes>>) returns (r: Result)
    requires Usable(c)
    ensures r == Decoded(code, c, slots)
  {
    if |slots| == 1 {
      return if slots[0].Some? then Ok(slots[0].value) else Err(SingleShardMissing);
    }
    var available := Present(slots);
    if available < c.k {
      return Err(NotEnoughShards(available));
    }
    var whole := code.rebuild(slots);
    if whole.None? {
      return Err(ReconstructFailed);
    }
    var data: Bytes := [];
    for i := 0 to Min(c.k, |whole.value|)
      invariant FirstShards(whole.value, i) == Some(data)
    {
      if whole.value[i].None? {
        StaysMissing(whole.value, i + 1, Min(c.k, |whole.value|));
        return Err(StillMissing);
      }
      data := data + whole.value[i].value;
    }
    r := Ok(data);
  }

  lemma {:induction false} StaysMissing(slots: seq<Option<Bytes>>, i: nat, n: nat)
    requires i <= n <= |slots| && FirstShards(slots, i).None?
    ensures FirstShards(slots, n).None?
    decreases n
  {
    if i < n {
      StaysMissing(slots, i, n - 1);
    }
  }

  lemma {:induction false} FirstOfWhole(shards: seq<Bytes>, slots: seq<Option<Bytes>>, n: nat)
    requires n <= |shards| == |slots| && forall i :: 0 <= i < n ==> slots[i] == Some(shards[i])
    ensures FirstShards(slots, n) == Some(Concat(shards[..n]))
  {
    if n > 0 {
      FirstOfWhole(shards, slots, n - 1);
      assert shards[..n][..n - 1] == shards[..n - 1];
    }
  }

  /** Round trip: whatever shards are lost, as long as k are left, decoding gives the data followed by its
      padding; with fewer it reports an error.  Small data needs its one shard. */
  lemma RoundTrip(code: Code, c: Config, data: Bytes, slots: seq<Option<Bytes>>)
    requires Usable(c) && Mds(code, c.k, c.m)
    requires Encode(code, c, data).Some? && Erased(Encode(code, c, data).value, slots)
    ensures SkipsEc(c, |data|) ==>
              Decoded(code, c, slots) == if slots[0].Some? then Ok(data) else Err(SingleShardMissing)
    ensures !SkipsEc(c, |data|) ==>
              Decoded(code, c, slots) ==
                if Present(slots) >= c.k then Ok(data + Zeros(c.k * CeilDiv(|data|, c.k) - |data|))
                else Err(NotEnoughShards(Present(slots)))
    ensures Decoded(code, c, slots).Ok? ==>
              |data| <= |Decoded(code, c, slots).data| && Decoded(code, c, slots).data[..|data|] == data
  {
    if !SkipsEc(c, |data|) {
      var d := Split(data, c.k);
      var shards := d + code.parity(d);
      hide Split, CeilDiv, Concat;
      assert SameLength(d, c.k);
      if Present(slots) >= c.k {
        var whole := Whole(shards);
        assert code.rebuild(slots) == Some(whole);
        FirstOfWhole(shards, whole, c.k);
        assert shards[..c.k] == d;
        ConcatSplit(data, c.k);
      }
    }
  }

  /** Data is encoded exactly when it is small, or not empty and long enough for its shard count. */
  lemma EncodesWhen(code: Code, c: Config, data: Bytes)
    requires Usable(c)
    ensures Encode(code, c, data).Some? <==>
              |data| < c.cutoff || (|data| > 0 && (c.k - 1) * CeilDiv(|data|, c.k) <= |data|)
    ensures |data| >= DEFAULT_CUTOFF ==> Encode(code, c, data).Some?
  {
    if |data| >= DEFAULT_CUTOFF {
      DefaultCutoffSuffices(|data|, c.k);
    }
  }

  // ---------- the promise can be kept ----------

  /** Byte j of the first n slots added up; a missing slot adds nothing. */
  function Total(slots: seq<Option<Bytes>>, n: nat, j: nat): nat
    requires n <= |slots|
  {
    if n == 0 then 0
    else
      var last := slots[n - 1];
      Total(slots, n - 1, j) + if last.Some? && j < |last.value| then last.value[j] else 0
  }

  function SumParity(slots: seq<Option<Bytes>>, n: nat, size: nat): (r: Bytes)
    requires n <= |slots|
    ensures |r| == size && forall j :: 0 <= j < size ==> r[j] == Total(slots, n, j) % 256
  {
    seq(size, j requires 0 <= j < size => Total(slots, n, j) % 256)
  }

  /** What is missing from the total of the data slots. */
  function Difference(parity: Bytes, slots: seq<Option<Bytes>>, n: nat): (r: Bytes)
    requires n <= |slots|
    ensures |r| == |parity| && forall j :: 0 <= j < |r| ==> r[j] == (parity[j] - Total(slots, n, j)) % 256
  {
    seq(|parity|, j requires 0 <= j < |parity| => (parity[j] - Total(slots, n, j)) % 256)
  }

  function Restored(slots: seq<Option<Bytes>>, i: nat): Option<Bytes>
    requires i < |slots|
  {
    var n := |slots| - 1;
    if slots[i].Some? then slots[i]
    else if i == n then Some(SumParity(slots, n, if slots[0].Some? then |slots[0].value| else 0))
    else if slots[n].Some? then Some(Difference(slots[n].value, slots, n))
    else None
  }

  /** One parity shard, the bytewise sum of the data shards. */
  function SumCode(): Code {
    Code(d => if d == [] then [] else [SumParity(Whole(d), |d|, |d[0]|)],
         slots => Some(seq(|slots|, i requires 0 <= i < |slots| => Restored(slots, i))))
  }

  lemma {:induction false} PresentIsFew(slots: seq<Option<Bytes>>)
    ensures Present(slots) <= |slots| && ((exists i :: 0 <= i < |slots| && slots[i].None?) ==> Present(slots) < |slots|)
    decreases |slots|
  {
    if slots != [] {
      PresentIsFew(slots[..|slots| - 1]);
      if i :| 0 <= i < |slots| - 1 && slots[i].None? {
        assert slots[..|slots| - 1][i].None?;
      }
    }
  }

  lemma {:induction false} TwoAreMissing(slots: seq<Option<Bytes>>, x: nat, y: nat)
    requires x < y < |slots| && slots[x].None? && slots[y].None?
    ensures Present(slots) + 2 <= |slots|
    decreases |slots|
  {
    var init := slots[..|slots| - 1];
    assert init[x].None?;
    if y == |slots| - 1 {
      PresentIsFew(init);
    } else {
      TwoAreMissing(init, x, y);
    }
  }

  /** With at most slot x missing, the total of the slots lacks exactly that shard. */
  lemma {:induction false} TotalLacks(d: seq<Bytes>, slots: seq<Option<Bytes>>, x: nat, n: nat, j: nat)
    requires SameLength(d, |d|) && n <= |d| <= |slots| && j < |d[0]|
    requires forall i :: 0 <= i < n && i != x ==> slots[i] == Some(d[i])
    requires x < n ==> slots[x].None?
    ensures Total(Whole(d), n, j) == Total(slots, n, j) + if x < n then d[x][j] else 0
  {
    if n > 0 {
      TotalLacks(d, slots, x, n - 1, j);
      assert |d[n - 1]| == |d[0]|;
    }
  }

  lemma Recovers(sum: nat, rest: nat, b: Byte)
    requires sum == rest + b
    ensures (sum % 256 - rest) % 256 == b
  {
    assert sum % 256 - rest == b - 256 * (sum / 256);
  }

  lemma OthersAreThere(shards: seq<Bytes>, slots: seq<Option<Bytes>>, x: nat, i: nat)
    requires Erased(shards, slots) && Present(slots) + 1 >= |shards| && x < |slots| && i < |slots| && x != i &&
             slots[x].None?
    ensures slots[i] == Some(shards[i])
  {
    if slots[i].None? {
      TwoAreMissing(slots, if i < x then i else x, if i < x then x else i);
    }
  }

  lemma RestoresParity(d: seq<Bytes>, slots: seq<Option<Bytes>>)
    requires SameLength(d, |d|) && |slots| == |d| + 1 && slots[|d|].None? &&
             forall i :: 0 <= i < |d| ==> slots[i] == Some(d[i])
    ensures Restored(slots, |d|) == Some(SumParity(Whole(d), |d|, |d[0]|))
  {
    var k := |d|;
    forall j | 0 <= j < |d[0]|
      ensures Total(Whole(d), k, j) == Total(slots, k, j)
    {
      TotalLacks(d, slots, k, k, j);
    }
    hide Total;
    assert SumParity(slots, k, |d[0]|) == SumParity(Whole(d), k, |d[0]|);
  }

  lemma RestoresData(d: seq<Bytes>, slots: seq<Option<Bytes>>, x: nat)
    requires SameLength(d, |d|) && |slots| == |d| + 1 && x < |d| && slots[x].None?
    requires slots[|d|] == Some(SumParity(Whole(d), |d|, |d[0]|))
    requires forall i :: 0 <= i < |d| && i != x ==> slots[i] == Some(d[i])
    ensures Restored(slots, x) == Some(d[x])
  {
    var k, parity := |d|, SumParity(Whole(d), |d|, |d[0]|);
    forall j | 0 <= j < |d[0]|
      ensures (parity[j] - Total(slots, k, j)) % 256 == d[x][j]
    {
      TotalLacks(d, slots, x, k, j);
      Recovers(Total(Whole(d), k, j), Total(slots, k, j), d[x][j]);
    }
    hide Total;
    assert Difference(parity, slots, k) == d[x];
  }

  lemma RestoresEach(d: seq<Bytes>, slots: seq<Option<Bytes>>, x: nat)
    requires SameLength(d, |d|) && x < |slots|
    requires Erased(d + [SumParity(Whole(d), |d|, |d[0]|)], slots) && Present(slots) >= |d|
    ensures Restored(slots, x) == Some((d + [SumParity(Whole(d), |d|, |d[0]|)])[x])
  {
    hide Restored, Present, SumParity, Whole;
    var shards := d + [SumParity(Whole(d), |d|, |d[0]|)];
    if slots[x].Some? {
      Stays(slots, x);
    } else {
      forall i | 0 <= i < |slots| && i != x
        ensures slots[i] == Some(shards[i])
      {
        OthersAreThere(shards, slots, x, i);
      }
      if x < |d| {
        RestoresData(d, slots, x);
      } else {
        RestoresParity(d, slots);
      }
    }
  }

  lemma Stays(slots: seq<Option<Bytes>>, x: nat)
    requires x < |slots| && slots[x].Some?
    ensures Restored(slots, x) == slots[x]
  {}

  /** For every number of data shards, one shard of sums keeps the promise. */
  lemma SumCodeIsMds(k: nat)
    ensures Mds(SumCode(), k, 1)
  {
    var code := SumCode();
    forall d: seq<Bytes>, slots: seq<Option<Bytes>>
      | SameLength(d, k) && Erased(d + code.parity(d), slots) && Present(slots) >= k
      ensures code.rebuild(slots) == Some(Whole(d + code.parity(d)))
    {
      forall i | 0 <= i < |slots|
        ensures Restored(slots, i) == Some((d + code.parity(d))[i])
      {
        RestoresEach(d, slots, i);
      }
      assert code.rebuild(slots).value == Whole(d + code.parity(d));
    }
  }
}
