/** Byte strings: big-endian integers, and the "zero-extend, then overwrite" write
    shared by the dirty buffer and the data file. */
module Bytes {

  type Byte = x: int | 0 <= x < 256

  type Bytes = seq<Byte>

  const U32_LIMIT: nat := 0x1_0000_0000
  const U64_LIMIT: nat := 0x1_0000_0000_0000_0000
  const U64_MAX: nat := U64_LIMIT - 1

  type U64 = x: nat | x < U64_LIMIT

  function Max(a: nat, b: nat): nat {
    if a < b then b else a
  }

  function Min(a: nat, b: nat): nat {
    if a < b then a else b
  }

  function SatSub(a: nat, b: nat): nat {
    if a < b then 0 else a - b
  }

  function Zeros(n: nat): (z: Bytes)
    ensures |z| == n && forall i :: 0 <= i < n ==> z[i] == 0
  {
    seq(n, i => 0)
  }

  /** Bytes `[from, from + len)` of `s`, clipped to what `s` holds. */
  function Clip(s: Bytes, from: nat, len: nat): (r: Bytes)
    ensures from <= |s| ==> |r| == Min(len, |s| - from)
    ensures from > |s| ==> r == []
    ensures forall i :: 0 <= i < |r| ==> from + i < |s| && r[i] == s[from + i]
  {
    if from >= |s| then [] else s[from..from + Min(len, |s| - from)]
  }

  /** Grow `base` with zeros until it covers the region, then overwrite the region. */
  function Patch(base: Bytes, offset: nat, data: Bytes): (r: Bytes)
    ensures |r| == Max(|base|, offset + |data|)
    ensures forall i :: 0 <= i < |r| ==>
              r[i] == if offset <= i < offset + |data| then data[i - offset]
                      else if i < |base| then base[i] else 0
  {
    var end := offset + |data|;
    var grown := if end > |base| then base + Zeros(end - |base|) else base;
    grown[..offset] + data + grown[end..]
  }

  /** Bytes below the patched region, and above it, are the ones that were there. */
  lemma PatchKeepsSlice(base: Bytes, offset: nat, data: Bytes, from: nat, to: nat)
    requires from <= to <= |base|
    requires to <= offset || offset + |data| <= from
    ensures Patch(base, offset, data)[from..to] == base[from..to]
  {}

  lemma PatchedSlice(base: Bytes, offset: nat, data: Bytes)
    ensures Patch(base, offset, data)[offset..offset + |data|] == data
  {}

  function Pow256(n: nat): (p: nat)
    ensures p >= 1
  {
    if n == 0 then 1 else 256 * Pow256(n - 1)
  }

  /** The low `width` bytes of `v`, most significant first. */
  function BigEndian(v: int, width: nat): (b: Bytes)
    ensures |b| == width
    decreases width
  {
    if width == 0 then [] else BigEndian(v / 256, width - 1) + [v % 256]
  }

  function FromBigEndian(b: Bytes): (v: nat)
    ensures v < Pow256(|b|)
  {
    if b == [] then 0 else 256 * FromBigEndian(b[..|b| - 1]) + b[|b| - 1]
  }

  lemma {:induction false} BigEndianDecodes(v: nat, width: nat)
    requires v < Pow256(width)
    ensures FromBigEndian(BigEndian(v, width)) == v
  {
    if width > 0 {
      BigEndianDecodes(v / 256, width - 1);
      var b := BigEndian(v, width);
      assert b[..|b| - 1] == BigEndian(v / 256, width - 1);
    }
  }

  lemma DivModUnique(x: nat, y: Byte)
    ensures (256 * x + y) / 256 == x && (256 * x + y) % 256 == y
  {}

  lemma {:induction false} BigEndianEncodes(b: Bytes)
    ensures BigEndian(FromBigEndian(b), |b|) == b
  {
    if b != [] {
      var init, last := b[..|b| - 1], b[|b| - 1];
      BigEndianEncodes(init);
      DivModUnique(FromBigEndian(init), last);
      assert b == init + [last];
    }
  }

  lemma FieldWidths()
    ensures Pow256(4) == U32_LIMIT && Pow256(8) == U64_LIMIT
  {}
}
