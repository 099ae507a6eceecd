/** Bytes, 64-bit words and the little-endian encoding shared by the on-disk formats. */
module Bytes {
  type byte = x: int | 0 <= x < 0x100
  const TWO63: int := 0x8000_0000_0000_0000
  const TWO64: int := 0x1_0000_0000_0000_0000
  type u64 = x: int | 0 <= x < 0x1_0000_0000_0000_0000

  /** Unsigned 64-bit arithmetic keeps the low 64 bits. */
  function Wrap64(x: int): (r: u64)
    ensures 0 <= x < TWO64 ==> r == x
    ensures TWO64 <= x < 2 * TWO64 ==> r == x - TWO64
    ensures -TWO64 <= x < 0 ==> r == x + TWO64
  {
    x % 0x1_0000_0000_0000_0000
  }

  /** The two's-complement reading of the low 64 bits of `x` (a C conversion to `loff_t`). */
  function ToS64(x: int): (r: int)
    ensures -TWO63 <= r < TWO63
    ensures -TWO63 <= x < TWO63 ==> r == x
  {
    var m := Wrap64(x);
    if m < TWO63 then m else m - TWO64
  }

  function Pow256(n: nat): (p: nat)
    ensures p >= 1
  {
    if n == 0 then 1 else 256 * Pow256(n - 1)
  }

  /** The `n` low bytes of `x`, least significant first. */
  function ToLE(x: nat, n: nat): (s: seq<byte>)
    ensures |s| == n
  {
    if n == 0 then [] else [x % 256] + ToLE(x / 256, n - 1)
  }

  function FromLE(s: seq<byte>): (x: nat)
    ensures x < Pow256(|s|)
  {
    if s == [] then 0 else s[0] + 256 * FromLE(s[1..])
  }

  lemma {:induction false} FromToLE(x: nat, n: nat)
    requires x < Pow256(n)
    ensures FromLE(ToLE(x, n)) == x
  {
    if n != 0 {
      FromToLE(x / 256, n - 1);
      assert ToLE(x, n)[1..] == ToLE(x / 256, n - 1);
    }
  }

  lemma {:induction false} Pow256Of8()
    ensures Pow256(8) == TWO64
  {
    assert Pow256(2) == 0x1_0000;
    assert Pow256(4) == 0x1_0000_0000;
    assert Pow256(6) == 0x1_0000_0000_0000;
  }

  lemma {:induction false} DivideTwice(x: nat, p: nat)
    requires p > 0
    ensures x / 256 / p == x / (256 * p)
  {
    var q, r := x / 256 / p, x / 256 % p;
    assert x / 256 == q * p + r && x == 256 * (x / 256) + x % 256;
    assert x == q * (256 * p) + (256 * r + x % 256);
    QuotientUnique(x, 256 * p, q, 256 * r + x % 256);
  }

  lemma {:induction false} QuotientUnique(x: nat, d: nat, q: nat, r: nat)
    requires r < d && x == q * d + r
    ensures x / d == q
  {
    var e: int := x / d - q;
    assert e * d == r - x % d;
    SmallMultiple(e, d);
  }

  lemma {:induction false} SmallMultiple(e: int, d: nat)
    requires 0 < e * d + d && e * d < d
    ensures e == 0
  {
  }

  /** Byte `i` holds the digit of 256^i. */
  lemma {:induction false} ByteOfLE(x: nat, n: nat, i: nat)
    requires i < n
    ensures ToLE(x, n)[i] == x / Pow256(i) % 256
  {
    if i > 0 {
      ByteOfLE(x / 256, n - 1, i - 1);
      DivideTwice(x, Pow256(i - 1));
    }
  }

  /** A 64-bit field as it is stored. */
  function EncodeU64(x: u64): (s: seq<byte>)
    ensures |s| == 8
    ensures DecodeU64(s) == x
  {
    Pow256Of8();
    FromToLE(x, 8);
    ToLE(x, 8)
  }

  function DecodeU64(s: seq<byte>): u64
    requires |s| == 8
  {
    Pow256Of8();
    FromLE(s)
  }

  lemma {:induction false} BytesOfU64(x: u64)
    ensures forall i :: 0 <= i < 8 ==> EncodeU64(x)[i] == x / Pow256(i) % 256
  {
    forall i | 0 <= i < 8
      ensures EncodeU64(x)[i] == x / Pow256(i) % 256
    {
      ByteOfLE(x, 8, i);
    }
  }

  /** `s` with `data` written over it from `off` on: the effect of `pwrite` inside a file. */
  function Splice<T>(s: seq<T>, off: nat, data: seq<T>): (r: seq<T>)
    requires off + |data| <= |s|
    ensures |r| == |s|
    ensures r[off..off + |data|] == data
    ensures r[..off] == s[..off] && r[off + |data|..] == s[off + |data|..]
  {
    s[..off] + data + s[off + |data|..]
  }

  lemma {:induction false} SliceOfPrefix<T>(s: seq<T>, whole: seq<T>, i: nat, j: nat)
    requires s <= whole && i <= j <= |s|
    ensures s[i..j] == whole[i..j]
  {
    var a, b := s[i..j], whole[i..j];
    assert forall k :: 0 <= k < |a| ==> a[k] == b[k];
  }

  lemma {:induction false} SliceOfSlice<T>(s: seq<T>, lo: nat, hi: nat, i: nat, j: nat)
    requires lo <= hi <= |s| && i <= j <= hi - lo
    ensures s[lo..hi][i..j] == s[lo + i..lo + j]
  {
    var a, b := s[lo..hi][i..j], s[lo + i..lo + j];
    assert forall k :: 0 <= k < |a| ==> a[k] == b[k];
  }

  /** Each byte after a write is the one written there, or the old one. */
  lemma {:induction false} SpliceAt<T>(s: seq<T>, off: nat, data: seq<T>, k: nat)
    requires off + |data| <= |s| && k < |s|
    ensures Splice(s, off, data)[k] == if off <= k < off + |data| then data[k - off] else s[k]
  {
    var front, back := s[..off] + data, s[off + |data|..];
    if k < off + |data| {
      assert (front + back)[k] == front[k];
    } else {
      assert (front + back)[k] == back[k - |front|];
    }
  }

  /** A write changes nothing outside its range. */
  lemma {:induction false} SliceOutsideSplice<T>(s: seq<T>, off: nat, data: seq<T>, i: nat, j: nat)
    requires off + |data| <= |s| && i <= j <= |s| && (j <= off || off + |data| <= i)
    ensures Splice(s, off, data)[i..j] == s[i..j]
  {
    hide Splice;
    var r := Splice(s, off, data);
    var a, b := r[i..j], s[i..j];
    forall k | 0 <= k < |a|
      ensures a[k] == b[k]
    {
      SpliceAt(s, off, data, i + k);
    }
  }
}
