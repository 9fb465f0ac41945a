/** Bytes and the fixed-width integers of the on-disk formats.

  QCOW2 metadata is big-endian (nom's `be_u*` helpers), the boot-sector
  partition entries are little-endian (`le_u*`).  Values are unbounded `nat`s;
  the width of a field is the length of the byte run it is decoded from.
 */
module Bytes {

  type byte = x: int | 0 <= x < 256

  /** Rust's `u64` and `i64`, for the places where the width is observable. */
  type u64 = x: int | 0 <= x < 0x1_0000_0000_0000_0000
  type i64 = x: int | -0x8000_0000_0000_0000 <= x < 0x8000_0000_0000_0000

  const U32: nat := 0x1_0000_0000
  const U64: nat := 0x1_0000_0000_0000_0000

  function Pow2(n: nat): (r: nat)
    ensures r >= 1
  {
    if n == 0 then 1 else 2 * Pow2(n - 1)
  }

  function Pow256(n: nat): (r: nat)
    ensures r >= 1
  {
    if n == 0 then 1 else 256 * Pow256(n - 1)
  }

  /** Bit `k` of `v`, i.e. `v & (1 << k) != 0`. */
  predicate Bit(v: nat, k: nat) {
    (v / Pow2(k)) % 2 == 1
  }

  /** A slice of a slice is a slice of the whole. */
  lemma SubSlice<T>(s: seq<T>, lo: nat, hi: nat, i: nat, j: nat)
    requires lo <= hi <= |s| && i <= j <= hi - lo
    ensures s[lo..hi][i..j] == s[lo + i..lo + j]
  {
    var a, b := s[lo..hi][i..j], s[lo + i..lo + j];
    forall k | 0 <= k < |a| ensures a[k] == b[k] {
    }
  }

  function Zeros(n: nat): (r: seq<byte>)
    ensures |r| == n
    ensures forall i :: 0 <= i < n ==> r[i] == 0
  {
    seq(n, _ => 0)
  }

  /** Unsigned big-endian value of `s`. */
  function BeUint(s: seq<byte>): (r: nat)
    ensures r < Pow256(|s|)
  {
    if |s| == 0 then 0
    else
      var hi := BeUint(s[..|s| - 1]);
      assert hi * 256 + s[|s| - 1] < Pow256(|s| - 1) * 256 by {
        assert hi <= Pow256(|s| - 1) - 1;
      }
      hi * 256 + s[|s| - 1]
  }

  /** A big-endian 64-bit word. */
  function BeU64(s: seq<byte>): (r: nat)
    requires |s| == 8
    ensures r < U64
  {
    assert Pow256(8) == U64;
    BeUint(s)
  }

  /** Unsigned little-endian value of `s`. */
  function LeUint(s: seq<byte>): (r: nat)
    ensures r < Pow256(|s|)
  {
    if |s| == 0 then 0
    else
      var hi := LeUint(s[1..]);
      assert s[0] + 256 * hi < 256 * Pow256(|s| - 1) by {
        assert hi <= Pow256(|s| - 1) - 1;
      }
      s[0] + 256 * hi
  }

  /** The `n`-byte big-endian encoding of `v` (modulo 256^n). */
  function BeBytes(v: nat, n: nat): (r: seq<byte>)
    ensures |r| == n
  {
    if n == 0 then [] else BeBytes(v / 256, n - 1) + [v % 256]
  }

  /** The `n`-byte little-endian encoding of `v` (modulo 256^n). */
  function LeBytes(v: nat, n: nat): (r: seq<byte>)
    ensures |r| == n
  {
    if n == 0 then [] else [v % 256] + LeBytes(v / 256, n - 1)
  }

  /** Encoding then decoding a value that fits gives the value back. */
  lemma {:induction false} BeBytesRoundTrip(v: nat, n: nat)
    requires v < Pow256(n)
    ensures BeUint(BeBytes(v, n)) == v
  {
    if n > 0 {
      var s := BeBytes(v, n);
      var hi := v / 256;
      assert v == hi * 256 + v % 256;
      assert hi < Pow256(n - 1);
      assert s[..n - 1] == BeBytes(hi, n - 1);
      BeBytesRoundTrip(hi, n - 1);
      assert BeUint(s) == BeUint(s[..n - 1]) * 256 + s[n - 1];
    }
  }

  /** Decoding then re-encoding a byte run gives the run back. */
  lemma {:induction false} BeUintRoundTrip(s: seq<byte>)
    ensures BeBytes(BeUint(s), |s|) == s
  {
    if |s| > 0 {
      var p := s[..|s| - 1];
      var v := BeUint(s);
      assert v / 256 == BeUint(p) && v % 256 == s[|s| - 1];
      BeUintRoundTrip(p);
      assert s == p + [s[|s| - 1]];
    }
  }

  lemma {:induction false} LeBytesRoundTrip(v: nat, n: nat)
    requires v < Pow256(n)
    ensures LeUint(LeBytes(v, n)) == v
  {
    if n > 0 {
      var s := LeBytes(v, n);
      assert s[1..] == LeBytes(v / 256, n - 1);
      LeBytesRoundTrip(v / 256, n - 1);
    }
  }
}
