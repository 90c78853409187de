/** Byte strings, the errors the parsers raise, and fixed-width unsigned integers in both byte orders. */
module Bytes {
  newtype byte = b: int | 0 <= b < 256

  type bytes = seq<byte>

  type u16 = n: nat | n < 0x1_0000

  type u32 = n: nat | n < 0x1_0000_0000

  /** The exceptions of the library: dpkt.NeedData, dpkt.UnpackError, dpkt.PackError, a plain
      ValueError, and HTTP2Exception for a protocol violation. */
  datatype Error = NeedData | UnpackError | PackError | ValueError | ProtocolError

  datatype Result<+T> = Ok(value: T) | Err(error: Error) {
    predicate IsFailure() { Err? }

    function PropagateFailure<U>(): Result<U>
      requires Err?
    {
      Err(error)
    }

    function Extract(): T
      requires Ok?
    {
      value
    }
  }

  datatype Option<+T> = None | Some(value: T)

  function Min(a: int, b: int): int { if a < b then a else b }

  /** A Python slice b[lo:hi] with non-negative bounds: out-of-range bounds are clamped. */
  function Slice(b: bytes, lo: nat, hi: nat): (r: bytes)
    ensures |r| <= |b|
    ensures lo <= hi <= |b| ==> r == b[lo..hi]
  {
    if lo >= hi || lo >= |b| then [] else b[lo..Min(hi, |b|)]
  }

  /** A Python slice b[lo:]. */
  function From(b: bytes, lo: nat): (r: bytes)
    ensures |r| <= |b|
  {
    if lo >= |b| then [] else b[lo..]
  }

  lemma SliceExtend(b: bytes, more: bytes, lo: nat, hi: nat)
    requires hi <= |b|
    ensures Slice(b + more, lo, hi) == Slice(b, lo, hi)
  {
    if lo < hi {
      assert (b + more)[lo..hi] == b[lo..hi];
    }
  }

  function Pow256(k: nat): (p: nat)
    ensures p > 0
    decreases k
  {
    if k == 0 then 1 else 256 * Pow256(k - 1)
  }

  /** The low k bytes of n, most significant first. */
  function BE(n: nat, k: nat): (b: bytes)
    ensures |b| == k
    decreases k
  {
    if k == 0 then [] else BE(n / 256, k - 1) + [(n % 256) as byte]
  }

  function UnBE(b: bytes): (n: nat)
    decreases |b|
  {
    if |b| == 0 then 0 else 256 * UnBE(b[..|b| - 1]) + b[|b| - 1] as int
  }

  /** The low k bytes of n, least significant first. */
  function LE(n: nat, k: nat): (b: bytes)
    ensures |b| == k
    decreases k
  {
    if k == 0 then [] else [(n % 256) as byte] + LE(n / 256, k - 1)
  }

  function UnLE(b: bytes): (n: nat)
    decreases |b|
  {
    if |b| == 0 then 0 else b[0] as int + 256 * UnLE(b[1..])
  }

  /** An unsigned field of k bytes in the byte order of the packet class. */
  function Enc(le: bool, n: nat, k: nat): (b: bytes)
    ensures |b| == k
  {
    if le then LE(n, k) else BE(n, k)
  }

  function Dec(le: bool, b: bytes): nat {
    if le then UnLE(b) else UnBE(b)
  }

  lemma {:induction false} BERoundTrip(n: nat, k: nat)
    requires n < Pow256(k)
    ensures UnBE(BE(n, k)) == n
    decreases k
  {
    if k > 0 {
      BERoundTrip(n / 256, k - 1);
      var b := BE(n, k);
      assert b[..|b| - 1] == BE(n / 256, k - 1);
    }
  }

  lemma {:induction false} UnBERoundTrip(b: bytes)
    ensures UnBE(b) < Pow256(|b|)
    ensures BE(UnBE(b), |b|) == b
    decreases |b|
  {
    if |b| > 0 {
      var n, last := UnBE(b[..|b| - 1]), b[|b| - 1] as int;
      UnBERoundTrip(b[..|b| - 1]);
      assert (256 * n + last) / 256 == n && (256 * n + last) % 256 == last;
      assert b == b[..|b| - 1] + [b[|b| - 1]];
    }
  }

  lemma {:induction false} LERoundTrip(n: nat, k: nat)
    requires n < Pow256(k)
    ensures UnLE(LE(n, k)) == n
    decreases k
  {
    if k > 0 {
      LERoundTrip(n / 256, k - 1);
      assert LE(n, k)[1..] == LE(n / 256, k - 1);
    }
  }

  lemma {:induction false} UnLERoundTrip(b: bytes)
    ensures UnLE(b) < Pow256(|b|)
    ensures LE(UnLE(b), |b|) == b
    decreases |b|
  {
    if |b| > 0 {
      var n := UnLE(b[1..]);
      UnLERoundTrip(b[1..]);
      var first := b[0] as int;
      assert (first + 256 * n) / 256 == n && (first + 256 * n) % 256 == first;
      assert b == [b[0]] + b[1..];
    }
  }

  lemma EncRoundTrip(le: bool, n: nat, k: nat)
    requires n < Pow256(k)
    ensures Dec(le, Enc(le, n, k)) == n
  {
    if le { LERoundTrip(n, k); } else { BERoundTrip(n, k); }
  }

  /** The field widths that struct formats B, H, I and Q use. */
  lemma Widths()
    ensures Pow256(1) == 0x100 && Pow256(2) == 0x1_0000
    ensures Pow256(3) == 0x100_0000 && Pow256(4) == 0x1_0000_0000
    ensures Pow256(8) == 0x1_0000_0000_0000_0000
  {
    assert Pow256(1) == 256 * Pow256(0);
    assert Pow256(2) == 256 * Pow256(1);
    assert Pow256(3) == 256 * Pow256(2);
    assert Pow256(4) == 256 * Pow256(3);
    assert Pow256(5) == 256 * Pow256(4);
    assert Pow256(6) == 256 * Pow256(5);
    assert Pow256(7) == 256 * Pow256(6);
    assert Pow256(8) == 256 * Pow256(7);
  }

  /** A big-endian field written after `pre` is read back from any buffer that starts with both. */
  lemma FieldAt(buf: bytes, pre: bytes, n: nat, k: nat)
    requires n < Pow256(k) && pre + BE(n, k) <= buf
    ensures UnBE(buf[|pre|..|pre| + k]) == n
  {
    BERoundTrip(n, k);
    assert buf[|pre|..|pre| + k] == (pre + BE(n, k))[|pre|..] == BE(n, k);
  }

  /** The leading byte of a big-endian field holds its top eight bits. */
  lemma {:induction false} BELead(n: nat, k: nat)
    requires 0 < k && n < Pow256(k)
    ensures BE(n, k)[0] as int == n / Pow256(k - 1)
    decreases k
  {
    if k > 1 {
      BELead(n / 256, k - 1);
      DivDiv(n, Pow256(k - 2));
    }
  }

  lemma DivDiv(n: nat, p: nat)
    requires p > 0
    ensures n / 256 / p == n / (256 * p)
  {
    var q := n / 256 / p;
    var r := n / 256 % p;
    assert n / 256 == p * q + r;
    assert n == 256 * (p * q + r) + n % 256;
    assert n == (256 * p) * q + (256 * r + n % 256);
    DivUnique(n, 256 * p, q, 256 * r + n % 256);
  }

  lemma DivUnique(n: nat, d: nat, q: nat, r: nat)
    requires d > 0 && n == d * q + r && r < d
    ensures n / d == q
  {
    var q' := n / d;
    if q > q' {
      MulMonotone(d, q' + 1, q);
    } else if q < q' {
      MulMonotone(d, q + 1, q');
    }
  }

  lemma MulMonotone(d: nat, a: nat, b: nat)
    requires a <= b
    ensures d * a <= d * b
  {
  }

  lemma Regroup(a: bytes, b: bytes, c: bytes, d: bytes)
    ensures a + b + (c + d) == a + (b + c) + d
  {
  }

  function Flatten(parts: seq<bytes>): bytes {
    if parts == [] then [] else parts[0] + Flatten(parts[1..])
  }
}
