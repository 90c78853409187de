/**
 The Internet checksum. The program adds little-endian words, folds twice and swaps; RFC 1071 section 1 adds
 big-endian words and folds until no carry is left.
 */
module InetChecksum {
  import opened Bytes

  /** Sum of the little-endian 16-bit words; an odd last byte counts as itself. */
  function SumLE(buf: bytes): nat
    decreases |buf|
  {
    if |buf| == 0 then 0
    else if |buf| == 1 then buf[0] as int
    else buf[0] as int + 256 * buf[1] as int + SumLE(buf[2..])
  }

  /** Sum of the big-endian 16-bit words; an odd last byte is followed by a zero. */
  function SumBE(buf: bytes): nat
    decreases |buf|
  {
    if |buf| == 0 then 0
    else if |buf| == 1 then 256 * buf[0] as int
    else 256 * buf[0] as int + buf[1] as int + SumBE(buf[2..])
  }

  /** in_cksum_add. */
  function CksumAdd(s: nat, buf: bytes): nat {
    s + SumLE(buf)
  }

  /** ntole: swap the two bytes of a word. */
  function Swap(v: u16): u16 {
    v % 256 * 256 + v / 256
  }

  /** The two folds of in_cksum_done, cut to sixteen bits. */
  function TwoFolds(s: nat): u16 {
    var s1 := s / 0x1_0000 + s % 0x1_0000;
    (s1 + s1 / 0x1_0000) % 0x1_0000
  }

  /** in_cksum_done. */
  function CksumDone(s: nat): u16 {
    Swap(0xffff - TwoFolds(s))
  }

  /** in_cksum. */
  function Cksum(buf: bytes): u16 {
    CksumDone(CksumAdd(0, buf))
  }

  // ---------- the reference ----------

  /** End-around carry, repeated until sixteen bits are left. */
  function Fold(s: nat): u16
    decreases s
  {
    if s < 0x1_0000 then s else Fold(s / 0x1_0000 + s % 0x1_0000)
  }

  /** RFC 1071 section 1. */
  function Reference(buf: bytes): u16 {
    0xffff - Fold(SumBE(buf))
  }

  /** The residue of s modulo 65535, with 65535 in place of zero unless s is zero. */
  function Residue(s: nat): u16 {
    if s == 0 then 0 else 1 + (s - 1) % 0xffff
  }

  lemma ResidueShift(s: nat, k: nat)
    requires s > 0
    ensures Residue(s + 0xffff * k) == Residue(s)
  {
    var q, r := (s - 1) / 0xffff, (s - 1) % 0xffff;
    assert s - 1 + 0xffff * k == 0xffff * (q + k) + r;
    DivUnique(s - 1 + 0xffff * k, 0xffff, q + k, r);
  }

  /** One fold keeps the residue. */
  lemma FoldStep(s: nat)
    ensures Residue(s / 0x1_0000 + s % 0x1_0000) == Residue(s)
  {
    if s > 0 {
      var t := s / 0x1_0000 + s % 0x1_0000;
      assert s == t + 0xffff * (s / 0x1_0000);
      ResidueShift(t, s / 0x1_0000);
    }
  }

  lemma {:induction false} FoldIsResidue(s: nat)
    ensures Fold(s) == Residue(s)
    decreases s
  {
    if s >= 0x1_0000 {
      FoldIsResidue(s / 0x1_0000 + s % 0x1_0000);
      FoldStep(s);
    }
  }

  /** What is left after one fold and the carry of the next. */
  function Carried(s: nat): nat {
    var s1 := s / 0x1_0000 + s % 0x1_0000;
    s1 / 0x1_0000 + s1 % 0x1_0000
  }

  lemma CarriedFacts(s: nat)
    ensures TwoFolds(s) == Carried(s) % 0x1_0000 && Residue(Carried(s)) == Residue(s)
  {
    hide Residue;
    var s1 := s / 0x1_0000 + s % 0x1_0000;
    FoldStep(s);
    FoldStep(s1);
    DropMultiple(s1 / 0x1_0000, Carried(s));
  }

  lemma DropMultiple(q: nat, v: nat)
    ensures (0x1_0000 * q + v) % 0x1_0000 == v % 0x1_0000
  {
    var d, m := v / 0x1_0000, v % 0x1_0000;
    DivUnique(0x1_0000 * q + v, 0x1_0000, q + d, m);
  }

  /** Two folds suffice exactly when no carry is lost, or when the lost carries are a multiple of 65535. */
  predicate TwoFoldsSuffice(s: nat) {
    var v := Carried(s);
    v < 0x1_0000 || (v / 0x1_0000 % 0xffff == 0 && v % 0x1_0000 != 0)
  }

  lemma ResidueCut(k: nat, m: nat)
    requires 0 < k && m < 0x1_0000
    ensures m == Residue(k + m) <==> k % 0xffff == 0 && m != 0
  {
    var q, r := k / 0xffff, k % 0xffff;
    if m == 0 {
      assert Residue(k + m) > 0;
    } else {
      ResidueShift(r + m, q);
      assert r + m + 0xffff * q == k + m;
      if r == 0 { ResidueSmall(m); } else { ResidueMoves(r, m); }
    }
  }

  lemma ResidueSmall(m: nat)
    requires m < 0x1_0000
    ensures Residue(m) == m
  {
  }

  lemma ResidueMoves(r: nat, m: nat)
    requires 0 < r < 0xffff && 0 < m < 0x1_0000
    ensures Residue(r + m) != m
  {
    if r + m <= 0xffff {
      ResidueSmall(r + m);
    } else {
      ResidueShift(r + m - 0xffff, 1);
      ResidueSmall(r + m - 0xffff);
    }
  }

  /** The two folds compute the residue if and only if they suffice. */
  lemma TwoFoldsExact(s: nat)
    ensures TwoFolds(s) == Residue(s) <==> TwoFoldsSuffice(s)
  {
    CarriedFacts(s);
    var v := Carried(s);
    if v < 0x1_0000 {
      ResidueSmall(v);
    } else {
      FoldStep(v);
      ResidueCut(v / 0x1_0000, v % 0x1_0000);
    }
  }

  lemma SmallSumsSuffice(s: nat)
    requires s < 0x1_0000_0000
    ensures TwoFoldsSuffice(s)
  {
    var s1 := s / 0x1_0000 + s % 0x1_0000;
    assert s1 <= 0x1_fffe;
  }

  lemma SwapResidue(s: nat)
    ensures Swap(Residue(s)) == Residue(256 * s)
  {
    if s > 0 {
      var r: nat := Residue(s);
      var q := (s - 1) / 0xffff;
      assert s == r + 0xffff * q;
      assert 256 * r == Swap(r) + 0xffff * (r / 256);
      assert 256 * s == Swap(r) + 0xffff * (r / 256 + 256 * q);
      ResidueShift(Swap(r), r / 256 + 256 * q);
      ResidueSmall(Swap(r));
    }
  }

  lemma SwapComplement(r: u16)
    ensures Swap(0xffff - r) == 0xffff - Swap(r)
  {
  }

  lemma SwapInjective(x: u16, y: u16)
    requires Swap(x) == Swap(y)
    ensures x == y
  {
  }

  /** Byte-order independence (RFC 1071 section 2(B)): swapped words change the sum by a multiple of 65535. */
  lemma {:induction false} ByteOrder(buf: bytes) returns (k: nat)
    ensures 256 * SumLE(buf) == SumBE(buf) + 0xffff * k
    ensures SumLE(buf) == 0 <==> SumBE(buf) == 0
    decreases |buf|
  {
    k := 0;
    if |buf| > 1 {
      k := ByteOrder(buf[2..]);
      k := k + buf[1] as int;
    }
  }

  lemma ByteOrderResidue(buf: bytes)
    ensures Residue(256 * SumLE(buf)) == Residue(SumBE(buf))
  {
    var k := ByteOrder(buf);
    if SumBE(buf) > 0 {
      ResidueShift(SumBE(buf), k);
    }
  }

  /** The program's checksum is the one of RFC 1071 if and only if its two folds suffice. */
  lemma CksumExact(buf: bytes)
    ensures Cksum(buf) == Reference(buf) <==> TwoFoldsSuffice(SumLE(buf))
  {
    hide Fold, SumLE, SumBE, TwoFolds, Residue, Swap, TwoFoldsSuffice;
    var s := SumLE(buf);
    FoldIsResidue(SumBE(buf));
    ByteOrderResidue(buf);
    SwapResidue(s);
    SwapComplement(Residue(s));
    TwoFoldsExact(s);
    if Swap(0xffff - TwoFolds(s)) == Swap(0xffff - Residue(s)) {
      SwapInjective(0xffff - TwoFolds(s), 0xffff - Residue(s));
    }
  }

  /** The given number of words of all ones. */
  function Ones(words: nat): (b: bytes)
    ensures |b| == 2 * words
  {
    if words == 0 then [] else [0xff, 0xff] + Ones(words - 1)
  }

  lemma {:induction false} OnesSum(words: nat)
    ensures SumLE(Ones(words)) == 0xffff * words
  {
    if words > 0 {
      OnesSum(words - 1);
      assert Ones(words)[2..] == Ones(words - 1);
    }
  }

  /** A sum for which a third fold would be needed, and a buffer with that sum: 65538 words of ones and a one. */
  lemma ThirdFold(s: nat, words: nat)
    requires s == 0x1_0000_FFFF && words == 0x1_0002
    ensures !TwoFoldsSuffice(s) && TwoFolds(s) != Residue(s)
    ensures var buf := Ones(words) + [1, 0]; SumLE(buf) == s && Cksum(buf) != Reference(buf)
  {
    NotEnough(s);
    hide TwoFoldsSuffice, TwoFolds, Residue, Cksum, Reference, Ones, SumLE;
    OnesAndOne(words, Ones(words) + [1, 0]);
    CksumExact(Ones(words) + [1, 0]);
  }

  lemma OnesAndOne(words: nat, buf: bytes)
    requires buf == Ones(words) + [1, 0]
    ensures SumLE(buf) == 0xffff * words + 1
  {
    hide SumLE, Ones;
    var one: bytes := [1, 0];
    OnesSum(words);
    SumConcat(Ones(words), one);
    OneSum(one);
  }

  lemma NotEnough(s: nat)
    requires s == 0x1_0000_FFFF
    ensures !TwoFoldsSuffice(s) && TwoFolds(s) != Residue(s)
  {
  }

  lemma OneSum(one: bytes)
    requires one == [1, 0]
    ensures SumLE(one) == 1
  {
  }

  lemma {:induction false} SumBound(buf: bytes)
    ensures SumLE(buf) <= 0xffff * ((|buf| + 1) / 2)
    decreases |buf|
  {
    if |buf| > 1 {
      SumBound(buf[2..]);
    }
  }

  /** Every buffer of at most 131072 bytes gets the checksum of RFC 1071. */
  lemma CksumIsReference(buf: bytes)
    requires |buf| <= 0x2_0000
    ensures Cksum(buf) == Reference(buf)
  {
    SumBound(buf);
    SmallSumsSuffice(SumLE(buf));
    CksumExact(buf);
  }

  // ---------- sums over pieces ----------

  /** After an odd number of bytes the words of the second piece are cut the other way round. */
  lemma {:induction false} SumConcat(a: bytes, b: bytes)
    ensures SumLE(a + b) == SumLE(a) + if |a| % 2 == 0 then SumLE(b) else SumBE(b)
    decreases |a|
  {
    if |a| == 0 {
      assert a + b == b;
    } else if |a| == 1 {
      OddStart(a[0], b);
      assert a + b == [a[0]] + b;
    } else {
      assert (a + b)[2..] == a[2..] + b;
      SumConcat(a[2..], b);
    }
  }

  lemma {:induction false} OddStart(x: byte, b: bytes)
    ensures SumLE([x] + b) == x as int + SumBE(b)
    decreases |b|
  {
    if |b| > 0 {
      var c := [x] + b;
      assert c[2..] == b[1..];
      if |b| > 1 {
        OddStart(b[1], b[2..]);
        assert b[1..] == [b[1]] + b[2..];
      }
    }
  }

  lemma {:induction false} SumBEConcat(a: bytes, b: bytes)
    requires |a| % 2 == 0
    ensures SumBE(a + b) == SumBE(a) + SumBE(b)
    decreases |a|
  {
    if |a| == 0 {
      assert a + b == b;
    } else {
      assert (a + b)[2..] == a[2..] + b;
      SumBEConcat(a[2..], b);
    }
  }

  /** in_cksum_add chained over a list of pieces. */
  function AddPieces(s: nat, pieces: seq<bytes>): nat
    decreases |pieces|
  {
    if |pieces| == 0 then s else AddPieces(CksumAdd(s, pieces[0]), pieces[1..])
  }

  /** Chaining equals one sum over everything when every piece but the last has even length. */
  lemma {:induction false} ChainedSum(s: nat, pieces: seq<bytes>)
    requires forall i :: 0 <= i < |pieces| - 1 ==> |pieces[i]| % 2 == 0
    ensures AddPieces(s, pieces) == CksumAdd(s, Flatten(pieces))
    decreases |pieces|
  {
    if |pieces| > 0 {
      ChainedSum(CksumAdd(s, pieces[0]), pieces[1..]);
      SumConcat(pieces[0], Flatten(pieces[1..]));
      if |pieces| == 1 {
        assert Flatten(pieces[1..]) == [];
      }
    }
  }

  /** For two pieces that condition is exact, up to sums that read the same in both byte orders. */
  lemma ChainedPairExact(s: nat, a: bytes, b: bytes)
    ensures CksumAdd(CksumAdd(s, a), b) == CksumAdd(s, a + b) <==> |a| % 2 == 0 || SumLE(b) == SumBE(b)
  {
    SumConcat(a, b);
  }

  // ---------- a checksum written into its own field ----------

  /** The bytes of a packet around a sixteen-bit checksum field. */
  function WithField(pre: bytes, sum: u16, post: bytes): bytes {
    pre + BE(sum, 2) + post
  }

  lemma FieldSum(pre: bytes, sum: u16, post: bytes)
    requires |pre| % 2 == 0
    ensures SumBE(WithField(pre, sum, post)) == SumBE(pre) + sum + SumBE(post)
  {
    var f := BE(sum, 2);
    assert pre + f + post == pre + (f + post);
    SumBEConcat(pre, f + post);
    SumBEConcat(f, post);
    FieldValue(sum);
  }

  lemma FieldValue(sum: u16)
    ensures SumBE(BE(sum, 2)) == sum
  {
    var f := BE(sum, 2);
    Widths();
    assert BE(sum / 256, 1) == BE(0, 0) + [(sum / 256 % 256) as byte];
    assert f[2..] == [];
  }

  /** Any value congruent to the computed checksum, and making the whole sum non-zero, verifies. */
  lemma FieldVerifies(pre: bytes, sum: u16, post: bytes)
    requires |pre| % 2 == 0 && |pre| + 2 + |post| <= 0x2_0000
    requires sum == Cksum(WithField(pre, 0, post)) ||
             (sum == 0xffff && Cksum(WithField(pre, 0, post)) == 0)
    ensures Cksum(WithField(pre, sum, post)) == 0
  {
    CksumIsReference(WithField(pre, 0, post));
    CksumIsReference(WithField(pre, sum, post));
    FieldSum(pre, 0, post);
    FieldSum(pre, sum, post);
    var t := SumBE(pre) + SumBE(post);
    FoldIsResidue(t);
    FoldIsResidue(t + sum);
    SumToZero(t, sum);
  }

  lemma SumToZero(t: nat, sum: u16)
    requires sum == 0xffff - Residue(t) || (sum == 0xffff && Residue(t) == 0xffff)
    ensures Residue(t + sum) == 0xffff
  {
    if t > 0 {
      var q := (t - 1) / 0xffff;
      assert t == Residue(t) + 0xffff * q;
      if sum == 0xffff - Residue(t) {
        ResidueShift(0xffff, q);
      } else {
        ResidueShift(0xffff, q + 1);
      }
    }
  }
}
