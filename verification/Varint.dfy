/** QUIC variable-length integers (section 16 of RFC 9000). */
module Varint {
  import opened Bytes

  const MAX6 := 0x40
  const MAX14 := 0x4000
  const MAX30 := 0x4000_0000
  const MAX62 := 0x4000_0000_0000_0000

  /** decode_varint: the value and the number of bytes it took. */
  function Decode(buf: bytes, off: nat): (r: Result<(nat, nat)>)
    ensures r.Ok? ==> r.value.0 < MAX62 && 0 < r.value.1 && off + r.value.1 <= |buf|
  {
    if off >= |buf| then Err(NeedData)
    else
      var b := buf[off] as int;
      if b / 64 == 0 then Ok((b % MAX6, 1))
      else if b / 64 == 1 then
        if off + 2 > |buf| then Err(NeedData) else Ok((UnBE(buf[off..off + 2]) % MAX14, 2))
      else if b / 64 == 2 then
        if off + 4 > |buf| then Err(NeedData) else Ok((UnBE(buf[off..off + 4]) % MAX30, 4))
      else
        if off + 8 > |buf| then Err(NeedData) else Ok((UnBE(buf[off..off + 8]) % MAX62, 8))
  }

  /** encode_varint: or-ing the two tag bits in keeps the low 6, 14, 30 or 62 bits of the value. */
  function Encode(v: nat): (e: bytes)
    requires v < 0x1_0000_0000_0000_0000
    ensures |e| == if v < MAX6 then 1 else if v < MAX14 then 2 else if v < MAX30 then 4 else 8
  {
    if v <= 63 then [v as byte]
    else if v <= 16383 then BE(v + MAX14, 2)
    else if v <= 1073741823 then BE(v + 2 * MAX30, 4)
    else BE(v % MAX62 + 3 * MAX62, 8)
  }

  /** The first byte of a wide encoding carries the tag, whichever of the three widths it has. */
  lemma TagByte(w: nat, width: nat, tag: nat)
    requires (width == 2 && tag == 1 && MAX14 <= w < 2 * MAX14) ||
             (width == 4 && tag == 2 && 2 * MAX30 <= w < 3 * MAX30) ||
             (width == 8 && tag == 3 && 3 * MAX62 <= w < 4 * MAX62)
    ensures BE(w, width)[0] as int / 64 == tag && UnBE(BE(w, width)) == w
  {
    hide BE, UnBE;
    Widths();
    WidthStep(7);
    BELead(w, width);
    BERoundTrip(w, width);
  }

  lemma WidthStep(k: nat)
    ensures Pow256(k + 1) == 256 * Pow256(k)
  {
  }

  lemma DecodeWide(w: nat, width: nat, tag: nat, e: bytes, pre: bytes, rest: bytes)
    requires (width == 2 && tag == 1 && MAX14 <= w < 2 * MAX14) ||
             (width == 4 && tag == 2 && 2 * MAX30 <= w < 3 * MAX30) ||
             (width == 8 && tag == 3 && 3 * MAX62 <= w < 4 * MAX62)
    requires e == BE(w, width)
    ensures Decode(pre + e + rest, |pre|) ==
            Ok((w % (if tag == 1 then MAX14 else if tag == 2 then MAX30 else MAX62), width))
  {
    hide BE, UnBE;
    TagByte(w, width, tag);
    var buf := pre + e + rest;
    assert buf[|pre|] == e[0];
    assert buf[|pre|..|pre| + width] == e;
  }

  /** Encoding and decoding in any surroundings gives the low 62 bits and the exact length. */
  lemma DecodeEncode(v: nat, pre: bytes, rest: bytes)
    requires v < 0x1_0000_0000_0000_0000
    ensures Decode(pre + Encode(v) + rest, |pre|) == Ok((v % MAX62, |Encode(v)|))
  {
    hide Decode, BE, UnBE;
    var e := Encode(v);
    if v <= 63 {
      DecodeNarrow(v, pre, rest);
    } else if v <= 16383 {
      DecodeWide(v + MAX14, 2, 1, e, pre, rest);
    } else if v <= 1073741823 {
      DecodeWide(v + 2 * MAX30, 4, 2, e, pre, rest);
    } else {
      DecodeWide(v % MAX62 + 3 * MAX62, 8, 3, e, pre, rest);
    }
  }

  lemma DecodeNarrow(v: nat, pre: bytes, rest: bytes)
    requires v < MAX6
    ensures Decode(pre + [v as byte] + rest, |pre|) == Ok((v, 1))
  {
    assert (pre + [v as byte] + rest)[|pre|] == v as byte;
  }

  /** Exactly the values below 2^62 survive. */
  lemma RoundTripExact(v: nat, rest: bytes)
    requires v < 0x1_0000_0000_0000_0000
    ensures Decode(Encode(v) + rest, 0) == Ok((v, |Encode(v)|)) <==> v < MAX62
  {
    hide Decode, Encode;
    DecodeEncode(v, [], rest);
    assert [] + Encode(v) + rest == Encode(v) + rest;
  }

  /** No encoding of a value is shorter than the one produced. */
  lemma EncodeShortest(buf: bytes, off: nat)
    requires Decode(buf, off).Ok?
    ensures var (v, n) := Decode(buf, off).value; |Encode(v)| <= n
  {
  }

  // ---------- consecutive integers ----------

  /** Decodes `count` integers one after the other: the values and the offset behind the last. */
  function ReadAll(buf: bytes, off: nat, count: nat): (r: Result<(seq<nat>, nat)>)
    ensures r.Ok? ==> |r.value.0| == count && off + count <= r.value.1 <= Max(off, |buf|)
    ensures r.Ok? ==> forall i :: 0 <= i < count ==> r.value.0[i] < MAX62
    decreases count
  {
    if count == 0 then Ok(([], off))
    else
      var (v, n) :- Decode(buf, off);
      var (vs, end) :- ReadAll(buf, off + n, count - 1);
      Ok(([v] + vs, end))
  }

  function Max(a: nat, b: nat): nat { if a < b then b else a }

  ghost predicate InRange(vs: seq<nat>) {
    forall i :: 0 <= i < |vs| ==> vs[i] < MAX62
  }

  function EncodeAll(vs: seq<nat>): bytes
    requires forall i :: 0 <= i < |vs| ==> vs[i] < MAX62
  {
    if |vs| == 0 then [] else Encode(vs[0]) + EncodeAll(vs[1..])
  }

  /** A list of integers is read back from its shortest encodings, and reading ends exactly behind them. */
  lemma {:induction false} ReadEncoded(pre: bytes, vs: seq<nat>, rest: bytes)
    requires InRange(vs)
    ensures ReadAll(pre + EncodeAll(vs) + rest, |pre|, |vs|) == Ok((vs, |pre| + |EncodeAll(vs)|))
    decreases |vs|
  {
    hide Encode, Decode;
    if |vs| > 0 {
      var e, tail := Encode(vs[0]), EncodeAll(vs[1..]);
      assert pre + (e + tail) + rest == pre + e + (tail + rest) == (pre + e) + tail + rest;
      DecodeEncode(vs[0], pre, tail + rest);
      ReadEncoded(pre + e, vs[1..], rest);
      assert [vs[0]] + vs[1..] == vs;
    }
  }

  /** Every integer read uses as few bytes as its value allows. */
  predicate AllShortest(buf: bytes, off: nat, count: nat)
    decreases count
  {
    count == 0 ||
    (Decode(buf, off).Ok? &&
     var (v, n) := Decode(buf, off).value;
     n == |Encode(v)| && AllShortest(buf, off + n, count - 1))
  }

  /** Recomputing the size from the values gives the bytes read if and only if every encoding was shortest. */
  lemma {:induction false} SizeExact(buf: bytes, off: nat, count: nat)
    requires ReadAll(buf, off, count).Ok?
    ensures var (vs, end) := ReadAll(buf, off, count).value;
            && off + |EncodeAll(vs)| <= end
            && (off + |EncodeAll(vs)| == end <==> AllShortest(buf, off, count))
    decreases count
  {
    hide Encode, Decode;
    if count > 0 {
      EncodeShortest(buf, off);
      var n := Decode(buf, off).value.1;
      SizeExact(buf, off + n, count - 1);
      var vs := ReadAll(buf, off, count).value.0;
      assert vs[1..] == ReadAll(buf, off + n, count - 1).value.0;
    }
  }
}
