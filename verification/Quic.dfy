/** QUIC frames (RFC 9000): unpacking, the recomputed frame size, and the frame list of a payload. */
module Quic {
  import opened Bytes
  import opened Varint

  const PADDING: byte := 0
  const PING: byte := 1
  const ACK: byte := 2
  const CRYPTO: byte := 6
  const CONNECTION_CLOSE: byte := 0x1c

  datatype Frame =
    | Basic(basic: byte)
    | Stream(kind: byte, streamId: nat, offset: nat, length: nat, data: bytes)
    | Crypto(cryptoOffset: nat, cryptoLength: nat, cryptoData: bytes)
    | Ack(ackKind: byte, largest: nat, delay: nat, count: nat, first: nat, blocks: seq<(nat, nat)>)
    | MaxData(maxData: nat)
    | MaxStreamData(maxStream: nat, maxStreamData: nat)
    | Close(closeKind: byte, code: nat, frameType: Option<nat>, reason: bytes)

  predicate HasOffset(kind: byte) { kind / 4 % 2 == 1 }

  predicate HasLength(kind: byte) { kind / 2 % 2 == 1 }

  predicate IsStream(kind: byte) { 0x08 <= kind <= 0x0f }

  function Pairs(vs: seq<nat>): (ps: seq<(nat, nat)>)
    requires |vs| % 2 == 0
    ensures |ps| == |vs| / 2
  {
    if |vs| == 0 then [] else [(vs[0], vs[1])] + Pairs(vs[2..])
  }

  function Unpaired(ps: seq<(nat, nat)>): (vs: seq<nat>)
    ensures |vs| == 2 * |ps|
  {
    if |ps| == 0 then [] else [ps[0].0, ps[0].1] + Unpaired(ps[1..])
  }

  /** QUICStreamFrame.unpack: a declared length of zero takes all the rest. */
  function UnpackStream(buf: bytes): Result<Frame>
    requires |buf| > 0
  {
    var kind := buf[0];
    var o := if HasOffset(kind) then 1 else 0;
    var l := if HasLength(kind) then 1 else 0;
    var (vs, off) :- ReadAll(buf, 1, 1 + o + l);
    var length := if l == 1 then vs[1 + o] else 0;
    Ok(Stream(kind, vs[0], if o == 1 then vs[1] else 0, length,
              if length > 0 then Slice(buf, off, off + length) else From(buf, off)))
  }

  /** QUICCryptoFrame.unpack, without the TLS records. */
  function UnpackCrypto(buf: bytes): Result<Frame> {
    var (vs, off) :- ReadAll(buf, 1, 2);
    Ok(Crypto(vs[0], vs[1], Slice(buf, off, off + vs[1])))
  }

  /** QUICAckFrame.unpack. */
  function UnpackAck(buf: bytes): Result<Frame>
    requires |buf| > 0
  {
    var (vs, off) :- ReadAll(buf, 1, 4);
    var (bs, _) :- ReadAll(buf, off, 2 * vs[2]);
    Ok(Ack(buf[0], vs[0], vs[1], vs[2], vs[3], Pairs(bs)))
  }

  /** QUICConnectionCloseFrame.unpack: only the transport form carries a frame type. */
  function UnpackClose(buf: bytes): Result<Frame>
    requires |buf| > 0
  {
    var t := if buf[0] == CONNECTION_CLOSE then 1 else 0;
    var (vs, off) :- ReadAll(buf, 1, 2 + t);
    Ok(Close(buf[0], vs[0], if t == 1 then Some(vs[1]) else None, Slice(buf, off, off + vs[1 + t])))
  }

  /** get_frame_parser and the unpack method it selects. */
  function Unpack(buf: bytes): Result<Frame>
    requires |buf| > 0
  {
    var kind := buf[0];
    if IsStream(kind) then UnpackStream(buf)
    else if kind == ACK || kind == 3 then UnpackAck(buf)
    else if kind == CRYPTO then UnpackCrypto(buf)
    else if kind == CONNECTION_CLOSE || kind == 0x1d then UnpackClose(buf)
    else if kind == 16 then
      var (vs, _) :- ReadAll(buf, 1, 1);
      Ok(MaxData(vs[0]))
    else if kind == 17 then
      var (vs, _) :- ReadAll(buf, 1, 2);
      Ok(MaxStreamData(vs[0], vs[1]))
    else Ok(Basic(kind))
  }

  function VarintSize(v: nat): nat {
    if v < MAX62 then |Encode(v)| else 8
  }

  function BlocksSize(bs: seq<(nat, nat)>): nat {
    if |bs| == 0 then 0 else VarintSize(bs[0].0) + VarintSize(bs[0].1) + BlocksSize(bs[1..])
  }

  /** _frame_byte_size: recomputed from the values, one byte for every frame class it does not know. */
  function ByteSize(f: Frame): (n: nat)
    ensures n > 0
  {
    match f
    case Stream(kind, id, offset, length, data) =>
      1 + VarintSize(id) + (if HasOffset(kind) then VarintSize(offset) else 0)
      + (if HasLength(kind) then VarintSize(length) else 0) + |data|
    case Crypto(offset, length, _) => 1 + VarintSize(offset) + VarintSize(length) + length
    case Ack(_, largest, delay, count, first, blocks) =>
      1 + VarintSize(largest) + VarintSize(delay) + VarintSize(count) + VarintSize(first) + BlocksSize(blocks)
    case _ => 1
  }

  /** parse_frames: padding is skipped, and the first frame that does not parse ends the list. */
  function ParseFrames(buf: bytes): seq<Frame>
    decreases |buf|
  {
    if |buf| == 0 then []
    else if buf[0] == PADDING then ParseFrames(buf[1..])
    else
      match Unpack(buf)
      case Err(_) => []
      case Ok(f) => [f] + ParseFrames(From(buf, ByteSize(f)))
  }

  // ---------- the recomputed size ----------

  predicate Sized(f: Frame) { f.Stream? || f.Crypto? || f.Ack? }

  /** The integers of a frame, in wire order. */
  function Fields(f: Frame): seq<nat> {
    match f
    case Stream(kind, id, offset, length, _) =>
      [id] + (if HasOffset(kind) then [offset] else []) + (if HasLength(kind) then [length] else [])
    case Crypto(offset, length, _) => [offset, length]
    case Ack(_, largest, delay, count, first, blocks) => [largest, delay, count, first] + Unpaired(blocks)
    case _ => []
  }

  function PayloadLen(f: Frame): nat {
    match f
    case Stream(_, _, _, _, data) => |data|
    case Crypto(_, length, _) => length
    case _ => 0
  }

  lemma {:induction false} EncodeAllConcat(a: seq<nat>, b: seq<nat>)
    requires InRange(a) && InRange(b)
    ensures InRange(a + b) && EncodeAll(a + b) == EncodeAll(a) + EncodeAll(b)
    decreases |a|
  {
    hide Encode;
    if |a| == 0 {
      assert a + b == b;
    } else {
      assert (a + b)[1..] == a[1..] + b;
      EncodeAllConcat(a[1..], b);
    }
  }

  lemma EncodeOne(v: nat)
    requires v < MAX62
    ensures EncodeAll([v]) == Encode(v) && |EncodeAll([v])| == VarintSize(v)
  {
    assert [v][1..] == [];
    assert EncodeAll([v][1..]) == [];
  }

  lemma EncodeTwo(v: nat, w: nat)
    requires v < MAX62 && w < MAX62
    ensures |EncodeAll([v, w])| == VarintSize(v) + VarintSize(w)
  {
    hide Encode, VarintSize;
    EncodeOne(v);
    EncodeOne(w);
    EncodeAllConcat([v], [w]);
    assert [v] + [w] == [v, w];
  }

  lemma EncodeFour(a: nat, b: nat, c: nat, d: nat)
    requires a < MAX62 && b < MAX62 && c < MAX62 && d < MAX62
    ensures |EncodeAll([a, b, c, d])| == VarintSize(a) + VarintSize(b) + VarintSize(c) + VarintSize(d)
  {
    hide Encode, VarintSize;
    EncodeTwo(a, b);
    EncodeTwo(c, d);
    EncodeAllConcat([a, b], [c, d]);
    assert [a, b] + [c, d] == [a, b, c, d];
  }

  lemma {:induction false} BlocksEncoded(bs: seq<(nat, nat)>)
    requires InRange(Unpaired(bs))
    ensures |EncodeAll(Unpaired(bs))| == BlocksSize(bs)
    decreases |bs|
  {
    hide Encode, VarintSize;
    if |bs| > 0 {
      var vs, rest := [bs[0].0, bs[0].1], Unpaired(bs[1..]);
      assert Unpaired(bs) == vs + rest;
      assert vs[0] == Unpaired(bs)[0] && vs[1] == Unpaired(bs)[1];
      assert forall i :: 0 <= i < |rest| ==> rest[i] == Unpaired(bs)[i + 2];
      EncodeAllConcat(vs, rest);
      EncodeTwo(vs[0], vs[1]);
      BlocksEncoded(bs[1..]);
    }
  }

  /** The recomputed size is the length of the shortest encoding of the frame's integers plus its payload. */
  lemma SizeIsShortest(f: Frame)
    requires Sized(f) && InRange(Fields(f))
    ensures ByteSize(f) == 1 + |EncodeAll(Fields(f))| + PayloadLen(f)
  {
    hide Encode, VarintSize, EncodeAll, BlocksSize;
    match f
    case Stream(kind, id, offset, length, _) =>
      var o := if HasOffset(kind) then [offset] else [];
      var l := if HasLength(kind) then [length] else [];
      StreamFields(id, o, l, Fields(f));
    case Crypto(offset, length, _) =>
      assert Fields(f)[0] == offset && Fields(f)[1] == length;
      EncodeTwo(offset, length);
    case Ack(_, largest, delay, count, first, blocks) =>
      var head := [largest, delay, count, first];
      var vs := Fields(f);
      assert vs[0] == largest && vs[1] == delay && vs[2] == count && vs[3] == first;
      assert forall i :: 0 <= i < |Unpaired(blocks)| ==> Unpaired(blocks)[i] == vs[i + 4];
      EncodeFour(largest, delay, count, first);
      EncodeAllConcat(head, Unpaired(blocks));
      BlocksEncoded(blocks);
  }

  lemma StreamFields(id: nat, o: seq<nat>, l: seq<nat>, vs: seq<nat>)
    requires |o| <= 1 && |l| <= 1 && vs == [id] + o + l && InRange(vs)
    ensures |EncodeAll(vs)| == VarintSize(id) + (if |o| == 1 then VarintSize(o[0]) else 0)
                               + (if |l| == 1 then VarintSize(l[0]) else 0)
  {
    hide Encode, VarintSize, EncodeAll;
    assert vs[0] == id && (|o| == 1 ==> vs[1] == o[0]) && (|l| == 1 ==> vs[1 + |o|] == l[0]);
    EncodeAllConcat([id] + o, l);
    EncodeAllConcat([id], o);
    EncodeOne(id);
    EncodeOptional(o);
    EncodeOptional(l);
  }

  lemma EncodeOptional(o: seq<nat>)
    requires |o| <= 1 && InRange(o)
    ensures |EncodeAll(o)| == if |o| == 1 then VarintSize(o[0]) else 0
  {
    if |o| == 1 {
      assert o == [o[0]];
      EncodeOne(o[0]);
    }
  }

  /** The bytes a frame really took: up to the end of its integers as they stand in the buffer, and its payload. */
  function Taken(buf: bytes, f: Frame): nat {
    var r := ReadAll(buf, 1, |Fields(f)|);
    if r.Ok? then r.value.1 + PayloadLen(f) else 0
  }

  lemma {:induction false} ReadAllConcat(buf: bytes, off: nat, m: nat, n: nat)
    requires ReadAll(buf, off, m).Ok? && ReadAll(buf, ReadAll(buf, off, m).value.1, n).Ok?
    ensures var (a, mid) := ReadAll(buf, off, m).value;
            var (b, end) := ReadAll(buf, mid, n).value;
            ReadAll(buf, off, m + n) == Ok((a + b, end))
    decreases m
  {
    hide Decode;
    var (a, mid) := ReadAll(buf, off, m).value;
    var (b, end) := ReadAll(buf, mid, n).value;
    if m == 0 {
      assert a + b == b;
    } else {
      var (v, k) := Decode(buf, off).value;
      ReadAllConcat(buf, off + k, m - 1, n);
      assert [v] + (a[1..] + b) == a + b;
    }
  }

  lemma {:induction false} PairsBack(vs: seq<nat>)
    requires |vs| % 2 == 0
    ensures Unpaired(Pairs(vs)) == vs
  {
    if |vs| > 0 {
      PairsBack(vs[2..]);
      assert vs == [vs[0], vs[1]] + vs[2..];
    }
  }

  lemma {:induction false} UnpairedBack(ps: seq<(nat, nat)>)
    ensures Pairs(Unpaired(ps)) == ps
  {
    if |ps| > 0 {
      UnpairedBack(ps[1..]);
      assert Unpaired(ps)[2..] == Unpaired(ps[1..]);
      assert ps == [ps[0]] + ps[1..];
    }
  }

  /** The integers of an unpacked frame are the ones that stand behind its type byte. */
  lemma UnpackedFields(buf: bytes)
    requires |buf| > 0 && Unpack(buf).Ok? && Sized(Unpack(buf).value)
    ensures var f := Unpack(buf).value;
            var r := ReadAll(buf, 1, |Fields(f)|);
            r.Ok? && r.value.0 == Fields(f)
  {
    hide ReadAll;
    var f := Unpack(buf).value;
    match f
    case Stream(kind, _, _, _, _) =>
      var o := if HasOffset(kind) then 1 else 0;
      var l := if HasLength(kind) then 1 else 0;
      assert ReadAll(buf, 1, 1 + o + l).value.0 == Fields(f);
    case Crypto(_, _, _) =>
    case Ack(_, _, _, count, _, _) =>
      var (vs, off) := ReadAll(buf, 1, 4).value;
      ReadAllConcat(buf, 1, 4, 2 * count);
      PairsBack(ReadAll(buf, off, 2 * count).value.0);
      assert vs == [vs[0], vs[1], vs[2], vs[3]];
    case _ =>
  }

  /**
   The recomputed size of a STREAM, CRYPTO or ACK frame agrees with the bytes it really took if and only if each
   of its integers was encoded in the shortest form; otherwise it is too small.
   */
  lemma FrameSizeExact(buf: bytes, f: Frame)
    requires |buf| > 0 && Unpack(buf) == Ok(f) && Sized(f)
    ensures ByteSize(f) <= Taken(buf, f)
    ensures ByteSize(f) == Taken(buf, f) <==> AllShortest(buf, 1, |Fields(f)|)
  {
    hide Unpack, Fields, AllShortest, ByteSize, EncodeAll;
    UnpackedFields(buf);
    SizeIsShortest(f);
    SizeExact(buf, 1, |Fields(f)|);
  }

  // ---------- frame lists ----------

  function Payload(f: Frame): bytes {
    match f
    case Stream(_, _, _, _, data) => data
    case Crypto(_, _, data) => data
    case _ => []
  }

  function KindOf(f: Frame): byte {
    match f
    case Basic(k) => k
    case Stream(k, _, _, _, _) => k
    case Crypto(_, _, _) => CRYPTO
    case Ack(k, _, _, _, _, _) => k
    case MaxData(_) => 16
    case MaxStreamData(_, _) => 17
    case Close(k, _, _, _) => k
  }

  /** PING, CRYPTO, ACK, and STREAM with a length and some data. */
  ghost predicate Listed(f: Frame) {
    && InRange(Fields(f))
    && match f
       case Basic(k) => k == PING
       case Stream(k, _, offset, length, data) =>
         IsStream(k) && HasLength(k) && length == |data| > 0 && (!HasOffset(k) ==> offset == 0)
       case Crypto(_, length, data) => length == |data|
       case Ack(k, _, _, count, _, blocks) => k == ACK && count == |blocks|
       case _ => false
  }

  /** The wire form with shortest integers. */
  function Wire(f: Frame): bytes
    requires forall i :: 0 <= i < |Fields(f)| ==> Fields(f)[i] < MAX62
  {
    [KindOf(f)] + EncodeAll(Fields(f)) + Payload(f)
  }

  lemma FieldsRead(f: Frame, rest: bytes)
    requires InRange(Fields(f))
    ensures ReadAll(Wire(f) + rest, 1, |Fields(f)|) == Ok((Fields(f), 1 + |EncodeAll(Fields(f))|))
    ensures (Wire(f) + rest)[0] == KindOf(f) && |Wire(f)| == 1 + |EncodeAll(Fields(f))| + |Payload(f)|
  {
    hide Fields, Payload, KindOf, ReadAll, EncodeAll;
    ReadEncoded([KindOf(f)], Fields(f), Payload(f) + rest);
    assert Wire(f) + rest == [KindOf(f)] + EncodeAll(Fields(f)) + (Payload(f) + rest);
  }

  lemma PayloadRead(f: Frame, rest: bytes)
    requires InRange(Fields(f))
    ensures var off := 1 + |EncodeAll(Fields(f))|;
            Slice(Wire(f) + rest, off, off + |Payload(f)|) == Payload(f)
  {
    hide Fields, Payload, KindOf, EncodeAll;
    var off := 1 + |EncodeAll(Fields(f))|;
    assert (Wire(f) + rest)[off..off + |Payload(f)|] == Payload(f);
  }

  lemma StreamRead(f: Frame, rest: bytes)
    requires Listed(f) && f.Stream?
    ensures UnpackStream(Wire(f) + rest) == Ok(f)
  {
    hide EncodeAll, ReadAll, Wire, Slice;
    FieldsRead(f, rest);
    PayloadRead(f, rest);
  }

  lemma CryptoRead(f: Frame, rest: bytes)
    requires Listed(f) && f.Crypto?
    ensures UnpackCrypto(Wire(f) + rest) == Ok(f)
  {
    hide EncodeAll, ReadAll, Wire, Slice;
    FieldsRead(f, rest);
    PayloadRead(f, rest);
  }

  lemma AckRead(f: Frame, rest: bytes)
    requires Listed(f) && f.Ack?
    ensures UnpackAck(Wire(f) + rest) == Ok(f)
  {
    hide Wire;
    var head, tail := [f.largest, f.delay, f.count, f.first], Unpaired(f.blocks);
    var buf := Wire(f) + rest;
    AckHead(f, rest);
    UnpairedBack(f.blocks);
  }

  lemma AckHead(f: Frame, rest: bytes)
    requires Listed(f) && f.Ack?
    ensures |Wire(f)| > 0 && (Wire(f) + rest)[0] == ACK
    ensures var head := [f.largest, f.delay, f.count, f.first];
            var r := ReadAll(Wire(f) + rest, 1, 4);
            && r.Ok? && r.value.0 == head
            && var s := ReadAll(Wire(f) + rest, r.value.1, 2 * f.count); s.Ok? && s.value.0 == Unpaired(f.blocks)
  {
    hide EncodeAll, ReadAll;
    var head, tail := [f.largest, f.delay, f.count, f.first], Unpaired(f.blocks);
    var vs := Fields(f);
    assert vs[0] == head[0] && vs[1] == head[1] && vs[2] == head[2] && vs[3] == head[3];
    assert forall i :: 0 <= i < |tail| ==> tail[i] == vs[i + 4];
    EncodeAllConcat(head, tail);
    var h, t := EncodeAll(head), EncodeAll(tail);
    assert Wire(f) + rest == [ACK] + h + (t + rest);
    assert Wire(f) + rest == ([ACK] + h) + t + rest;
    ReadEncoded([ACK], head, t + rest);
    ReadEncoded([ACK] + h, tail, rest);
  }

  /** Each listed frame is recovered from its wire form, and its recomputed size is its wire length. */
  lemma FrameRead(f: Frame, rest: bytes)
    requires Listed(f)
    ensures |Wire(f)| > 0 && Wire(f)[0] != PADDING
    ensures Unpack(Wire(f) + rest) == Ok(f) && ByteSize(f) == |Wire(f)|
  {
    hide EncodeAll, ReadAll, UnpackStream, UnpackCrypto, UnpackAck;
    FieldsRead(f, rest);
    match f
    case Basic(_) => assert EncodeAll(Fields(f)) == [] by { EncodeNone(); }
    case Stream(_, _, _, _, _) =>
      SizeIsShortest(f);
      StreamRead(f, rest);
    case Crypto(_, _, _) =>
      SizeIsShortest(f);
      CryptoRead(f, rest);
    case Ack(_, _, _, _, _, _) =>
      SizeIsShortest(f);
      AckRead(f, rest);
  }

  lemma EncodeNone()
    ensures EncodeAll([]) == []
  {
  }

  datatype Item = Pad | Carried(frame: Frame)

  ghost predicate AllListed(items: seq<Item>) {
    forall i :: 0 <= i < |items| ==> items[i].Carried? ==> Listed(items[i].frame)
  }

  ghost function Emit(items: seq<Item>): bytes
    requires AllListed(items)
  {
    if |items| == 0 then []
    else (if items[0].Pad? then [PADDING] else Wire(items[0].frame)) + Emit(items[1..])
  }

  function FramesOf(items: seq<Item>): seq<Frame> {
    if |items| == 0 then []
    else (if items[0].Pad? then [] else [items[0].frame]) + FramesOf(items[1..])
  }

  /** Any mixture of listed frames and padding bytes parses to exactly its frames. */
  lemma {:induction false} ParseEmitted(items: seq<Item>)
    requires AllListed(items)
    ensures ParseFrames(Emit(items)) == FramesOf(items)
    decreases |items|
  {
    hide Unpack, Wire, ByteSize, Fields;
    if |items| > 0 {
      var rest := Emit(items[1..]);
      var buf := Emit(items);
      ParseEmitted(items[1..]);
      if items[0].Pad? {
        assert buf[1..] == rest;
      } else {
        var f := items[0].frame;
        FrameRead(f, rest);
        assert buf[|Wire(f)|..] == rest;
        assert buf[0] == Wire(f)[0];
      }
    }
  }

  /**
   Behind a STREAM, CRYPTO or ACK frame the list goes on at the recomputed size, which is where the frame ends if and
   only if its integers were all encoded in the shortest form.
   */
  lemma ListGoesOn(buf: bytes, f: Frame)
    requires |buf| > 0 && Unpack(buf) == Ok(f) && Sized(f)
    ensures ParseFrames(buf) == [f] + ParseFrames(From(buf, ByteSize(f)))
    ensures ByteSize(f) == Taken(buf, f) <==> AllShortest(buf, 1, |Fields(f)|)
  {
    FrameSizeExact(buf, f);
    PaddingIsBasic(buf);
    hide Unpack, ByteSize, Fields, Taken, AllShortest;
  }

  lemma PaddingIsBasic(buf: bytes)
    requires |buf| > 0
    ensures buf[0] == PADDING ==> Unpack(buf) == Ok(Basic(PADDING))
  {
  }

  const LONG_OFFSET: bytes := [6, 0x40, 0, 1, 0xaa, 1]

  /**
   A CRYPTO frame whose offset zero takes two bytes, and a PING. The frame is sized one byte short, so its one byte
   of data is read again as a frame of unknown type.
   */
  lemma OutOfStep()
    ensures Unpack(LONG_OFFSET) == Ok(Crypto(0, 1, [0xaa])) && Taken(LONG_OFFSET, Crypto(0, 1, [0xaa])) == 5
    ensures ParseFrames(LONG_OFFSET) == [Crypto(0, 1, [0xaa]), Basic(0xaa), Basic(PING)]
    ensures ParseFrames(LONG_OFFSET[5..]) == [Basic(PING)]
  {
    var buf := LONG_OFFSET;
    var f := Crypto(0, 1, [0xaa]);
    LongOffsetRead(buf);
    var two, one: bytes := [0xaa, 1], [1];
    assert From(buf, 4) == two && From(two, 1) == one && buf[5..] == one && From(one, 1) == [];
    hide UnpackStream, UnpackAck, UnpackClose, UnpackCrypto, ReadAll;
    assert ParseFrames([]) == [];
    assert ParseFrames(one) == [Basic(PING)] + ParseFrames([]);
    assert ParseFrames(two) == [Basic(0xaa)] + ParseFrames(one);
    ListGoesOn(buf, f);
    SmallSizes();
  }

  lemma SmallSizes()
    ensures ByteSize(Crypto(0, 1, [0xaa])) == 4
  {
  }

  lemma LongOffsetRead(buf: bytes)
    requires buf == LONG_OFFSET
    ensures ReadAll(buf, 1, 2) == Ok(([0, 1], 4)) && Slice(buf, 4, 5) == [0xaa]
    ensures Unpack(buf) == Ok(Crypto(0, 1, [0xaa]))
  {
    var word: bytes := [0x40, 0];
    assert buf[1..3] == word && UnBE(word[..1]) == 0x40 && UnBE(word) == 0x4000;
    assert Decode(buf, 1) == Ok((0, 2)) && Decode(buf, 3) == Ok((1, 1));
    assert ReadAll(buf, 4, 0) == Ok(([], 4));
    var none, ones: seq<nat> := [], [1];
    assert ones + none == ones && [0] + ones == [0, 1];
    assert ReadAll(buf, 3, 1) == Ok((ones, 4));
  }

  /** A STREAM frame of declared length zero is recovered only when nothing follows it. */
  lemma EmptyStreamExact(f: Frame, rest: bytes)
    requires f.Stream? && InRange(Fields(f)) && IsStream(f.kind) && HasLength(f.kind)
    requires f.length == 0 && f.data == [] && (!HasOffset(f.kind) ==> f.offset == 0)
    ensures Unpack(Wire(f) + rest) == Ok(f.(data := rest))
    ensures Unpack(Wire(f) + rest) == Ok(f) <==> rest == []
  {
    hide EncodeAll, ReadAll, Wire;
    FieldsRead(f, rest);
    assert From(Wire(f) + rest, |Wire(f)|) == rest;
  }

  // ---------- the program's own loops ----------

  lemma ParseStep(frames: seq<Frame>, buf: bytes, off: nat)
    requires off < |buf|
    ensures var all := frames + ParseFrames(buf[off..]);
            if buf[off] == PADDING then all == frames + ParseFrames(buf[off + 1..])
            else
              match Unpack(buf[off..])
              case Err(_) => all == frames
              case Ok(f) => all == frames + [f] + ParseFrames(From(buf, off + ByteSize(f)))
  {
    hide Unpack, ByteSize, From;
    if buf[off] == PADDING {
      assert buf[off..][1..] == buf[off + 1..];
    } else if Unpack(buf[off..]).Ok? {
      var f := Unpack(buf[off..]).value;
      FromFrom(buf, off, ByteSize(f));
      var rest := ParseFrames(From(buf, off + ByteSize(f)));
      assert frames + ([f] + rest) == frames + [f] + rest;
    } else {
      assert frames + [] == frames;
    }
  }

  lemma FromFrom(buf: bytes, off: nat, n: nat)
    requires off <= |buf|
    ensures From(buf[off..], n) == From(buf, off + n)
  {
  }

  lemma NothingToParse(buf: bytes)
    ensures ParseFrames(From(buf, |buf|)) == []
  {
  }

  method ParseFrameList(buf: bytes) returns (frames: seq<Frame>)
    ensures frames == ParseFrames(buf)
  {
    hide Unpack, ByteSize, ParseFrames;
    frames := [];
    var off := 0;
    assert From(buf, 0) == buf;
    while off < |buf|
      invariant ParseFrames(buf) == frames + ParseFrames(From(buf, off))
      decreases |buf| - off
    {
      ParseStep(frames, buf, off);
      assert From(buf, off) == buf[off..];
      if buf[off] == PADDING {
        assert From(buf, off + 1) == buf[off + 1..];
        off := off + 1;
        continue;
      }
      var f := Unpack(buf[off..]);
      if f.Err? {
        return frames;
      }
      frames := frames + [f.value];
      off := off + ByteSize(f.value);
    }
    NothingToParse(buf);
    assert From(buf, off) == From(buf, |buf|);
  }

  /** The block loop of QUICAckFrame.unpack. */
  method ReadBlocks(buf: bytes, start: nat, count: nat) returns (r: Result<seq<(nat, nat)>>)
    ensures var s := ReadAll(buf, start, 2 * count);
            r == if s.Ok? then Ok(Pairs(s.value.0)) else Err(s.error)
  {
    hide Decode, ReadAll, Pairs;
    var off := start;
    var blocks: seq<(nat, nat)> := [];
    var i := 0;
    assert forall ps: seq<(nat, nat)> :: blocks + ps == ps;
    while i < count
      invariant 0 <= i <= count
      invariant var s, t := ReadAll(buf, start, 2 * count), ReadAll(buf, off, 2 * (count - i));
                && (s.Ok? <==> t.Ok?) && (s.Err? ==> s.error == t.error)
                && (s.Ok? ==> Pairs(s.value.0) == blocks + Pairs(t.value.0))
    {
      BlockStep(buf, off, count - i);
      var first :- Decode(buf, off);
      var (gap, n) := first;
      var second :- Decode(buf, off + n);
      var (len, m) := second;
      ghost var rest := ReadAll(buf, off + n + m, 2 * (count - i - 1));
      if rest.Ok? { Regrouped(blocks, (gap, len), Pairs(rest.value.0)); }
      blocks := blocks + [(gap, len)];
      off := off + n + m;
      i := i + 1;
    }
    NoBlocks(buf, off, blocks);
    return Ok(blocks);
  }

  lemma NoBlocks(buf: bytes, off: nat, blocks: seq<(nat, nat)>)
    ensures ReadAll(buf, off, 0) == Ok(([], off)) && blocks + Pairs([]) == blocks
  {
  }

  lemma Regrouped(a: seq<(nat, nat)>, x: (nat, nat), b: seq<(nat, nat)>)
    ensures a + ([x] + b) == a + [x] + b
  {
  }

  lemma BlockStep(buf: bytes, off: nat, count: nat)
    requires count > 0
    ensures var s := ReadAll(buf, off, 2 * count);
            var a := Decode(buf, off);
            if a.Err? then s == Err(a.error)
            else
              var b := Decode(buf, off + a.value.1);
              if b.Err? then s == Err(b.error)
              else
                var t := ReadAll(buf, off + a.value.1 + b.value.1, 2 * (count - 1));
                if t.Err? then s == Err(t.error)
                else s.Ok? && Pairs(s.value.0) == [(a.value.0, b.value.0)] + Pairs(t.value.0)
  {
    hide Decode;
    var a := Decode(buf, off);
    if a.Ok? {
      var mid := ReadAll(buf, off + a.value.1, 2 * count - 1);
      var b := Decode(buf, off + a.value.1);
      if b.Ok? {
        var t := ReadAll(buf, off + a.value.1 + b.value.1, 2 * count - 2);
        assert mid == if t.Ok? then Ok(([b.value.0] + t.value.0, t.value.1)) else Err(t.error);
        if t.Ok? {
          assert ([a.value.0] + ([b.value.0] + t.value.0))[2..] == t.value.0;
        }
      }
    }
  }

  /** _frame_byte_size, with its loop over the ACK blocks. */
  method FrameByteSize(f: Frame) returns (sz: nat)
    ensures sz == ByteSize(f)
  {
    hide VarintSize;
    if !f.Ack? {
      return ByteSize(f);
    }
    sz := 1 + VarintSize(f.largest) + VarintSize(f.delay) + VarintSize(f.count) + VarintSize(f.first);
    var i := 0;
    assert f.blocks[0..] == f.blocks;
    while i < |f.blocks|
      invariant 0 <= i <= |f.blocks| && sz + BlocksSize(f.blocks[i..]) == ByteSize(f)
    {
      assert f.blocks[i..][1..] == f.blocks[i + 1..];
      sz := sz + VarintSize(f.blocks[i].0) + VarintSize(f.blocks[i].1);
      i := i + 1;
    }
  }
}
