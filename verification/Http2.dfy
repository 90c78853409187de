/** HTTP/2 framing (section 4.1 of RFC 7540): one frame, and as many frames as a buffer holds. */
module Http2 {
  import opened Bytes

  const HEADER_LEN := 9

  const PREFACE: bytes := [
    0x50, 0x52, 0x49, 0x20, 0x2a, 0x20, 0x48, 0x54, 0x54, 0x50, 0x2f, 0x32,
    0x2e, 0x30, 0x0d, 0x0a, 0x0d, 0x0a, 0x53, 0x4d, 0x0d, 0x0a, 0x0d, 0x0a
  ]

  datatype Priority = Priority(exclusive: bool, streamDep: nat, weight: nat)

  /** The fields that the unpack method of each frame class sets. */
  datatype Detail =
    | Data(unpadded: bytes)
    | Headers(unpaddedHeaders: bytes, priority: Option<Priority>, fragment: bytes)
    | PriorityOnly(only: Priority)
    | RstStream(errorCode: nat)
    | Settings(settings: seq<(nat, nat)>)
    | PushPromise(promised: nat, promisedFragment: bytes)
    | Ping
    | GoAway(lastStream: nat, goAwayCode: nat, debugData: bytes)
    | WindowUpdate(increment: nat)
    | Continuation(continued: bytes)

  datatype Frame = Frame(lengthBytes: bytes, kind: byte, flags: byte, streamId: u32, data: bytes, detail: Detail)

  predicate Padded(flags: byte) { flags / 8 % 2 == 1 }

  predicate Prioritized(flags: byte) { flags / 32 % 2 == 1 }

  /** PaddedFrame.unpack; data[1:-0] is empty, so a pad length of zero leaves nothing. */
  function Unpad(flags: byte, data: bytes): Result<bytes> {
    if !Padded(flags) then Ok(data)
    else if |data| == 0 then Err(ProtocolError)
    else
      var pad := data[0] as int;
      if |data| <= pad then Err(ProtocolError)
      else if pad == 0 then Ok([])
      else Ok(data[1..|data| - pad])
  }

  /** Priority.unpack: five bytes exactly; fewer count as missing data. */
  function ParsePriority(data: bytes): Result<Priority> {
    if |data| < 5 then Err(NeedData)
    else if |data| > 5 then Err(ProtocolError)
    else
      var dep := UnBE(data[..4]);
      Ok(Priority(dep / 0x8000_0000 % 2 == 1, dep % 0x8000_0000, data[4] as int + 1))
  }

  function ParseSettings(data: bytes): seq<(nat, nat)>
    decreases |data|
  {
    if |data| < 6 then [] else [(UnBE(data[..2]), UnBE(data[2..6]))] + ParseSettings(data[6..])
  }

  /** What the class registered for a frame type does with a complete payload. */
  function ParseDetail(kind: byte, flags: byte, data: bytes): Result<Detail> {
    if kind == 0 then
      var d :- Unpad(flags, data);
      Ok(Data(d))
    else if kind == 1 then
      var d :- Unpad(flags, data);
      if !Prioritized(flags) then Ok(Headers(d, None, d))
      else if |d| < 5 then Err(ProtocolError)
      else
        var p :- ParsePriority(d[..5]);
        Ok(Headers(d, Some(p), d[5..]))
    else if kind == 2 then
      var p :- ParsePriority(data);
      Ok(PriorityOnly(p))
    else if kind == 3 then
      if |data| != 4 then Err(ProtocolError) else Ok(RstStream(UnBE(data)))
    else if kind == 4 then
      if |data| % 6 != 0 then Err(ProtocolError) else Ok(Settings(ParseSettings(data)))
    else if kind == 5 then
      var d :- Unpad(flags, data);
      if |d| < 4 then Err(ProtocolError) else Ok(PushPromise(UnBE(Slice(data, 0, 4)), d[4..]))
    else if kind == 6 then
      if |data| != 8 then Err(ProtocolError) else Ok(Ping)
    else if kind == 7 then
      if |data| < 8 then Err(ProtocolError) else Ok(GoAway(UnBE(data[..4]), UnBE(data[4..8]), data[8..]))
    else if kind == 8 then
      if |data| != 4 then Err(ProtocolError) else Ok(WindowUpdate(UnBE(data)))
    else if kind == 9 then Ok(Continuation(data))
    else Err(ProtocolError)
  }

  function StreamId(b: bytes): u32
    requires |b| == 4
  {
    UnBERoundTrip(b); Widths();
    UnBE(b)
  }

  /** FrameFactory: the type is checked as soon as four bytes are there. */
  function ParseFrame(buf: bytes): (r: Result<Frame>)
    ensures r.Ok? ==> HEADER_LEN + |r.value.data| <= |buf|
  {
    if |buf| < 4 then Err(NeedData)
    else if buf[3] > 9 then Err(ProtocolError)
    else if |buf| < HEADER_LEN then Err(NeedData)
    else
      var length := UnBE(buf[..3]);
      if |buf| < HEADER_LEN + length then Err(NeedData)
      else
        var data := buf[HEADER_LEN..HEADER_LEN + length];
        var detail :- ParseDetail(buf[3], buf[4], data);
        Ok(Frame(buf[..3], buf[3], buf[4], StreamId(buf[5..9]), data, detail))
  }

  function FrameLen(f: Frame): nat {
    HEADER_LEN + |f.data|
  }

  /** Packet.__bytes__ for a frame. */
  function FrameBytes(f: Frame): bytes {
    f.lengthBytes + [f.kind, f.flags] + BE(f.streamId, 4) + f.data
  }

  function Emit(frames: seq<Frame>): bytes {
    if |frames| == 0 then [] else FrameBytes(frames[0]) + Emit(frames[1..])
  }

  function TotalLen(frames: seq<Frame>): nat {
    if |frames| == 0 then 0 else FrameLen(frames[0]) + TotalLen(frames[1..])
  }

  type Parsed = (seq<Frame>, nat)

  function Prepend(done: seq<Frame>, i: nat, r: Result<Parsed>): Result<Parsed> {
    if r.Ok? then Ok((done + r.value.0, i + r.value.1)) else r
  }

  /** The loop of frame_multi_factory from the front of a buffer: missing data ends it, any other error is raised. */
  function ParseMany(buf: bytes): (r: Result<Parsed>)
    decreases |buf|
  {
    if |buf| == 0 then Ok(([], 0))
    else
      match ParseFrame(buf)
      case Err(e) => if e == NeedData then Ok(([], 0)) else Err(e)
      case Ok(f) => Prepend([f], FrameLen(f), ParseMany(buf[FrameLen(f)..]))
  }

  /** frame_multi_factory. */
  function MultiFactory(buf: bytes, preface: bool): Result<Parsed> {
    if !preface then ParseMany(buf)
    else if |buf| < |PREFACE| then Ok(([], 0))
    else if buf[..|PREFACE|] != PREFACE then Err(ProtocolError)
    else Prepend([], |PREFACE|, ParseMany(buf[|PREFACE|..]))
  }

  // ---------- re-serialization ----------

  lemma FrameBytesBack(buf: bytes)
    requires ParseFrame(buf).Ok?
    ensures var f := ParseFrame(buf).value; FrameBytes(f) == buf[..FrameLen(f)]
  {
    hide ParseDetail;
    UnBERoundTrip(buf[5..9]);
    var f := ParseFrame(buf).value;
    assert buf[..FrameLen(f)] == buf[..3] + [buf[3], buf[4]] + buf[5..9] + buf[9..FrameLen(f)];
  }

  /** The frames returned are exactly the bytes consumed. */
  lemma {:induction false} ManySerializes(buf: bytes)
    requires ParseMany(buf).Ok?
    ensures var (frames, i) := ParseMany(buf).value;
            i <= |buf| && Emit(frames) == buf[..i] && i == TotalLen(frames)
    decreases |buf|
  {
    hide ParseFrame, FrameBytes, FrameLen;
    if |buf| > 0 && ParseFrame(buf).Ok? {
      var f := ParseFrame(buf).value;
      FrameFits(buf);
      FrameBytesBack(buf);
      var rest := buf[FrameLen(f)..];
      ManySerializes(rest);
      var (frames, i) := ParseMany(rest).value;
      assert ([f] + frames)[1..] == frames;
      assert buf[..FrameLen(f) + i] == buf[..FrameLen(f)] + rest[..i];
    }
  }

  lemma FrameFits(buf: bytes)
    requires ParseFrame(buf).Ok?
    ensures 0 < FrameLen(ParseFrame(buf).value) <= |buf|
  {
  }

  lemma MultiSerializes(buf: bytes, preface: bool)
    requires MultiFactory(buf, preface).Ok?
    ensures var (frames, i) := MultiFactory(buf, preface).value;
            && i <= |buf|
            && (preface && i > 0 ==> buf[..i] == PREFACE + Emit(frames) && i == |PREFACE| + TotalLen(frames))
            && (!preface ==> buf[..i] == Emit(frames) && i == TotalLen(frames))
  {
    hide ParseMany;
    if !preface {
      ManySerializes(buf);
    } else if |buf| >= |PREFACE| {
      var rest := buf[|PREFACE|..];
      ManySerializes(rest);
      var (frames, j) := ParseMany(rest).value;
      assert [] + frames == frames;
      assert buf[..|PREFACE| + j] == buf[..|PREFACE|] + rest[..j];
    }
  }

  // ---------- composition ----------

  /** A verdict other than missing data never changes when more bytes arrive. */
  lemma FrameExtend(buf: bytes, more: bytes)
    requires ParseFrame(buf) != Err(NeedData)
    ensures ParseFrame(buf + more) == ParseFrame(buf)
  {
    hide ParseDetail;
    var b := buf + more;
    if |buf| >= HEADER_LEN {
      assert b[..3] == buf[..3] && b[5..9] == buf[5..9];
      var length := UnBE(buf[..3]);
      if |buf| >= HEADER_LEN + length {
        assert b[HEADER_LEN..HEADER_LEN + length] == buf[HEADER_LEN..HEADER_LEN + length];
      }
    }
  }

  lemma PrependAssoc(a: seq<Frame>, i: nat, b: seq<Frame>, j: nat, r: Result<Parsed>)
    ensures Prepend(a, i, Prepend(b, j, r)) == Prepend(a + b, i + j, r)
  {
    if r.Ok? {
      assert a + (b + r.value.0) == a + b + r.value.0;
    }
  }

  lemma PrependNothing(r: Result<Parsed>)
    ensures Prepend([], 0, r) == r
  {
    if r.Ok? {
      assert [] + r.value.0 == r.value.0;
    }
  }

  /** Parsing with more bytes gives the frames already found, followed by the parse of what was left over. */
  lemma {:induction false} ManyComposes(buf: bytes, more: bytes)
    requires ParseMany(buf).Ok?
    ensures var (frames, i) := ParseMany(buf).value;
            i <= |buf| && ParseMany(buf + more) == Prepend(frames, i, ParseMany(buf[i..] + more))
    decreases |buf|
  {
    hide ParseFrame, FrameLen;
    if |buf| > 0 && ParseFrame(buf).Ok? {
      var f := ParseFrame(buf).value;
      FrameFits(buf);
      FrameExtend(buf, more);
      var n := FrameLen(f);
      var rest := buf[n..];
      ManyComposes(rest, more);
      var (frames, i) := ParseMany(rest).value;
      assert (buf + more)[n..] == rest + more;
      assert buf[n + i..] == rest[i..];
      PrependAssoc([f], n, frames, i, ParseMany(rest[i..] + more));
    } else {
      assert buf[0..] == buf;
      PrependNothing(ParseMany(buf + more));
    }
  }

  /** The same when the first buffer starts with the connection preface and holds all of it. */
  lemma MultiComposes(buf: bytes, preface: bool, more: bytes)
    requires MultiFactory(buf, preface).Ok? && (preface ==> MultiFactory(buf, preface).value.1 > 0)
    ensures var (frames, i) := MultiFactory(buf, preface).value;
            i <= |buf| && MultiFactory(buf + more, preface) == Prepend(frames, i, MultiFactory(buf[i..] + more, false))
  {
    hide ParseMany;
    if !preface {
      ManyComposes(buf, more);
    } else {
      var n := |PREFACE|;
      var rest := buf[n..];
      ManyComposes(rest, more);
      var (frames, j) := ParseMany(rest).value;
      assert (buf + more)[..n] == buf[..n] && (buf + more)[n..] == rest + more;
      assert buf[n + j..] == rest[j..] && [] + frames == frames;
      PrependAssoc([], n, frames, j, ParseMany(rest[j..] + more));
    }
  }

  /** An error is raised no matter how much more arrives. */
  lemma {:induction false} ManyFails(buf: bytes, more: bytes)
    requires ParseMany(buf).Err?
    ensures ParseMany(buf + more) == ParseMany(buf)
    decreases |buf|
  {
    hide ParseFrame, FrameLen;
    FrameExtend(buf, more);
    if ParseFrame(buf).Ok? {
      FrameFits(buf);
      var n := FrameLen(ParseFrame(buf).value);
      ManyFails(buf[n..], more);
      assert (buf + more)[n..] == buf[n..] + more;
    }
  }

  /** A receiver that keeps the unconsumed bytes and parses after every arrival: all frames, and what is left. */
  function Receive(left: bytes, chunks: seq<bytes>): Result<(seq<Frame>, bytes)>
    decreases |chunks|
  {
    if |chunks| == 0 then Ok(([], left))
    else
      var (frames, i) :- ParseMany(left + chunks[0]);
      ManySerializes(left + chunks[0]);
      var (later, end) :- Receive((left + chunks[0])[i..], chunks[1..]);
      Ok((frames + later, end))
  }

  /** The bytes a parse leaves unconsumed yield no frame by themselves. */
  lemma {:induction false} LeftoverIsIdle(buf: bytes)
    requires ParseMany(buf).Ok?
    ensures var i := ParseMany(buf).value.1; i <= |buf| && ParseMany(buf[i..]) == Ok(([], 0))
    decreases |buf|
  {
    hide ParseFrame, FrameLen;
    if |buf| > 0 && ParseFrame(buf).Ok? {
      FrameFits(buf);
      var n := FrameLen(ParseFrame(buf).value);
      LeftoverIsIdle(buf[n..]);
      var i := ParseMany(buf[n..]).value.1;
      assert buf[n + i..] == buf[n..][i..];
    } else {
      assert buf[0..] == buf;
    }
  }

  lemma NothingReceived(left: bytes, chunks: seq<bytes>)
    requires |chunks| == 0
    ensures Receive(left, chunks) == Ok(([], left))
  {
  }

  lemma ReceiveStep(left: bytes, chunks: seq<bytes>)
    requires |chunks| > 0
    ensures var b := left + chunks[0];
            var p := ParseMany(b);
            if p.Err? then Receive(left, chunks) == Err(p.error)
            else
              p.value.1 <= |b| &&
              var later := Receive(b[p.value.1..], chunks[1..]);
              Receive(left, chunks) ==
              if later.Ok? then Ok((p.value.0 + later.value.0, later.value.1)) else Err(later.error)
  {
    hide ParseMany;
    if ParseMany(left + chunks[0]).Ok? {
      ManySerializes(left + chunks[0]);
    }
  }

  /** However a stream is cut into arrivals, the receiver ends with the frames of the whole stream, or its error. */
  lemma {:induction false} ReceiveWhole(left: bytes, chunks: seq<bytes>)
    requires ParseMany(left) == Ok(([], 0))
    ensures var whole := left + Flatten(chunks);
            match ParseMany(whole)
            case Err(e) => Receive(left, chunks) == Err(e)
            case Ok((frames, i)) => i <= |whole| && Receive(left, chunks) == Ok((frames, whole[i..]))
    decreases |chunks|
  {
    hide ParseMany, Receive;
    var whole := left + Flatten(chunks);
    if |chunks| == 0 {
      assert whole == left;
      NothingReceived(left, chunks);
    } else {
      ReceiveStep(left, chunks);
      var b, rest := left + chunks[0], Flatten(chunks[1..]);
      assert whole == b + rest;
      if ParseMany(b).Err? {
        ManyFails(b, rest);
      } else {
        var (frames, i) := ParseMany(b).value;
        ManyComposes(b, rest);
        LeftoverIsIdle(b);
        ReceiveWhole(b[i..], chunks[1..]);
        if ParseMany(b[i..] + rest).Ok? {
          ManySerializes(b[i..] + rest);
          var j := ParseMany(b[i..] + rest).value.1;
          assert whole[i + j..] == (b[i..] + rest)[j..];
        }
      }
    }
  }

  /** The same receiver from the start of a connection: it first waits for the whole preface. */
  function Connect(left: bytes, chunks: seq<bytes>): Result<(seq<Frame>, bytes)>
    decreases |chunks|
  {
    if |chunks| == 0 then Ok(([], left))
    else
      var b := left + chunks[0];
      var (frames, i) :- MultiFactory(b, true);
      MultiSerializes(b, true);
      if i == 0 then Connect(b, chunks[1..])
      else
        var (later, end) :- Receive(b[i..], chunks[1..]);
        Ok((frames + later, end))
  }

  /** However a connection is cut into arrivals, the receiver ends as if it had arrived at once. */
  lemma {:induction false} ConnectWhole(left: bytes, chunks: seq<bytes>)
    requires |left| < |PREFACE|
    ensures var whole := left + Flatten(chunks);
            match MultiFactory(whole, true)
            case Err(e) => Connect(left, chunks) == Err(e)
            case Ok((frames, i)) => i <= |whole| && Connect(left, chunks) == Ok((frames, whole[i..]))
    decreases |chunks|
  {
    hide ParseMany, Receive;
    var whole := left + Flatten(chunks);
    if |chunks| == 0 {
      assert whole == left && whole[0..] == whole;
    } else {
      var b, rest := left + chunks[0], Flatten(chunks[1..]);
      assert whole == b + rest;
      var n := |PREFACE|;
      if |b| < n {
        ConnectWhole(b, chunks[1..]);
      } else {
        assert whole[..n] == b[..n] && whole[n..] == b[n..] + rest;
        if b[..n] == PREFACE {
          ConnectRest(b, rest, chunks[1..]);
        }
      }
    }
  }

  /** What the receiver has after the arrival that completes the preface, against the whole. */
  ghost predicate Continues(whole: bytes, b: bytes, chunks: seq<bytes>) {
    var first := MultiFactory(b, true);
    match MultiFactory(whole, true)
    case Err(e) =>
      || first == Err(e)
      || (first.Ok? && 0 < first.value.1 <= |b| && Receive(b[first.value.1..], chunks) == Err(e))
    case Ok((frames, i)) =>
      && first.Ok? && 0 < first.value.1 <= |b| && i <= |whole|
      && var later := Receive(b[first.value.1..], chunks);
         later.Ok? && first.value.0 + later.value.0 == frames && later.value.1 == whole[i..]
  }

  lemma ConnectRest(b: bytes, rest: bytes, chunks: seq<bytes>)
    requires |b| >= |PREFACE| && b[..|PREFACE|] == PREFACE && rest == Flatten(chunks)
    ensures Continues(b + rest, b, chunks)
  {
    hide ParseMany, Receive, Continues;
    var n, whole := |PREFACE|, b + rest;
    var body := b[n..];
    assert whole[..n] == b[..n] && whole[n..] == body + rest;
    if ParseMany(body).Err? {
      ManyFails(body, rest);
      ContinuesError(whole, b, chunks);
    } else {
      var (frames, j) := ParseMany(body).value;
      ManyComposes(body, rest);
      LeftoverIsIdle(body);
      ReceiveWhole(body[j..], chunks);
      assert b[n + j..] == body[j..];
      BodyContinues(whole, b, chunks, frames, j, body[j..] + rest);
    }
  }

  lemma ContinuesError(whole: bytes, b: bytes, chunks: seq<bytes>)
    requires MultiFactory(whole, true).Err? && MultiFactory(b, true) == MultiFactory(whole, true)
    ensures Continues(whole, b, chunks)
  {
    hide MultiFactory, Receive;
  }

  lemma BodyContinues(whole: bytes, b: bytes, chunks: seq<bytes>, frames: seq<Frame>, j: nat, left: bytes)
    requires |PREFACE| <= |b| <= |whole| && b[..|PREFACE|] == whole[..|PREFACE|] == PREFACE
    requires ParseMany(b[|PREFACE|..]) == Ok((frames, j)) && |PREFACE| + j <= |b|
    requires ParseMany(whole[|PREFACE|..]) == Prepend(frames, j, ParseMany(left)) && left == whole[|PREFACE| + j..]
    requires var r := ParseMany(left);
             var got := Receive(b[|PREFACE| + j..], chunks);
             if r.Err? then got == Err(r.error)
             else r.value.1 <= |left| && got == Ok((r.value.0, left[r.value.1..]))
    ensures Continues(whole, b, chunks)
  {
    hide ParseMany, Receive;
    assert [] + frames == frames;
    if ParseMany(left).Ok? {
      var (more, k) := ParseMany(left).value;
      assert whole[|PREFACE| + (j + k)..] == left[k..] && [] + (frames + more) == frames + more;
    }
  }

  // ---------- where the framing gets stuck or loses bytes ----------

  /** The type is admissible as far as it is there, and header or payload are not complete. */
  predicate Incomplete(buf: bytes) {
    |buf| < 4 || (buf[3] <= 9 && (|buf| < HEADER_LEN || |buf| < HEADER_LEN + UnBE(buf[..3])))
  }

  /** A complete PRIORITY frame of fewer than five payload bytes. */
  predicate ShortPriority(buf: bytes) {
    |buf| >= HEADER_LEN && buf[3] == 2 && UnBE(buf[..3]) < 5 && |buf| >= HEADER_LEN + UnBE(buf[..3])
  }

  lemma MissingDataExact(buf: bytes)
    ensures ParseFrame(buf) == Err(NeedData) <==> Incomplete(buf) || ShortPriority(buf)
  {
    hide ParseDetail;
    if |buf| >= HEADER_LEN && |buf| >= HEADER_LEN + UnBE(buf[..3]) {
      DetailNeedsData(buf[3], buf[4], buf[HEADER_LEN..HEADER_LEN + UnBE(buf[..3])]);
    }
  }

  lemma DetailNeedsData(kind: byte, flags: byte, data: bytes)
    ensures ParseDetail(kind, flags, data) == Err(NeedData) <==> kind == 2 && |data| < 5
  {
    hide UnBE, ParseSettings;
  }

  /** A short PRIORITY frame counts as missing data although it is complete, so the loop waits for ever. */
  lemma ShortPriorityStalls(buf: bytes, more: bytes)
    requires ShortPriority(buf)
    ensures ParseMany(buf + more) == Ok(([], 0))
  {
    assert (buf + more)[..3] == buf[..3];
    MissingDataExact(buf + more);
    hide ParseFrame, UnBE;
  }

  /** Pad length, unpadded data and padding make up the payload unless a pad length of zero is followed by data. */
  lemma UnpadExact(flags: byte, data: bytes)
    requires Padded(flags) && Unpad(flags, data).Ok?
    ensures var pad := data[0] as int;
            [data[0]] + Unpad(flags, data).value + data[|data| - pad..] == data <==> pad > 0 || |data| == 1
  {
    var pad := data[0] as int;
    if pad > 0 {
      assert data == [data[0]] + data[1..|data| - pad] + data[|data| - pad..];
    }
  }

  /**
   For a padded PUSH_PROMISE the promised stream is read from the pad length on instead of behind it. It is the right
   one if and only if the pad length equals all four bytes of the stream number.
   */
  lemma PromisedExact(flags: byte, data: bytes)
    requires ParseDetail(5, flags, data).Ok?
    ensures var wanted := Unpad(flags, data).value;
            |wanted| >= 4 && |data| >= 4 &&
            (ParseDetail(5, flags, data).value.promised == UnBE(wanted[..4]) <==>
             !Padded(flags) || data[1..5] == [data[0], data[0], data[0], data[0]])
  {
    hide UnBE, Padded;
    var wanted := Unpad(flags, data).value;
    if Padded(flags) {
      assert wanted[..4] == data[1..5] && Slice(data, 0, 4) == data[..4];
      UnBERoundTrip(data[..4]);
      UnBERoundTrip(data[1..5]);
      ShiftedEqual(data);
    }
  }

  lemma ShiftedEqual(data: bytes)
    requires |data| >= 5
    ensures data[..4] == data[1..5] <==> data[1..5] == [data[0], data[0], data[0], data[0]]
  {
    var a, b := data[..4], data[1..5];
    assert a[0] == data[0] && a[1] == data[1] && a[2] == data[2] && a[3] == data[3];
    assert b[0] == data[1] && b[1] == data[2] && b[2] == data[3] && b[3] == data[4];
  }

  const PADDED_PROMISE: bytes := [1, 0, 0, 0, 7, 0]

  /** One byte of padding behind stream 7: the promised stream comes out as 0x01000000. */
  lemma PromisedExample()
    ensures var r := ParseDetail(5, 8, PADDED_PROMISE); r.Ok? && r.value.promised == 0x100_0000
    ensures Unpad(8, PADDED_PROMISE) == Ok([0, 0, 0, 7])
  {
    var data, w := PADDED_PROMISE, [1, 0, 0, 0];
    assert data[1..5] == [0, 0, 0, 7] && Slice(data, 0, 4) == w;
    assert w[..3][..2] == w[..2] && w[..2][..1] == w[..1] && w[..1][..0] == [];
    assert UnBE(w[..1]) == 1 && UnBE(w[..2]) == 0x100 && UnBE(w[..3]) == 0x1_0000;
  }

  function SettingsBytes(settings: seq<(nat, nat)>): bytes {
    if |settings| == 0 then []
    else BE(settings[0].0, 2) + BE(settings[0].1, 4) + SettingsBytes(settings[1..])
  }

  /** The settings of a frame, put back on the wire, are its payload. */
  lemma {:induction false} SettingsSerialize(data: bytes)
    requires |data| % 6 == 0
    ensures SettingsBytes(ParseSettings(data)) == data
    decreases |data|
  {
    hide BE, UnBE;
    if |data| > 0 {
      UnBERoundTrip(data[..2]);
      UnBERoundTrip(data[2..6]);
      SettingsSerialize(data[6..]);
      assert ParseSettings(data)[1..] == ParseSettings(data[6..]);
      assert data == data[..2] + data[2..6] + data[6..];
    }
  }

  // ---------- the program's own form ----------

  lemma ManyStep(done: seq<Frame>, buf: bytes, i: nat)
    requires i < |buf|
    ensures var r := Prepend(done, i, ParseMany(buf[i..]));
            match ParseFrame(buf[i..])
            case Err(e) => r == if e == NeedData then Ok((done, i)) else Err(e)
            case Ok(f) => i + FrameLen(f) <= |buf| &&
                          r == Prepend(done + [f], i + FrameLen(f), ParseMany(buf[i + FrameLen(f)..]))
  {
    hide ParseFrame, FrameLen;
    match ParseFrame(buf[i..])
    case Err(e) => assert done + [] == done;
    case Ok(f) =>
      FrameFits(buf[i..]);
      assert buf[i..][FrameLen(f)..] == buf[i + FrameLen(f)..];
      PrependAssoc(done, i, [f], FrameLen(f), ParseMany(buf[i + FrameLen(f)..]));
  }

  method FrameMultiFactory(buf: bytes, preface: bool) returns (r: Result<Parsed>)
    ensures r == MultiFactory(buf, preface)
  {
    hide ParseFrame, FrameLen, ParseMany;
    var i := 0;
    var frames: seq<Frame> := [];
    if preface {
      if |buf| < |PREFACE| {
        return Ok(([], 0));
      }
      if buf[..|PREFACE|] != PREFACE {
        return Err(ProtocolError);
      }
      i := |PREFACE|;
    } else {
      assert buf[0..] == buf;
      PrependNothing(ParseMany(buf));
    }
    while i < |buf|
      invariant i <= |buf|
      invariant MultiFactory(buf, preface) == Prepend(frames, i, ParseMany(buf[i..]))
      decreases |buf| - i
    {
      ManyStep(frames, buf, i);
      FrameProgress(buf[i..]);
      var frame := ParseFrame(buf[i..]);
      if frame.Err? {
        if frame.error == NeedData {
          break;
        }
        return Err(frame.error);
      }
      frames := frames + [frame.value];
      i := i + FrameLen(frame.value);
    }
    if i == |buf| {
      NothingLeft(frames, buf);
    }
    return Ok((frames, i));
  }

  lemma FrameProgress(buf: bytes)
    ensures ParseFrame(buf).Ok? ==> 0 < FrameLen(ParseFrame(buf).value)
  {
  }

  lemma NothingLeft(frames: seq<Frame>, buf: bytes)
    ensures Prepend(frames, |buf|, ParseMany(buf[|buf|..])) == Ok((frames, |buf|))
  {
    assert frames + [] == frames;
  }

  lemma SixBytes(data: bytes, i: nat)
    requires i + 6 <= |data|
    ensures data[i..][..2] == data[i..i + 6][..2] && data[i..][2..6] == data[i..i + 6][2..6]
    ensures data[i..][6..] == data[i + 6..]
  {
    assert data[i..][..2] == data[i..i + 2] == data[i..i + 6][..2];
    assert data[i..][2..6] == data[i + 2..i + 6] == data[i..i + 6][2..6];
  }

  /** The loop of SettingsFrame.unpack over a payload whose length is a multiple of six. */
  method UnpackSettings(data: bytes) returns (settings: seq<(nat, nat)>)
    requires |data| % 6 == 0
    ensures settings == ParseSettings(data)
  {
    hide UnBE;
    settings := [];
    var i := 0;
    assert data[0..] == data && [] + ParseSettings(data) == ParseSettings(data);
    while i < |data|
      invariant 0 <= i <= |data| && i % 6 == 0 && settings + ParseSettings(data[i..]) == ParseSettings(data)
    {
      var one := data[i..i + 6];
      SixBytes(data, i);
      settings := settings + [(UnBE(one[..2]), UnBE(one[2..6]))];
      i := i + 6;
    }
    assert data[i..] == [] && settings + [] == settings;
  }
}
