/** HTTP/3 frames (section 7.1 of RFC 9114) over QUIC variable-length integers. */
module Http3 {
  import opened Bytes
  import opened Varint

  const DATA := 0x00
  const HEADERS := 0x01
  const SETTINGS := 0x04

  datatype Frame =
    | DataFrame(payload: bytes)
    | HeadersFrame(encodedHeaders: bytes)
    | CancelPush(cancelled: nat)
    | SettingsFrame(settings: seq<(nat, nat)>)
    | PushPromise(pushId: nat, promised: bytes)
    | Goaway(lastStream: nat)
    | MaxPushId(maxPushId: nat)
    | Other(kind: nat)

  /** The loop of Http3SettingsFrame.unpack: pairs are read while at least two bytes are left before `end`. */
  function ReadSettings(buf: bytes, off: nat, end: nat): Result<seq<(nat, nat)>>
    decreases if off < end then end - off else 0
  {
    if off + 2 > end then Ok([])
    else
      var (sid, n) :- Decode(buf, off);
      var (value, m) :- Decode(buf, off + n);
      var rest :- ReadSettings(buf, off + n + m, end);
      Ok([(sid, value)] + rest)
  }

  /** The unpack method of the class registered for a type, on the bytes of one frame. */
  function Unpack(buf: bytes): Result<Frame> {
    var (kind, n) :- Decode(buf, 0);
    var (length, m) :- Decode(buf, n);
    var o := n + m;
    if kind == DATA then Ok(DataFrame(Slice(buf, o, o + length)))
    else if kind == HEADERS then Ok(HeadersFrame(Slice(buf, o, o + length)))
    else if kind == 0x03 then
      var (id, _) :- Decode(buf, o);
      Ok(CancelPush(id))
    else if kind == SETTINGS then
      var settings :- ReadSettings(buf, o, o + length);
      Ok(SettingsFrame(settings))
    else if kind == 0x05 then
      var (id, p) :- Decode(buf, o);
      Ok(PushPromise(id, Slice(buf, o + p, o + length)))
    else if kind == 0x07 then
      var (id, _) :- Decode(buf, o);
      Ok(Goaway(id))
    else if kind == 0x0d then
      var (id, _) :- Decode(buf, o);
      Ok(MaxPushId(id))
    else Ok(Other(kind))
  }

  /** The declared extent of the frame at the front of a buffer. */
  function Extent(buf: bytes): (r: Result<nat>)
    ensures r.Ok? ==> r.value > 0
  {
    var (_, n) :- Decode(buf, 0);
    var (length, m) :- Decode(buf, n);
    Ok(n + m + length)
  }

  /** parse_http3_frames: missing data anywhere raises. */
  function ParseFrames(buf: bytes): Result<seq<Frame>>
    decreases |buf|
  {
    if |buf| == 0 then Ok([])
    else
      var total :- Extent(buf);
      var frame :- Unpack(Slice(buf, 0, total));
      var rest :- ParseFrames(From(buf, total));
      Ok([frame] + rest)
  }

  // ---------- wire forms ----------

  function SettingsBytes(settings: seq<(nat, nat)>): bytes
    requires forall i :: 0 <= i < |settings| ==> settings[i].0 < MAX62 && settings[i].1 < MAX62
  {
    if |settings| == 0 then []
    else Encode(settings[0].0) + Encode(settings[0].1) + SettingsBytes(settings[1..])
  }

  ghost predicate ValidSettings(settings: seq<(nat, nat)>) {
    forall i :: 0 <= i < |settings| ==> settings[i].0 < MAX62 && settings[i].1 < MAX62
  }

  /** DATA, HEADERS and SETTINGS frames whose lengths fit a variable-length integer. */
  ghost predicate Listed(f: Frame) {
    match f
    case DataFrame(p) => |p| < MAX62
    case HeadersFrame(p) => |p| < MAX62
    case SettingsFrame(s) => ValidSettings(s) && |SettingsBytes(s)| < MAX62
    case _ => false
  }

  ghost function Body(f: Frame): bytes
    requires Listed(f)
  {
    match f
    case DataFrame(p) => p
    case HeadersFrame(p) => p
    case SettingsFrame(s) => SettingsBytes(s)
  }

  function KindOf(f: Frame): nat {
    match f
    case DataFrame(_) => DATA
    case HeadersFrame(_) => HEADERS
    case CancelPush(_) => 0x03
    case SettingsFrame(_) => SETTINGS
    case PushPromise(_, _) => 0x05
    case Goaway(_) => 0x07
    case MaxPushId(_) => 0x0d
    case Other(k) => k
  }

  /** Type, length and body; for DATA this is __bytes__. */
  ghost function Wire(f: Frame): bytes
    requires Listed(f)
  {
    Encode(KindOf(f)) + Encode(|Body(f)|) + Body(f)
  }

  lemma TypeAndLength(f: Frame, rest: bytes)
    requires Listed(f)
    ensures var buf := Wire(f) + rest;
            var n := |Encode(KindOf(f))|;
            && Decode(buf, 0) == Ok((KindOf(f), n))
            && Decode(buf, n) == Ok((|Body(f)|, |Encode(|Body(f)|)|))
  {
    hide Encode, Decode;
    var k, l, b := Encode(KindOf(f)), Encode(|Body(f)|), Body(f);
    var none: bytes := [];
    assert Wire(f) + rest == none + k + (l + b + rest);
    assert Wire(f) + rest == k + l + (b + rest);
    DecodeEncode(KindOf(f), none, l + b + rest);
    DecodeEncode(|Body(f)|, k, b + rest);
  }

  /** Settings are read back from the middle of a buffer. */
  lemma {:induction false} SettingsBack(pre: bytes, settings: seq<(nat, nat)>)
    requires ValidSettings(settings)
    ensures var buf := pre + SettingsBytes(settings);
            ReadSettings(buf, |pre|, |buf|) == Ok(settings)
    decreases |settings|
  {
    hide Encode, Decode;
    if |settings| > 0 {
      var a, b, c := Encode(settings[0].0), Encode(settings[0].1), SettingsBytes(settings[1..]);
      var buf := pre + SettingsBytes(settings);
      Regrouped(pre, a, b, c);
      DecodeEncode(settings[0].0, pre, b + c);
      DecodeEncode(settings[0].1, pre + a, c);
      SettingsBack(pre + a + b, settings[1..]);
      EncodeNonEmpty(settings[0].0);
      EncodeNonEmpty(settings[0].1);
      assert [settings[0]] + settings[1..] == settings;
    }
  }

  lemma EncodeNonEmpty(v: nat)
    requires v < MAX62
    ensures |Encode(v)| > 0
  {
  }

  lemma Regrouped(pre: bytes, a: bytes, b: bytes, c: bytes)
    ensures pre + (a + b + c) == pre + a + (b + c) == (pre + a) + b + c == (pre + a + b) + c
  {
  }

  lemma UnpackWire(f: Frame)
    requires Listed(f)
    ensures Unpack(Wire(f)) == Ok(f)
  {
    hide Encode, Decode, SettingsBytes, Slice;
    assert Wire(f) + [] == Wire(f);
    TypeAndLength(f, []);
    var k, l, b := Encode(KindOf(f)), Encode(|Body(f)|), Body(f);
    SliceEnd(k + l, b);
    if f.SettingsFrame? {
      SettingsBack(k + l, f.settings);
    }
  }

  lemma SliceEnd(pre: bytes, b: bytes)
    ensures Slice(pre + b, |pre|, |pre| + |b|) == b
  {
  }

  lemma ExtentOfWire(f: Frame, rest: bytes)
    requires Listed(f)
    ensures Extent(Wire(f) + rest) == Ok(|Wire(f)|) && |Wire(f)| > 0
  {
    hide Encode, Decode, SettingsBytes;
    TypeAndLength(f, rest);
    EncodeNonEmpty(KindOf(f));
  }

  ghost predicate AllListed(frames: seq<Frame>) {
    forall i :: 0 <= i < |frames| ==> Listed(frames[i])
  }

  ghost function Emit(frames: seq<Frame>): bytes
    requires AllListed(frames)
  {
    if |frames| == 0 then [] else Wire(frames[0]) + Emit(frames[1..])
  }

  /** Every list of DATA, HEADERS and SETTINGS frames is recovered from its bytes. */
  lemma {:induction false} ParseEmitted(frames: seq<Frame>)
    requires AllListed(frames)
    ensures ParseFrames(Emit(frames)) == Ok(frames)
    decreases |frames|
  {
    hide Unpack, Extent, Wire, Listed, Slice;
    if |frames| > 0 {
      var f, rest := frames[0], Emit(frames[1..]);
      ExtentOfWire(f, rest);
      UnpackWire(f);
      ParseEmitted(frames[1..]);
      FrontSlice(Wire(f), rest);
      assert [f] + frames[1..] == frames;
    }
  }

  lemma FrontSlice(a: bytes, b: bytes)
    ensures Slice(a + b, 0, |a|) == a && From(a + b, |a|) == b
  {
  }

  // ---------- the program's own loops ----------

  function Prepend(done: seq<Frame>, r: Result<seq<Frame>>): Result<seq<Frame>> {
    if r.Ok? then Ok(done + r.value) else r
  }

  lemma ParseStep(done: seq<Frame>, buf: bytes, off: nat)
    requires off < |buf|
    ensures var r := Prepend(done, ParseFrames(From(buf, off)));
            var total := Extent(From(buf, off));
            if total.Err? then r == Err(total.error)
            else
              var f := Unpack(Slice(From(buf, off), 0, total.value));
              if f.Err? then r == Err(f.error)
              else r == Prepend(done + [f.value], ParseFrames(From(buf, off + total.value)))
  {
    hide Unpack, Extent, Slice;
    var b := From(buf, off);
    var total := Extent(b);
    if total.Ok? {
      assert From(b, total.value) == From(buf, off + total.value);
      var f := Unpack(Slice(b, 0, total.value));
      var rest := ParseFrames(From(b, total.value));
      if f.Ok? && rest.Ok? {
        assert done + ([f.value] + rest.value) == done + [f.value] + rest.value;
      }
    }
  }

  method ParseFrameList(buf: bytes) returns (r: Result<seq<Frame>>)
    ensures r == ParseFrames(buf)
  {
    hide Unpack, Extent, Slice, ParseFrames;
    var frames: seq<Frame> := [];
    var off := 0;
    assert From(buf, 0) == buf;
    ghost var whole := ParseFrames(buf);
    assert whole.Ok? ==> [] + whole.value == whole.value;
    while off < |buf|
      invariant whole == Prepend(frames, ParseFrames(From(buf, off)))
      decreases |buf| - off
    {
      ParseStep(frames, buf, off);
      var total :- Extent(From(buf, off));
      var frame :- Unpack(Slice(From(buf, off), 0, total));
      frames := frames + [frame];
      off := off + total;
    }
    NothingToParse(frames, buf, off);
    return Ok(frames);
  }

  lemma NothingToParse(frames: seq<Frame>, buf: bytes, off: nat)
    requires off >= |buf|
    ensures Prepend(frames, ParseFrames(From(buf, off))) == Ok(frames)
  {
    assert frames + [] == frames;
  }

  /** The loop of Http3SettingsFrame.unpack. */
  method UnpackSettings(buf: bytes, start: nat, end: nat) returns (r: Result<seq<(nat, nat)>>)
    ensures r == ReadSettings(buf, start, end)
  {
    hide Decode, ReadSettings;
    var off := start;
    var settings: seq<(nat, nat)> := [];
    ghost var goal := ReadSettings(buf, start, end);
    assert goal.Ok? ==> [] + goal.value == goal.value;
    while off + 2 <= end
      invariant var rest := ReadSettings(buf, off, end);
                if rest.Ok? then goal == Ok(settings + rest.value) else goal == rest
      decreases end - off
    {
      SettingsStep(buf, off, end, settings);
      var one :- Decode(buf, off);
      var (sid, n) := one;
      var two :- Decode(buf, off + n);
      var (value, m) := two;
      DecodeProgress(buf, off);
      off := off + n + m;
      settings := settings + [(sid, value)];
    }
    NoSettings(buf, off, end);
    assert settings + [] == settings;
    return Ok(settings);
  }

  lemma DecodeProgress(buf: bytes, off: nat)
    ensures Decode(buf, off).Ok? ==> Decode(buf, off).value.1 > 0
  {
  }

  lemma NoSettings(buf: bytes, off: nat, end: nat)
    requires off + 2 > end
    ensures ReadSettings(buf, off, end) == Ok([])
  {
  }

  lemma SettingsStep(buf: bytes, off: nat, end: nat, settings: seq<(nat, nat)>)
    requires off + 2 <= end
    ensures var all := ReadSettings(buf, off, end);
            var a := Decode(buf, off);
            if a.Err? then all == Err(a.error)
            else
              var b := Decode(buf, off + a.value.1);
              if b.Err? then all == Err(b.error)
              else
                var rest := ReadSettings(buf, off + a.value.1 + b.value.1, end);
                if rest.Err? then all == rest
                else all.Ok? && settings + all.value == settings + [(a.value.0, b.value.0)] + rest.value
  {
    hide Decode;
    var a := Decode(buf, off);
    if a.Ok? && Decode(buf, off + a.value.1).Ok? {
      var b := Decode(buf, off + a.value.1).value;
      var rest := ReadSettings(buf, off + a.value.1 + b.1, end);
      assert rest.Ok? ==> settings + ([(a.value.0, b.0)] + rest.value) == settings + [(a.value.0, b.0)] + rest.value;
    }
  }
}
