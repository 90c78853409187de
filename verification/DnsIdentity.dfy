/** DNS messages that come out of unpack and bytes() exactly as they arrived. */
module DnsIdentity {
  import opened Bytes
  import opened DnsName
  import opened DnsMessage
  import opened DnsReprint

  /** A place in a message, and the dictionary of the names written before it. */
  datatype Spot = Spot(off: nat, ptrs: LabelPtrs)

  /** The name here stands as pack_name writes it. */
  function NameStands(buf: bytes, s: Spot): Option<Spot> {
    var u := UnpackName(buf, s.off);
    if u.Err? then None
    else
      var p := PackName(u.value.0, s.off, s.ptrs);
      if p.Ok? && Slice(buf, s.off, u.value.1) == p.value.wire then Some(Spot(u.value.1, p.value.ptrs)) else None
  }

  function QuestionsStand(buf: bytes, s: Spot, count: nat): Option<Spot>
    decreases count
  {
    if count == 0 then Some(s)
    else
      var n := NameStands(buf, s);
      if n.None? || UnpackQ(buf, s.off).Err? then None
      else QuestionsStand(buf, Spot(UnpackQ(buf, s.off).value.1, n.value.ptrs), count - 1)
  }

  /** The owner stands, and the rdata is complete and is emitted as it is. */
  function RecordStands(buf: bytes, s: Spot): Option<Spot> {
    var n := NameStands(buf, s);
    var h := ReadHeld(buf, s.off);
    if n.Some? && h.Ok? && h.value.1 <= |buf| && EmitsRaw(h.value.0) then Some(Spot(h.value.1, n.value.ptrs)) else None
  }

  predicate EmitsRaw(h: Held) {
    |h.raw| > 0 || (h.rr.rdata.Verbatim? && HasOwnField(h.rr.rdata.vtype))
  }

  function RecordsStand(buf: bytes, s: Spot, count: nat): Option<Spot>
    decreases count
  {
    if count == 0 then Some(s)
    else
      var n := RecordStands(buf, s);
      if n.None? then None else RecordsStand(buf, n.value, count - 1)
  }

  /** Every name that is compressed anew stands as pack_name writes it, and nothing follows the last record. */
  predicate AsWritten(buf: bytes) {
    |buf| >= 12 &&
    var q := QuestionsStand(buf, Spot(12, map[]), U16At(buf, 4));
    q.Some? &&
    var an := RecordsStand(buf, q.value, U16At(buf, 6));
    an.Some? &&
    var ns := RecordsStand(buf, an.value, U16At(buf, 8));
    ns.Some? &&
    var ar := RecordsStand(buf, ns.value, U16At(buf, 10));
    ar.Some? && ar.value.off == |buf|
  }

  // ---------- a written name is read to its end ----------

  ghost predicate UnpackedLabels(labels: seq<bytes>) {
    forall i :: 0 <= i < |labels| ==> 1 <= |labels[i]| <= 63
  }

  lemma {:induction false} LabelsUnpacked(buf: bytes, off: nat, start: nat, nl: nat)
    requires nl <= MAX_NAME && UnpackLabels(buf, off, start, nl).Ok?
    ensures UnpackedLabels(UnpackLabels(buf, off, start, nl).value.labels)
    decreases start, |buf| - off
  {
    hide UnpackLabels, UnBE, Slice;
    OkCase(buf, off, start, nl);
    var n := buf[off] as int;
    if n == 0 {
      EndCase(buf, off, start, nl);
    } else if n >= 0xc0 {
      JumpCase(buf, off, start, nl);
      var ptr := PointerAt(buf, off);
      LabelsUnpacked(buf, ptr, ptr, nl);
    } else {
      LabelCase(buf, off, start, nl);
      LabelsUnpacked(buf, off + 1 + n, start, nl + n + 1);
      OkCase(buf, off + 1 + n, start, nl + n + 1);
      WholeSlice(buf, off + 1, off + 1 + n);
    }
  }

  /** A label that something follows is complete. */
  lemma WholeSlice(b: bytes, lo: nat, hi: nat)
    requires lo <= hi <= |b|
    ensures Slice(b, lo, hi) == b[lo..hi]
  {
  }

  lemma JoinStart(b: seq<bytes>)
    requires |b| > 0
    ensures b[0] <= Join(b) && (|b| == 1 ==> Join(b) == b[0])
    ensures |b| > 1 ==> |Join(b)| > |b[0]| && Join(b)[|b[0]|] == DOT && Join(b)[|b[0]| + 1..] == Join(b[1..])
  {
    if |b| > 1 {
      assert Join(b) == b[0] + [DOT] + Join(b[1..]);
    }
  }

  /** The first of dot-free labels is no longer than the first of any labels that make up the same name. */
  lemma HeadShort(a: seq<bytes>, b: seq<bytes>)
    requires |a| > 0 && |b| > 0 && DotFree(a) && Join(a) == Join(b)
    ensures |a[0]| <= |b[0]|
    ensures a[0] == b[0] ==> Join(a[1..]) == Join(b[1..]) && (|b| == 1 ==> |a| == 1)
  {
    JoinStart(a);
    JoinStart(b);
    forall i | 0 <= i < |a[0]| ensures Join(a)[i] != DOT {
      assert a[0][i] in a[0];
    }
    if a[0] == b[0] && |a| == 1 {
      assert a[1..] == [];
    }
  }

  lemma DotFreeTail(a: seq<bytes>)
    requires DotFree(a) && |a| > 0
    ensures DotFree(a[1..])
  {
  }

  /** The shapes of packed labels. */
  lemma PackShapes(labels: seq<bytes>, off: nat, ptrs: LabelPtrs)
    requires PackLabels(labels, off, ptrs).Ok?
    ensures var w := PackLabels(labels, off, ptrs).value.wire;
            || (|w| == 2 && w[0] >= 0xc0)
            || (labels == [] && w == [0])
            || (|labels| > 0 && |labels[0]| <= 255 &&
                var rest := PackLabels(labels[1..], off + 1 + |labels[0]|, Remember(ptrs, Key(labels), off));
                rest.Ok? && w == [|labels[0]| as byte] + labels[0] + rest.value.wire)
  {
    hide Key, BE, PointerWord;
    if Key(labels) in ptrs {
      PointerBytes(ptrs[Key(labels)]);
    }
  }

  /** If the bytes here begin with the packed form of the name they decode to, they end with it. */
  lemma {:induction false} WireEnds(buf: bytes, off: nat, start: nat, nl: nat, labels: seq<bytes>, at: nat,
                                    ptrs: LabelPtrs)
    requires nl <= MAX_NAME && UnpackLabels(buf, off, start, nl).Ok? && PackLabels(labels, at, ptrs).Ok?
    requires var u := UnpackLabels(buf, off, start, nl).value.labels;
             DotFree(labels) && Join(labels) == Join(u) && (u == [] ==> labels == [])
    requires off <= |buf| && PackLabels(labels, at, ptrs).value.wire <= buf[off..]
    ensures UnpackLabels(buf, off, start, nl).value.next == off + |PackLabels(labels, at, ptrs).value.wire|
    decreases |labels|
  {
    hide UnpackLabels, PackLabels, UnBE, Slice, Join;
    var w := PackLabels(labels, at, ptrs).value.wire;
    var u := UnpackLabels(buf, off, start, nl).value.labels;
    PackShapes(labels, at, ptrs);
    OkCase(buf, off, start, nl);
    LabelsUnpacked(buf, off, start, nl);
    assert |w| > 0 && buf[off] == w[0];
    var n := buf[off] as int;
    if n >= 0xc0 {
      JumpCase(buf, off, start, nl);
      if |w| != 2 {
        HeadShort(labels, u);
      }
    } else if n == 0 {
      EndCase(buf, off, start, nl);
    } else {
      LabelCase(buf, off, start, nl);
      var ptrs' := Remember(ptrs, Key(labels), at);
      var rest := PackLabels(labels[1..], at + 1 + n, ptrs').value.wire;
      assert labels[0] == w[1..1 + n] == buf[off..][1..1 + n] == buf[off + 1..off + 1 + n];
      OkCase(buf, off + 1 + n, start, nl + n + 1);
      WholeSlice(buf, off + 1, off + 1 + n);
      HeadShort(labels, u);
      DotFreeTail(labels);
      assert u[1..] == UnpackLabels(buf, off + 1 + n, start, nl + n + 1).value.labels;
      assert rest <= buf[off + 1 + n..] by {
        assert w[1 + n..] == rest && buf[off..][1 + n..] == buf[off + 1 + n..];
      }
      WireEnds(buf, off + 1 + n, start, nl + n + 1, labels[1..], at + 1 + n, ptrs');
    }
  }

  lemma NameStep(buf: bytes, s: Spot)
    requires s.off <= |buf| && UnpackName(buf, s.off).Ok?
    requires PackName(UnpackName(buf, s.off).value.0, s.off, s.ptrs).Ok?
    ensures var p := PackName(UnpackName(buf, s.off).value.0, s.off, s.ptrs).value;
            && (p.wire <= buf[s.off..] <==> NameStands(buf, s).Some?)
            && (NameStands(buf, s).Some? ==> NameStands(buf, s).value == Spot(s.off + |p.wire|, p.ptrs))
  {
    hide UnpackLabels, PackLabels, Join;
    var (name, o) := UnpackName(buf, s.off).value;
    var p := PackName(name, s.off, s.ptrs).value;
    UnpackNameIs(buf, s.off);
    UnpackNameBounds(buf, s.off);
    WholeSlice(buf, s.off, o);
    var u := UnpackLabels(buf, s.off, s.off, 0).value.labels;
    JoinLabels(name, u);
    if NameStands(buf, s).Some? {
      assert buf[s.off..o] == buf[s.off..][..o - s.off];
    }
    if p.wire <= buf[s.off..] {
      WireEnds(buf, s.off, s.off, 0, Labels(name), s.off, s.ptrs);
      assert buf[s.off..][..|p.wire|] == buf[s.off..s.off + |p.wire|];
    }
  }

  lemma JoinLabels(name: bytes, u: seq<bytes>)
    requires name == Join(u)
    ensures DotFree(Labels(name)) && Join(Labels(name)) == Join(u) && (u == [] ==> Labels(name) == [])
  {
    if |name| > 0 {
      SplitJoin(name);
    }
  }

  // ---------- packing again, step by step ----------

  /** The message packed so far is the front of what arrived. */
  ghost predicate Tracks(st: State, buf: bytes, s: Spot) {
    s.off <= |buf| && st.buf == buf[..s.off] && st.ptrs == s.ptrs
  }

  lemma NumberBack(buf: bytes, o: nat)
    ensures o + 2 <= |buf| ==> BE(U16At(buf, o), 2) == buf[o..o + 2]
    ensures o + 4 <= |buf| ==> BE(U32At(buf, o), 4) == buf[o..o + 4]
  {
    hide BE;
    if o + 2 <= |buf| { UnBERoundTrip(buf[o..o + 2]); }
    if o + 4 <= |buf| { UnBERoundTrip(buf[o..o + 4]); }
  }

  lemma PrefixOf(buf: bytes, off: nat, w: bytes)
    requires off <= |buf|
    ensures buf[..off] + w <= buf <==> w <= buf[off..]
    ensures w <= buf[off..] ==> buf[..off] + w == buf[..off + |w|]
  {
    if w <= buf[off..] {
      assert buf[off..off + |w|] == buf[off..][..|w|] == w;
      assert buf[..off + |w|] == buf[..off] + buf[off..off + |w|];
    }
    if buf[..off] + w <= buf {
      assert buf[off..][..|w|] == (buf[..off] + w)[off..];
    }
  }

  /** An owner or question name is written as it stands, or the message differs from here on. */
  lemma NameTracks(st: State, buf: bytes, s: Spot, name: bytes, o: nat)
    requires Tracks(st, buf, s) && UnpackName(buf, s.off) == Ok((name, o))
    ensures (AddName(st, name).Ok? && AddName(st, name).value.buf <= buf) <==> NameStands(buf, s).Some?
    ensures NameStands(buf, s).Some? ==>
              Tracks(AddName(st, name).value, buf, NameStands(buf, s).value) && NameStands(buf, s).value.off == o
  {
    hide UnpackName, PackName;
    if PackName(name, s.off, s.ptrs).Ok? {
      NameStep(buf, s);
      PrefixOf(buf, s.off, PackName(name, s.off, s.ptrs).value.wire);
    }
  }

  lemma QuestionStep(st: State, buf: bytes, s: Spot)
    requires Tracks(st, buf, s) && UnpackQ(buf, s.off).Ok?
    ensures var q := PackQ(st, UnpackQ(buf, s.off).value.0);
            && (q.Ok? && q.value.buf <= buf <==> NameStands(buf, s).Some?)
            && (NameStands(buf, s).Some? ==>
                  Tracks(q.value, buf, Spot(UnpackQ(buf, s.off).value.1, NameStands(buf, s).value.ptrs)))
  {
    hide UnpackName, PackName, NameStands, AddName, BE, U16At;
    var (name, o) := UnpackName(buf, s.off).value;
    NameTracks(st, buf, s, name, o);
    NumberBack(buf, o);
    NumberBack(buf, o + 2);
    if AddName(st, name).Ok? {
      var named := AddName(st, name).value.buf;
      var t := BE(U16At(buf, o), 2) + BE(U16At(buf, o + 2), 2);
      if NameStands(buf, s).Some? {
        assert buf[o..o + 2] + buf[o + 2..o + 4] == buf[o..o + 4];
        assert buf[..o] + buf[o..o + 4] == buf[..o + 4];
      } else {
        FrontFits(named, t, buf);
      }
    }
  }

  lemma FrontFits(a: bytes, b: bytes, buf: bytes)
    ensures a + b <= buf ==> a <= buf
  {
    if a + b <= buf {
      assert a == (a + b)[..|a|] == buf[..|a|];
    }
  }

  lemma {:induction false} QuestionsStep(st: State, buf: bytes, s: Spot, count: nat)
    requires Tracks(st, buf, s) && UnpackQs(buf, s.off, count).Ok?
    ensures var q := PackQs(st, UnpackQs(buf, s.off, count).value.0);
            var r := QuestionsStand(buf, s, count);
            && (q.Ok? && q.value.buf <= buf <==> r.Some?)
            && (r.Some? ==> Tracks(q.value, buf, r.value) && r.value.off == UnpackQs(buf, s.off, count).value.1)
    decreases count
  {
    hide UnpackQ, PackQ, NameStands;
    if count > 0 {
      var (q, o) := UnpackQ(buf, s.off).value;
      var rest := UnpackQs(buf, o, count - 1).value.0;
      assert UnpackQs(buf, s.off, count).value.0 == [q] + rest && ([q] + rest)[1..] == rest;
      QuestionStep(st, buf, s);
      if PackQ(st, q).Ok? {
        var next := PackQ(st, q).value;
        if NameStands(buf, s).Some? {
          QuestionsStep(next, buf, Spot(o, NameStands(buf, s).value.ptrs), count - 1);
        } else if PackQs(next, rest).Ok? {
          QsGrow(next, rest);
          Prefixed(next.buf, PackQs(next, rest).value.buf, buf);
        }
      }
    }
  }

  lemma Prefixed(a: bytes, b: bytes, c: bytes)
    requires a <= b
    ensures b <= c ==> a <= c
  {
    if b <= c {
      assert a == b[..|a|] == c[..|a|];
    }
  }

  // ---------- records ----------

  lemma WireNonEmpty(name: bytes, off: nat, ptrs: LabelPtrs)
    ensures PackName(name, off, ptrs).Ok? ==> |PackName(name, off, ptrs).value.wire| > 0
  {
    hide PackLabels;
    if PackName(name, off, ptrs).Ok? {
      PackShapes(Labels(name), off, ptrs);
    }
  }

  /** Only verbatim records emit no data. */
  lemma EmptyWire(rd: RData, off: nat, ptrs: LabelPtrs)
    ensures var r := PackRData(rd, off, ptrs); r.Ok? && r.value.wire == [] ==> rd.Verbatim? && HasOwnField(rd.vtype)
  {
    hide PackName, BE;
    if rd.Host? {
      WireNonEmpty(rd.host, off, ptrs);
    }
  }

  /** The header fields of a record that is read, written again. */
  lemma HeaderAgain(buf: bytes, o: nat, h: Held, n: nat)
    requires o + 10 <= |buf| && TypeOf(h.rr.rdata) == U16At(buf, o) && h.rr.cls == U16At(buf, o + 2)
    requires h.rr.ttl == U32At(buf, o + 4) && n == U16At(buf, o + 8)
    ensures RecordHeader(Stored(h), n) == buf[o..o + 10]
  {
    hide BE, U16At, U32At;
    NumberBack(buf, o);
    NumberBack(buf, o + 2);
    NumberBack(buf, o + 4);
    NumberBack(buf, o + 8);
    assert buf[o..o + 10] == buf[o..o + 2] + buf[o + 2..o + 4] + buf[o + 4..o + 8] + buf[o + 8..o + 10];
  }

  /** What reading a record says about its fields. */
  lemma HeldFields(buf: bytes, off: nat)
    requires ReadHeld(buf, off).Ok?
    ensures UnpackName(buf, off).Ok?
    ensures var (name, o) := UnpackName(buf, off).value;
            var (h, next) := ReadHeld(buf, off).value;
            && o + 10 <= |buf| && h.rr.name == name && next == o + 10 + U16At(buf, o + 8)
            && TypeOf(h.rr.rdata) == U16At(buf, o) && h.rr.cls == U16At(buf, o + 2) && h.rr.ttl == U32At(buf, o + 4)
            && h.raw == Slice(buf, o + 10, next) && Unpacked(h)
  {
    HeldUnpacked(buf, off);
    hide UnpackName, UnpackRData, U16At, U32At, Slice, Unpacked;
    var o := UnpackName(buf, off).value.1;
    TypeRead(buf, o + 10, U16At(buf, o), Slice(buf, o + 10, o + 10 + U16At(buf, o + 8)));
  }

  /** The rdata that a record emits when it emits its kept bytes. */
  lemma RawEmitted(h: Held, off: nat, ptrs: LabelPtrs)
    requires Unpacked(h) && EmitsRaw(h)
    ensures PackRData(Stored(h).rdata, off, ptrs) == Ok(PackedData(h.raw, ptrs, false))
  {
  }

  lemma RecordStep(st: State, buf: bytes, s: Spot)
    requires Tracks(st, buf, s) && ReadHeld(buf, s.off).Ok?
    ensures var p := PackRR(st, Stored(ReadHeld(buf, s.off).value.0));
            var r := RecordStands(buf, s);
            && (p.Ok? && p.value.buf <= buf <==> r.Some?)
            && (r.Some? ==> Tracks(p.value, buf, r.value) && r.value.off == ReadHeld(buf, s.off).value.1)
  {
    hide ReadHeld, UnpackName, PackName, NameStands, AddName, RecordHeader, U16At, U32At, Slice, Unpacked, EmitsRaw,
      PackRData, Stored;
    HeldFields(buf, s.off);
    var (name, o) := UnpackName(buf, s.off).value;
    var (h, next) := ReadHeld(buf, s.off).value;
    StoredName(h);
    NameTracks(st, buf, s, name, o);
    if NameStands(buf, s).Some? {
      if next <= |buf| && EmitsRaw(h) {
        RecordAgain(st, buf, s, h, o, next);
      } else {
        RecordDiffers(st, buf, s, h, o, next);
      }
    } else if PackRR(st, Stored(h)).Ok? {
      var data := PackRR(st, Stored(h)).value.buf;
      var named := AddName(st, name).value.buf;
      NamedFirst(st, Stored(h));
      Prefixed(named, data, buf);
    }
  }

  lemma StoredName(h: Held)
    ensures Stored(h).name == h.rr.name
  {
  }

  lemma NamedFirst(st: State, rr: RR)
    requires PackRR(st, rr).Ok?
    ensures AddName(st, rr.name).Ok? && AddName(st, rr.name).value.buf <= PackRR(st, rr).value.buf
  {
    hide PackRData, RecordHeader, AddName;
  }

  /** A standing record is packed to the bytes it came from. */
  lemma RecordAgain(st: State, buf: bytes, s: Spot, h: Held, o: nat, next: nat)
    requires Tracks(st, buf, s) && ReadHeld(buf, s.off) == Ok((h, next)) && UnpackName(buf, s.off) == Ok((h.rr.name, o))
    requires NameStands(buf, s).Some? && next <= |buf| && EmitsRaw(h)
    requires AddName(st, h.rr.name).Ok? && Tracks(AddName(st, h.rr.name).value, buf, NameStands(buf, s).value)
    requires NameStands(buf, s).value.off == o
    ensures var p := PackRR(st, Stored(h));
            p.Ok? && Tracks(p.value, buf, Spot(next, NameStands(buf, s).value.ptrs)) && p.value.buf <= buf
  {
    hide ReadHeld, UnpackName, NameStands, AddName, PackRR, RecordHeader, U16At, U32At, EmitsRaw, PackRData, Stored,
      Slice, Unpacked;
    var ptrs := NameStands(buf, s).value.ptrs;
    HeldFields(buf, s.off);
    StoredName(h);
    RawEmitted(h, o + 10, ptrs);
    WholeSlice(buf, o + 10, next);
    HeaderAgain(buf, o, h, |h.raw|);
    RecordFrom(st, Stored(h), h.raw, ptrs);
    ThreeParts(buf, o, next);
  }

  /** The record packed from a packed owner and known data. */
  lemma RecordFrom(st: State, rr: RR, data: bytes, ptrs: LabelPtrs)
    requires AddName(st, rr.name).Ok? && AddName(st, rr.name).value.ptrs == ptrs && |data| < 0x1_0000
    requires PackRData(rr.rdata, |AddName(st, rr.name).value.buf| + 10, ptrs) == Ok(PackedData(data, ptrs, false))
    ensures var p := PackRR(st, rr);
            && p.Ok? && p.value.ptrs == ptrs
            && p.value.buf == AddName(st, rr.name).value.buf + RecordHeader(rr, |data|) + data
  {
    hide PackRData, RecordHeader, AddName;
  }

  lemma ThreeParts(buf: bytes, o: nat, next: nat)
    requires o + 10 <= next <= |buf|
    ensures buf[..o] + buf[o..o + 10] + buf[o + 10..next] == buf[..next] <= buf
  {
  }

  /** Any other record comes out differently, or not at all. */
  lemma RecordDiffers(st: State, buf: bytes, s: Spot, h: Held, o: nat, next: nat)
    requires Tracks(st, buf, s) && ReadHeld(buf, s.off) == Ok((h, next)) && UnpackName(buf, s.off) == Ok((h.rr.name, o))
    requires NameStands(buf, s).Some? && !(next <= |buf| && EmitsRaw(h))
    requires AddName(st, h.rr.name).Ok? && Tracks(AddName(st, h.rr.name).value, buf, NameStands(buf, s).value)
    requires NameStands(buf, s).value.off == o
    ensures !(PackRR(st, Stored(h)).Ok? && PackRR(st, Stored(h)).value.buf <= buf)
  {
    hide ReadHeld, UnpackName, NameStands, AddName, PackRR, RecordHeader, U16At, U32At, EmitsRaw, PackRData, Stored,
      Slice, Unpacked;
    HeldFields(buf, s.off);
    StoredName(h);
    var p := PackRR(st, Stored(h));
    if p.Ok? && p.value.buf <= buf {
      var ptrs := NameStands(buf, s).value.ptrs;
      var data := RecordShape(st, Stored(h));
      HeaderBack(buf[..o], Stored(h), data, buf);
      if h.raw == [] {
        StoredEmpty(h);
        EmptyWire(h.rr.rdata, o + 10, ptrs);
      }
      EmitsOr(h);
    }
  }

  lemma RecordShape(st: State, rr: RR) returns (data: bytes)
    requires PackRR(st, rr).Ok?
    ensures AddName(st, rr.name).Ok?
    ensures var named := AddName(st, rr.name).value;
            var r := PackRData(rr.rdata, |named.buf| + 10, named.ptrs);
            && r.Ok? && data == r.value.wire && |data| < 0x1_0000
            && PackRR(st, rr).value.buf == named.buf + RecordHeader(rr, |data|) + data
  {
    hide PackRData, RecordHeader, AddName;
    var named := AddName(st, rr.name).value;
    data := PackRData(rr.rdata, |named.buf| + 10, named.ptrs).value.wire;
  }

  lemma StoredEmpty(h: Held)
    requires h.raw == []
    ensures Stored(h) == h.rr
  {
  }

  lemma EmitsOr(h: Held)
    ensures EmitsRaw(h) <==> |h.raw| > 0 || (h.rr.rdata.Verbatim? && HasOwnField(h.rr.rdata.vtype))
  {
  }

  lemma {:induction false} RecordsStep(st: State, buf: bytes, s: Spot, count: nat)
    requires Tracks(st, buf, s) && ReadHelds(buf, s.off, count).Ok?
    ensures var p := PackRRs(st, StoredAll(ReadHelds(buf, s.off, count).value.0));
            var r := RecordsStand(buf, s, count);
            && (p.Ok? && p.value.buf <= buf <==> r.Some?)
            && (r.Some? ==> Tracks(p.value, buf, r.value) && r.value.off == ReadHelds(buf, s.off, count).value.1)
    decreases count
  {
    hide ReadHeld, PackRR, Stored, RecordStands;
    if count > 0 {
      var (h, o) := ReadHeld(buf, s.off).value;
      var rest := ReadHelds(buf, o, count - 1).value.0;
      var all := StoredAll([h] + rest);
      assert ReadHelds(buf, s.off, count).value.0 == [h] + rest && all[0] == Stored(h) && all[1..] == StoredAll(rest);
      RecordStep(st, buf, s);
      if PackRR(st, Stored(h)).Ok? {
        var next := PackRR(st, Stored(h)).value;
        if RecordStands(buf, s).Some? {
          RecordsStep(next, buf, RecordStands(buf, s).value, count - 1);
        } else if PackRRs(next, StoredAll(rest)).Ok? {
          RRsGrow(next, StoredAll(rest));
          Prefixed(next.buf, PackRRs(next, StoredAll(rest)).value.buf, buf);
        }
      }
    }
  }

  // ---------- the message ----------

  lemma HeaderIs(buf: bytes, m: HeldMessage)
    requires ReadMessage(buf) == Ok(m)
    ensures CountsFit(StoredOf(m)) && Header(StoredOf(m)) == buf[..12]
  {
    hide UnpackQs, ReadHelds, U16At, Unpacked, BE;
    var qd := UnpackQs(buf, 12, U16At(buf, 4)).value;
    var an := ReadHelds(buf, qd.1, U16At(buf, 6)).value;
    var ns := ReadHelds(buf, an.1, U16At(buf, 8)).value;
    QsCounted(buf, 12, U16At(buf, 4));
    HeldsUnpacked(buf, qd.1, U16At(buf, 6));
    HeldsUnpacked(buf, an.1, U16At(buf, 8));
    HeldsUnpacked(buf, ns.1, U16At(buf, 10));
    NumberBack(buf, 0);
    NumberBack(buf, 2);
    NumberBack(buf, 4);
    NumberBack(buf, 6);
    NumberBack(buf, 8);
    NumberBack(buf, 10);
    assert buf[..12] == buf[0..2] + buf[2..4] + buf[4..6] + buf[6..8] + buf[8..10] + buf[10..12];
  }

  /** A section that differs makes the whole message differ. */
  lemma LaterDiffers(st: State, rrs: seq<RR>, buf: bytes)
    requires !(st.buf <= buf) && PackRRs(st, rrs).Ok?
    ensures !(PackRRs(st, rrs).value.buf <= buf)
  {
    RRsGrow(st, rrs);
    Prefixed(st.buf, PackRRs(st, rrs).value.buf, buf);
  }

  /** The three record sections behind the questions. */
  lemma SectionsStep(q: State, buf: bytes, s: Spot, an: seq<Held>, ns: seq<Held>, ar: seq<Held>, a: nat, b: nat, c: nat)
    requires Tracks(q, buf, s)
    requires ReadHelds(buf, s.off, a).Ok? && ReadHelds(buf, s.off, a).value.0 == an
    requires var o := ReadHelds(buf, s.off, a).value.1; ReadHelds(buf, o, b).Ok? && ReadHelds(buf, o, b).value.0 == ns
    requires var o := ReadHelds(buf, ReadHelds(buf, s.off, a).value.1, b).value.1;
             ReadHelds(buf, o, c).Ok? && ReadHelds(buf, o, c).value.0 == ar
    ensures var x := PackRRs(q, StoredAll(an));
            var y := if x.Ok? then PackRRs(x.value, StoredAll(ns)) else x;
            var z := if y.Ok? then PackRRs(y.value, StoredAll(ar)) else y;
            var r := RecordsStand(buf, s, a);
            var t := if r.Some? then RecordsStand(buf, r.value, b) else r;
            var u := if t.Some? then RecordsStand(buf, t.value, c) else t;
            (z.Ok? && z.value.buf <= buf <==> u.Some?) && (u.Some? ==> Tracks(z.value, buf, u.value))
  {
    hide ReadHelds, PackRRs, RecordsStand, Tracks, StoredAll;
    RecordsStep(q, buf, s, a);
    var x := PackRRs(q, StoredAll(an));
    var r := RecordsStand(buf, s, a);
    if r.Some? {
      RecordsStep(x.value, buf, r.value, b);
      var y := PackRRs(x.value, StoredAll(ns));
      var t := RecordsStand(buf, r.value, b);
      if t.Some? {
        RecordsStep(y.value, buf, t.value, c);
      } else if y.Ok? && PackRRs(y.value, StoredAll(ar)).Ok? {
        LaterDiffers(y.value, StoredAll(ar), buf);
      }
    } else if x.Ok? {
      var y := PackRRs(x.value, StoredAll(ns));
      if y.Ok? {
        LaterDiffers(x.value, StoredAll(ns), buf);
        if PackRRs(y.value, StoredAll(ar)).Ok? {
          LaterDiffers(y.value, StoredAll(ar), buf);
        }
      }
    }
  }

  /** For every message that unpacks: packed again it is the bytes that arrived if and only if it stands as written. */
  lemma IdentityExact(buf: bytes, m: HeldMessage)
    requires ReadMessage(buf) == Ok(m)
    ensures PackMessage(StoredOf(m)).Ok? && PackMessage(StoredOf(m)).value.buf == buf <==> AsWritten(buf)
  {
    hide PackMessage, AsWritten, ReadMessage, QuestionsStand, Header, U16At;
    HeaderIs(buf, m);
    MessageParts(buf, m);
    if QuestionsStand(buf, Spot(12, map[]), U16At(buf, 4)).Some? {
      StandingQuestions(buf, m);
    } else {
      NoQuestions(buf);
      if PackMessage(StoredOf(m)).Ok? {
        QuestionsDiffer(StoredOf(m), buf);
      }
    }
  }

  lemma NoQuestions(buf: bytes)
    requires |buf| >= 12 && QuestionsStand(buf, Spot(12, map[]), U16At(buf, 4)).None?
    ensures !AsWritten(buf)
  {
    hide QuestionsStand, RecordsStand, U16At;
  }

  /** The questions, packed behind the header. */
  lemma MessageParts(buf: bytes, m: HeldMessage)
    requires ReadMessage(buf) == Ok(m) && CountsFit(StoredOf(m)) && Header(StoredOf(m)) == buf[..12]
    ensures |buf| >= 12
    ensures var st := State(Header(StoredOf(m)), map[], false);
            var q := PackQs(st, m.qd);
            var r := QuestionsStand(buf, Spot(12, map[]), U16At(buf, 4));
            && (q.Ok? && q.value.buf <= buf <==> r.Some?)
            && (r.Some? ==> Tracks(q.value, buf, r.value) && r.value.off == UnpackQs(buf, 12, U16At(buf, 4)).value.1)
  {
    hide UnpackQs, ReadHelds, PackQs, QuestionsStand, U16At, Header;
    QuestionsStep(State(buf[..12], map[], false), buf, Spot(12, map[]), U16At(buf, 4));
  }

  /** When the questions stand, the sections decide. */
  lemma StandingQuestions(buf: bytes, m: HeldMessage)
    requires ReadMessage(buf) == Ok(m) && CountsFit(StoredOf(m)) && |buf| >= 12
    requires QuestionsStand(buf, Spot(12, map[]), U16At(buf, 4)).Some?
    requires var q := PackQs(State(Header(StoredOf(m)), map[], false), m.qd);
             var s := QuestionsStand(buf, Spot(12, map[]), U16At(buf, 4)).value;
             q.Ok? && Tracks(q.value, buf, s) && s.off == UnpackQs(buf, 12, U16At(buf, 4)).value.1
    ensures PackMessage(StoredOf(m)).Ok? && PackMessage(StoredOf(m)).value.buf == buf <==> AsWritten(buf)
  {
    hide UnpackQs, ReadHelds, PackQs, PackRRs, QuestionsStand, RecordsStand, U16At, Header, StoredAll;
    var q := PackQs(State(Header(StoredOf(m)), map[], false), m.qd).value;
    var s := QuestionsStand(buf, Spot(12, map[]), U16At(buf, 4)).value;
    SectionsStep(q, buf, s, m.an, m.ns, m.ar, U16At(buf, 6), U16At(buf, 8), U16At(buf, 10));
  }

  lemma QuestionsDiffer(m: Message, buf: bytes)
    requires PackMessage(m).Ok?
    requires var q := PackQs(State(Header(m), map[], false), m.qd); !(q.Ok? && q.value.buf <= buf)
    ensures PackMessage(m).value.buf != buf
  {
    hide PackQs, PackRRs, Header;
    var q := PackQs(State(Header(m), map[], false), m.qd).value;
    var an := PackRRs(q, m.an).value;
    var ns := PackRRs(an, m.ns).value;
    LaterDiffers(q, m.an, buf);
    LaterDiffers(an, m.ns, buf);
    LaterDiffers(ns, m.ar, buf);
  }
}
