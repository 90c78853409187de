/**
 DNS messages that are unpacked and packed again. Every unpacked record keeps the bytes of its rdata, and a record
 with such bytes emits them as they are, back pointers included, while owner names are compressed anew.
 */
module DnsReprint {
  import opened Bytes
  import opened DnsName
  import opened DnsMessage

  /** An unpacked record: its fields, and the rdata they were read from. */
  datatype Held = Held(rr: RR, raw: bytes)

  datatype HeldMessage = HeldMessage(id: u16, op: u16, qd: seq<Question>, an: seq<Held>, ns: seq<Held>, ar: seq<Held>)

  /** What pack_rdata makes of an unpacked record. */
  function Stored(h: Held): RR {
    if |h.raw| > 0 then h.rr.(rdata := Verbatim(TypeOf(h.rr.rdata), h.raw)) else h.rr
  }

  function StoredAll(hs: seq<Held>): (rrs: seq<RR>)
    ensures |rrs| == |hs|
  {
    seq(|hs|, i requires 0 <= i < |hs| => Stored(hs[i]))
  }

  function Fields(hs: seq<Held>): (rrs: seq<RR>)
    ensures |rrs| == |hs|
  {
    seq(|hs|, i requires 0 <= i < |hs| => hs[i].rr)
  }

  /** unpack_rr, keeping the rdata. */
  function ReadHeld(buf: bytes, off: nat): Result<(Held, nat)> {
    var (_, o) :- UnpackName(buf, off);
    var (rr, next) :- UnpackRR(buf, off);
    if o + 10 > |buf| then Err(UnpackError)
    else Ok((Held(rr, Slice(buf, o + 10, o + 10 + U16At(buf, o + 8))), next))
  }

  function ReadHelds(buf: bytes, off: nat, count: nat): Result<(seq<Held>, nat)>
    decreases count
  {
    if count == 0 then Ok(([], off))
    else
      var (h, o) :- ReadHeld(buf, off);
      var (rest, end) :- ReadHelds(buf, o, count - 1);
      Ok(([h] + rest, end))
  }

  /** DNS.unpack, keeping the rdata. */
  function ReadMessage(buf: bytes): Result<HeldMessage> {
    if |buf| < 12 then Err(NeedData)
    else
      var (qd, o1) :- UnpackQs(buf, 12, U16At(buf, 4));
      var (an, o2) :- ReadHelds(buf, o1, U16At(buf, 6));
      var (ns, o3) :- ReadHelds(buf, o2, U16At(buf, 8));
      var (ar, _) :- ReadHelds(buf, o3, U16At(buf, 10));
      Ok(HeldMessage(U16At(buf, 0), U16At(buf, 2), qd, an, ns, ar))
  }

  function FieldsOf(m: HeldMessage): Message {
    Message(m.id, m.op, m.qd, Fields(m.an), Fields(m.ns), Fields(m.ar))
  }

  function StoredOf(m: HeldMessage): Message {
    Message(m.id, m.op, m.qd, StoredAll(m.an), StoredAll(m.ns), StoredAll(m.ar))
  }

  // ---------- reading with and without the rdata ----------

  lemma HeldIsRR(buf: bytes, off: nat)
    ensures var h, r := ReadHeld(buf, off), UnpackRR(buf, off);
            if r.Err? then h == Err(r.error) else h.Ok? && h.value.0.rr == r.value.0 && h.value.1 == r.value.1
  {
    hide UnpackName, UnpackRData, U16At, U32At, Slice;
  }

  lemma {:induction false} HeldsAreRRs(buf: bytes, off: nat, count: nat)
    ensures var h, r := ReadHelds(buf, off, count), UnpackRRs(buf, off, count);
            if r.Err? then h == Err(r.error) else h.Ok? && Fields(h.value.0) == r.value.0 && h.value.1 == r.value.1
    decreases count
  {
    hide ReadHeld, UnpackRR;
    if count > 0 {
      HeldIsRR(buf, off);
      if UnpackRR(buf, off).Ok? {
        HeldsAreRRs(buf, UnpackRR(buf, off).value.1, count - 1);
        var rest := ReadHelds(buf, UnpackRR(buf, off).value.1, count - 1);
        if rest.Ok? {
          var h := ReadHeld(buf, off).value.0;
          assert Fields([h] + rest.value.0) == [h.rr] + Fields(rest.value.0);
        }
      }
    }
  }

  /** The fields of the unpacked message are those of DNS.unpack. */
  lemma ReadIsUnpack(buf: bytes)
    ensures var h, r := ReadMessage(buf), UnpackMessage(buf);
            if r.Err? then h == Err(r.error) else h.Ok? && FieldsOf(h.value) == r.value
  {
    hide UnpackQs, UnpackRRs, ReadHelds, U16At;
    if |buf| >= 12 {
      var qd := UnpackQs(buf, 12, U16At(buf, 4));
      if qd.Ok? {
        HeldsAreRRs(buf, qd.value.1, U16At(buf, 6));
        var an := UnpackRRs(buf, qd.value.1, U16At(buf, 6));
        if an.Ok? {
          HeldsAreRRs(buf, an.value.1, U16At(buf, 8));
          var ns := UnpackRRs(buf, an.value.1, U16At(buf, 8));
          if ns.Ok? {
            HeldsAreRRs(buf, ns.value.1, U16At(buf, 10));
          }
        }
      }
    }
  }

  // ---------- one record ----------

  /** Where the rdata of a record lands. */
  function DataAt(st: State, rr: RR): nat {
    var named := AddName(st, rr.name);
    if named.Ok? then |named.value.buf| + 10 else 0
  }

  /** The kept bytes, read at their new place, give the same fields. Without any, the fields themselves are packed. */
  predicate Rereads(final: bytes, at: nat, h: Held) {
    |h.raw| == 0 ||
    var d := UnpackRData(final, at, TypeOf(h.rr.rdata), h.raw);
    d.Ok? && SameRData(h.rr.rdata, d.value)
  }

  /** The names that are packed anew are valid: the owner's, and those of a record without rdata bytes. */
  ghost predicate Kept(h: Held) { ValidName(h.rr.name) && (|h.raw| == 0 ==> ValidRData(h.rr.rdata)) }

  /** Owner, class, time to live and extent of a record packed again always come back; its rdata if it rereads. */
  lemma RecordExact(st: State, h: Held, final: bytes)
    requires TableInv(st.buf, st.ptrs) && Kept(h)
    requires PackRR(st, Stored(h)).Ok? && !PackRR(st, Stored(h)).value.far && PackRR(st, Stored(h)).value.buf <= final
    ensures var st' := PackRR(st, Stored(h)).value;
            var r := UnpackRR(final, |st.buf|);
            && TableInv(st'.buf, st'.ptrs)
            && (r.Ok? && SameRR(h.rr, r.value.0) <==> Rereads(final, DataAt(st, h.rr), h))
            && (r.Ok? ==> r.value.1 == |st'.buf|)
  {
    hide UnpackLabels, PackLabels, TableInv, ValidName, UnpackName, SameName, Near, RecordHeader, UnpackRData,
      SameRData, U16At, U32At, Slice, PackName, ValidRData;
    var rr := Stored(h);
    if |h.raw| == 0 {
      RRTrips(st, rr, final);
      return;
    }
    var named := AddName(st, rr.name).value;
    var header := RecordHeader(rr, |h.raw|);
    HeaderBack(named.buf, rr, h.raw, final);
    NameAt(st.buf, rr.name, st.ptrs, final);
    TableInvExtend(named.buf, header, named.ptrs);
    TableInvExtend(named.buf + header, h.raw, named.ptrs);
  }

  // ---------- sections and messages ----------

  predicate RereadAll(st: State, hs: seq<Held>, final: bytes)
    decreases |hs|
  {
    |hs| == 0 ||
    (Rereads(final, DataAt(st, hs[0].rr), hs[0]) &&
     (PackRR(st, Stored(hs[0])).Ok? ==> RereadAll(PackRR(st, Stored(hs[0])).value, hs[1..], final)))
  }

  lemma {:induction false} SectionExact(st: State, hs: seq<Held>, final: bytes)
    requires TableInv(st.buf, st.ptrs) && forall i :: 0 <= i < |hs| ==> Kept(hs[i])
    requires var r := PackRRs(st, StoredAll(hs)); r.Ok? && !r.value.far && r.value.buf <= final
    ensures var st' := PackRRs(st, StoredAll(hs)).value;
            var r := UnpackRRs(final, |st.buf|, |hs|);
            && TableInv(st'.buf, st'.ptrs)
            && (r.Ok? && SameRRs(Fields(hs), r.value.0) <==> RereadAll(st, hs, final))
            && (RereadAll(st, hs, final) ==> r.value.1 == |st'.buf|)
    decreases |hs|
  {
    hide TableInv, Kept, PackRR, UnpackRR, SameRR, Rereads, Stored;
    if |hs| > 0 {
      var rrs := StoredAll(hs);
      assert rrs[1..] == StoredAll(hs[1..]);
      var next := PackRR(st, rrs[0]).value;
      RRsGrow(next, rrs[1..]);
      RecordExact(st, hs[0], final);
      SectionExact(next, hs[1..], final);
      ConsSame(final, |st.buf|, hs);
    }
  }

  /** A section is read back the same if and only if its first record and the rest are. */
  lemma ConsSame(final: bytes, off: nat, hs: seq<Held>)
    requires |hs| > 0
    ensures var one := UnpackRR(final, off);
            var all := UnpackRRs(final, off, |hs|);
            if one.Err? then all.Err?
            else
              var rest := UnpackRRs(final, one.value.1, |hs| - 1);
              && all.Ok? == rest.Ok?
              && (all.Ok? ==>
                    && all.value.1 == rest.value.1
                    && (SameRRs(Fields(hs), all.value.0) <==>
                        SameRR(hs[0].rr, one.value.0) && SameRRs(Fields(hs[1..]), rest.value.0)))
  {
    hide UnpackRR, SameRR, SameRRs;
    var one := UnpackRR(final, off);
    if one.Ok? {
      var rest := UnpackRRs(final, one.value.1, |hs| - 1);
      if rest.Ok? {
        var all, tail := UnpackRRs(final, off, |hs|).value.0, rest.value.0;
        assert all == [one.value.0] + tail && all[1..] == tail && Fields(hs)[1..] == Fields(hs[1..]);
        SameCons(Fields(hs), all);
      }
    }
  }

  lemma SameCons(a: seq<RR>, b: seq<RR>)
    requires |a| > 0 && |b| > 0
    ensures SameRRs(a, b) <==> SameRR(a[0], b[0]) && SameRRs(a[1..], b[1..])
  {
    hide SameRR;
    if SameRRs(a[1..], b[1..]) && SameRR(a[0], b[0]) {
      forall i | 0 <= i < |a| ensures SameRR(a[i], b[i]) {
        if i > 0 {
          assert a[i] == a[1..][i - 1] && b[i] == b[1..][i - 1];
        }
      }
    }
  }

  ghost predicate AllKept(m: HeldMessage) {
    && (forall i :: 0 <= i < |m.qd| ==> ValidName(m.qd[i].name))
    && (forall i :: 0 <= i < |m.an| ==> Kept(m.an[i]))
    && (forall i :: 0 <= i < |m.ns| ==> Kept(m.ns[i]))
    && (forall i :: 0 <= i < |m.ar| ==> Kept(m.ar[i]))
  }

  /** The states behind the questions and the first two record sections of a packed message. */
  ghost predicate Packing(m: Message, q: State, an: State, ns: State, ar: State) {
    && CountsFit(m) && PackQs(State(Header(m), map[], false), m.qd) == Ok(q)
    && PackRRs(q, m.an) == Ok(an) && PackRRs(an, m.ns) == Ok(ns) && PackRRs(ns, m.ar) == Ok(ar)
  }

  /** In the packed message each record's kept rdata rereads where it stands. */
  ghost predicate RereadMessage(m: HeldMessage, final: bytes) {
    var s := StoredOf(m);
    CountsFit(s) &&
    var q := PackQs(State(Header(s), map[], false), s.qd);
    q.Ok? && RereadAll(q.value, m.an, final) &&
    var an := PackRRs(q.value, s.an);
    an.Ok? && RereadAll(an.value, m.ns, final) &&
    var ns := PackRRs(an.value, s.ns);
    ns.Ok? && RereadAll(ns.value, m.ar, final)
  }

  lemma PackStates(m: Message) returns (q: State, an: State, ns: State, ar: State)
    requires PackMessage(m).Ok?
    ensures Packing(m, q, an, ns, ar) && PackMessage(m) == Ok(ar)
  {
    hide PackQs, PackRRs, Header;
    q := PackQs(State(Header(m), map[], false), m.qd).value;
    an := PackRRs(q, m.an).value;
    ns := PackRRs(an, m.ns).value;
    ar := PackRRs(ns, m.ar).value;
  }

  lemma ReprintStates(m: HeldMessage, q: State, an: State, ns: State, ar: State)
    requires AllKept(m) && Packing(StoredOf(m), q, an, ns, ar) && !ar.far
    ensures PackMessage(StoredOf(m)) == Ok(ar)
    ensures var r := UnpackMessage(ar.buf);
            (r.Ok? && SameMessage(FieldsOf(m), r.value)) <==> RereadMessage(m, ar.buf)
  {
    hide TableInv, Kept, ValidName, PackQs, PackRRs, UnpackQs, UnpackRRs, SameQs, SameRRs, U16At, Header, RereadAll;
    var s := StoredOf(m);
    var final := ar.buf;
    var st := State(Header(s), map[], false);
    QsGrow(st, s.qd);
    RRsGrow(q, s.an);
    RRsGrow(an, s.ns);
    RRsGrow(ns, s.ar);
    EmptyTable(Header(s));
    MessageHeaderBack(s, final);
    QsTrip(st, s.qd, final);
    SectionExact(q, m.an, final);
    SectionExact(an, m.ns, final);
    SectionExact(ns, m.ar, final);
  }

  // ---------- which received messages can be packed ----------

  /** What unpacking makes of a record: its verbatim data are the kept bytes, which fit a sixteen-bit length. */
  ghost predicate Unpacked(h: Held) {
    |h.raw| < 0x1_0000 && (h.rr.rdata.Verbatim? ==> h.rr.rdata.data == h.raw)
  }

  /** A NULL record without data, for which pack_rdata has nothing to emit. */
  predicate EmptyNull(h: Held) {
    |h.raw| == 0 && h.rr.rdata.Verbatim? && !HasOwnField(h.rr.rdata.vtype)
  }

  lemma HeldUnpacked(buf: bytes, off: nat)
    ensures ReadHeld(buf, off).Ok? ==> Unpacked(ReadHeld(buf, off).value.0)
  {
    hide UnpackName, UnpackRData, U16At, U32At, Slice;
    var r := ReadHeld(buf, off);
    if r.Ok? {
      var o := UnpackName(buf, off).value.1;
      SliceBound(buf, o + 10, o + 10 + U16At(buf, o + 8));
      VerbatimRead(buf, o + 10, U16At(buf, o), r.value.0.raw);
    }
  }

  lemma SliceBound(b: bytes, lo: nat, hi: nat)
    requires lo <= hi
    ensures |Slice(b, lo, hi)| <= hi - lo
  {
  }

  lemma VerbatimRead(buf: bytes, off: nat, t: u16, raw: bytes)
    ensures var r := UnpackRData(buf, off, t, raw); r.Ok? && r.value.Verbatim? ==> r.value.data == raw
  {
    hide UnpackName, U16At, U32At;
  }

  lemma {:induction false} HeldsUnpacked(buf: bytes, off: nat, count: nat)
    ensures var r := ReadHelds(buf, off, count);
            r.Ok? ==> |r.value.0| == count && forall i :: 0 <= i < count ==> Unpacked(r.value.0[i])
    decreases count
  {
    hide ReadHeld, Unpacked;
    if count > 0 && ReadHeld(buf, off).Ok? {
      HeldUnpacked(buf, off);
      HeldsUnpacked(buf, ReadHeld(buf, off).value.1, count - 1);
    }
  }

  lemma {:induction false} QsCounted(buf: bytes, off: nat, count: nat)
    ensures UnpackQs(buf, off, count).Ok? ==> |UnpackQs(buf, off, count).value.0| == count
    decreases count
  {
    hide UnpackQ;
    if count > 0 && UnpackQ(buf, off).Ok? {
      QsCounted(buf, UnpackQ(buf, off).value.1, count - 1);
    }
  }

  lemma RecordPacks(st: State, h: Held)
    requires Kept(h) && Unpacked(h)
    ensures PackRR(st, Stored(h)).Ok? <==> !EmptyNull(h)
  {
    hide PackName, ValidName, BE;
    NameOk(h.rr.name, |st.buf|, st.ptrs);
    if |h.raw| == 0 && !EmptyNull(h) {
      RROk(st, h.rr);
    }
  }

  lemma {:induction false} SectionPacks(st: State, hs: seq<Held>)
    requires forall i :: 0 <= i < |hs| ==> Kept(hs[i]) && Unpacked(hs[i])
    ensures PackRRs(st, StoredAll(hs)).Ok? <==> forall i :: 0 <= i < |hs| ==> !EmptyNull(hs[i])
    decreases |hs|
  {
    hide Kept, Unpacked, PackRR, Stored, EmptyNull;
    if |hs| > 0 {
      var rrs := StoredAll(hs);
      assert rrs[1..] == StoredAll(hs[1..]);
      RecordPacks(st, hs[0]);
      if PackRR(st, rrs[0]).Ok? {
        SectionPacks(PackRR(st, rrs[0]).value, hs[1..]);
        assert forall i :: 0 < i < |hs| ==> hs[i] == hs[1..][i - 1];
        assert forall i :: 0 <= i < |hs| - 1 ==> hs[1..][i] == hs[i + 1];
      }
    }
  }

  ghost predicate NoEmptyNull(m: HeldMessage) {
    && (forall i :: 0 <= i < |m.an| ==> !EmptyNull(m.an[i]))
    && (forall i :: 0 <= i < |m.ns| ==> !EmptyNull(m.ns[i]))
    && (forall i :: 0 <= i < |m.ar| ==> !EmptyNull(m.ar[i]))
  }

  ghost predicate AllUnpacked(m: HeldMessage) {
    && CountsFit(StoredOf(m))
    && (forall i :: 0 <= i < |m.an| ==> Unpacked(m.an[i]))
    && (forall i :: 0 <= i < |m.ns| ==> Unpacked(m.ns[i]))
    && (forall i :: 0 <= i < |m.ar| ==> Unpacked(m.ar[i]))
  }

  lemma ReadUnpacked(buf: bytes)
    ensures ReadMessage(buf).Ok? ==> AllUnpacked(ReadMessage(buf).value)
  {
    hide UnpackQs, ReadHelds, U16At, Unpacked;
    if ReadMessage(buf).Ok? {
      var qd := UnpackQs(buf, 12, U16At(buf, 4)).value;
      var an := ReadHelds(buf, qd.1, U16At(buf, 6)).value;
      var ns := ReadHelds(buf, an.1, U16At(buf, 8)).value;
      QsCounted(buf, 12, U16At(buf, 4));
      HeldsUnpacked(buf, qd.1, U16At(buf, 6));
      HeldsUnpacked(buf, an.1, U16At(buf, 8));
      HeldsUnpacked(buf, ns.1, U16At(buf, 10));
    }
  }

  /** A received message with valid names can be packed again if and only if it holds no empty NULL record. */
  lemma ReceivedPacks(buf: bytes, m: HeldMessage)
    requires ReadMessage(buf) == Ok(m) && AllKept(m)
    ensures PackMessage(StoredOf(m)).Ok? <==> NoEmptyNull(m)
  {
    hide ReadMessage, PackQs, PackRRs, Kept, Unpacked, ValidName, Header, EmptyNull;
    ReadUnpacked(buf);
    var s := StoredOf(m);
    var st := State(Header(s), map[], false);
    QsOk(st, s.qd);
    var q := PackQs(st, s.qd).value;
    SectionPacks(q, m.an);
    var an := PackRRs(q, s.an);
    if an.Ok? {
      SectionPacks(an.value, m.ns);
      var ns := PackRRs(an.value, s.ns);
      if ns.Ok? {
        SectionPacks(ns.value, m.ar);
      }
    }
  }

  lemma RecordNear(st: State, h: Held)
    requires TableInv(st.buf, st.ptrs) && Kept(h)
    requires !st.far && PackRR(st, Stored(h)).Ok? && |PackRR(st, Stored(h)).value.buf| <= POINTER_LIMIT
    ensures !PackRR(st, Stored(h)).value.far
  {
    hide TableInv, PackName, BE, ValidName, ValidRData, Near;
    if |h.raw| == 0 {
      RRNear(st, h.rr);
    } else {
      NameNear(st.buf, h.rr.name, st.ptrs);
    }
  }

  lemma {:induction false} SectionNear(st: State, hs: seq<Held>)
    requires TableInv(st.buf, st.ptrs) && forall i :: 0 <= i < |hs| ==> Kept(hs[i])
    requires !st.far && PackRRs(st, StoredAll(hs)).Ok? && |PackRRs(st, StoredAll(hs)).value.buf| <= POINTER_LIMIT
    ensures var st' := PackRRs(st, StoredAll(hs)).value; !st'.far && TableInv(st'.buf, st'.ptrs)
    decreases |hs|
  {
    hide TableInv, Kept, PackRR, Stored;
    if |hs| > 0 {
      var rrs := StoredAll(hs);
      assert rrs[1..] == StoredAll(hs[1..]);
      var next := PackRR(st, rrs[0]).value;
      RRsGrow(next, rrs[1..]);
      RecordNear(st, hs[0]);
      RecordExact(st, hs[0], next.buf);
      SectionNear(next, hs[1..]);
    }
  }

  /** All pointers of a message packed into at most 16384 bytes are near. */
  lemma ReceivedNear(m: HeldMessage)
    requires AllKept(m) && PackMessage(StoredOf(m)).Ok?
    ensures var st := PackMessage(StoredOf(m)).value; |st.buf| <= POINTER_LIMIT ==> !st.far
  {
    hide TableInv, Kept, ValidName, PackQs, PackRRs, Header;
    var s := StoredOf(m);
    var q, an, ns, ar := PackStates(s);
    if |ar.buf| <= POINTER_LIMIT {
      RRsGrow(q, s.an);
      RRsGrow(an, s.ns);
      RRsGrow(ns, s.ar);
      EmptyTable(Header(s));
      QsNear(State(Header(s), map[], false), s.qd);
      SectionNear(q, m.an);
      SectionNear(an, m.ns);
      SectionNear(ns, m.ar);
    }
  }

  /**
   A received message with valid names and no empty NULL record is packed again, and if all its new pointers are near,
   it then unpacks to the same message if and only if the kept rdata of each record still reads the same where it now
   stands.
   */
  lemma ReprintExact(buf: bytes, m: HeldMessage)
    requires ReadMessage(buf) == Ok(m) && AllKept(m) && NoEmptyNull(m)
    ensures UnpackMessage(buf) == Ok(FieldsOf(m)) && PackMessage(StoredOf(m)).Ok?
    ensures var st := PackMessage(StoredOf(m)).value;
            var back := UnpackMessage(st.buf);
            !st.far ==> (back.Ok? && SameMessage(FieldsOf(m), back.value) <==> RereadMessage(m, st.buf))
  {
    hide ReadMessage, UnpackMessage, PackMessage, AllKept, NoEmptyNull, SameMessage, RereadMessage, Packing;
    ReadIsUnpack(buf);
    ReceivedPacks(buf, m);
    var q, an, ns, ar := PackStates(StoredOf(m));
    if !ar.far {
      ReprintStates(m, q, an, ns, ar);
    }
  }

  // ---------- rdata without back pointers ----------

  /** A name spelled out in full, without a back pointer. */
  predicate PlainName(b: bytes, off: nat, nl: nat)
    decreases |b| - off
  {
    nl <= MAX_NAME && off < |b| &&
    var n := b[off] as int;
    n == 0 || (n < 0x40 && off + 1 + n <= |b| && nl + n + 1 <= MAX_NAME && PlainName(b, off + 1 + n, nl + n + 1))
  }

  /** Such a name reads the same wherever its bytes stand. */
  lemma {:induction false} PlainMoves(pre: bytes, b: bytes, post: bytes, off: nat, start: nat, start': nat, nl: nat)
    requires PlainName(b, off, nl)
    ensures var r := UnpackLabels(b, off, start, nl);
            r.Ok? && UnpackLabels(pre + b + post, |pre| + off, start', nl) == Ok(r.value.(next := |pre| + r.value.next))
    decreases |b| - off
  {
    hide UnpackLabels, Slice;
    var buf := pre + b + post;
    var n := b[off] as int;
    assert buf[|pre| + off] == b[off];
    if n == 0 {
      EndCase(b, off, start, nl);
      EndCase(buf, |pre| + off, start', nl);
    } else {
      PlainMoves(pre, b, post, off + 1 + n, start, start', nl + n + 1);
      LabelCase(b, off, start, nl);
      LabelCase(buf, |pre| + off, start', nl);
      SliceMoves(pre, b, post, off + 1, off + 1 + n);
    }
  }

  lemma SliceMoves(pre: bytes, b: bytes, post: bytes, lo: nat, hi: nat)
    requires lo <= hi <= |b|
    ensures Slice(pre + b + post, |pre| + lo, |pre| + hi) == Slice(b, lo, hi)
  {
    assert (pre + b + post)[|pre| + lo..|pre| + hi] == b[lo..hi];
  }

  lemma NameMoves(pre: bytes, b: bytes, post: bytes, off: nat)
    requires PlainName(b, off, 0)
    ensures var r := UnpackName(b, off);
            r.Ok? && UnpackName(pre + b + post, |pre| + off) == Ok((r.value.0, |pre| + r.value.1)) && r.value.1 <= |b|
  {
    hide UnpackLabels;
    PlainMoves(pre, b, post, off, off, |pre| + off, 0);
  }

  /** Rdata of a type that is read back, complete and with its names spelled out. */
  predicate PlainData(t: u16, raw: bytes) {
    if IsHostType(t) then PlainName(raw, 0, 0)
    else if t == MX then |raw| >= 2 && PlainName(raw, 2, 0)
    else if t == SRV then |raw| >= 6 && PlainName(raw, 6, 0)
    else if t == SOA then
      PlainName(raw, 0, 0) &&
      var m := UnpackName(raw, 0);
      m.Ok? && PlainName(raw, m.value.1, 0) &&
      var r := UnpackName(raw, m.value.1);
      r.Ok? && r.value.1 + 20 <= |raw|
    else IsVerbatimType(t)
  }

  lemma NumberMoves(pre: bytes, b: bytes, post: bytes, off: nat)
    requires off + 4 <= |b|
    ensures U32At(pre + b + post, |pre| + off) == U32At(b, off)
  {
    assert (pre + b + post)[|pre| + off..|pre| + off + 4] == b[off..off + 4];
  }

  lemma DataMoves(pre: bytes, raw: bytes, post: bytes, t: u16)
    requires PlainData(t, raw)
    ensures var r := UnpackRData(raw, 0, t, raw);
            r.Ok? && TypeOf(r.value) == t && UnpackRData(pre + raw + post, |pre|, t, raw) == r
  {
    hide UnpackName, PlainName, U16At, U32At;
    if IsHostType(t) {
      NameMoves(pre, raw, post, 0);
    } else if t == MX {
      NameMoves(pre, raw, post, 2);
    } else if t == SRV {
      NameMoves(pre, raw, post, 6);
    } else if t == SOA {
      AuthorityMoves(pre, raw, post);
    }
  }

  lemma AuthorityMoves(pre: bytes, raw: bytes, post: bytes)
    requires PlainData(SOA, raw)
    ensures var r := UnpackRData(raw, 0, SOA, raw);
            r.Ok? && TypeOf(r.value) == SOA && UnpackRData(pre + raw + post, |pre|, SOA, raw) == r
  {
    hide UnpackName, PlainName, U16At, U32At;
    NameMoves(pre, raw, post, 0);
    var o1 := UnpackName(raw, 0).value.1;
    NameMoves(pre, raw, post, o1);
    var o2 := UnpackName(raw, o1).value.1;
    NumberMoves(pre, raw, post, o2);
    NumberMoves(pre, raw, post, o2 + 4);
    NumberMoves(pre, raw, post, o2 + 8);
    NumberMoves(pre, raw, post, o2 + 12);
    NumberMoves(pre, raw, post, o2 + 16);
  }

  /** The fields of a record are what its own bytes say, wherever they stand. */
  ghost predicate Portable(h: Held) {
    PlainData(TypeOf(h.rr.rdata), h.raw) && UnpackRData(h.raw, 0, TypeOf(h.rr.rdata), h.raw) == Ok(h.rr.rdata)
  }

  lemma HeldPortable(buf: bytes, off: nat)
    ensures var r := ReadHeld(buf, off);
            r.Ok? && PlainData(TypeOf(r.value.0.rr.rdata), r.value.0.raw) ==> Portable(r.value.0)
  {
    hide UnpackName, UnpackRData, PlainData, U32At;
    var r := ReadHeld(buf, off);
    if r.Ok? && PlainData(TypeOf(r.value.0.rr.rdata), r.value.0.raw) {
      var o, raw := UnpackName(buf, off).value.1 + 10, r.value.0.raw;
      var t := U16At(buf, o - 10);
      TypeRead(buf, o, t, raw);
      Around(buf, o, o + U16At(buf, o - 2));
      DataMoves(buf[..o], raw, buf[o + |raw|..], t);
    }
  }

  lemma Around(buf: bytes, lo: nat, hi: nat)
    requires lo <= |buf| && lo <= hi
    ensures var raw := Slice(buf, lo, hi); lo + |raw| <= |buf| && buf == buf[..lo] + raw + buf[lo + |raw|..]
  {
    var raw := Slice(buf, lo, hi);
    assert raw == buf[lo..lo + |raw|];
    assert buf[lo..] == raw + buf[lo + |raw|..];
  }

  lemma TypeRead(buf: bytes, off: nat, t: u16, raw: bytes)
    ensures UnpackRData(buf, off, t, raw).Ok? ==> TypeOf(UnpackRData(buf, off, t, raw).value) == t
  {
    hide UnpackName, U16At, U32At;
  }

  lemma SameDataRefl(rd: RData)
    ensures SameRData(rd, rd)
  {
    hide SameName;
    NameRefl();
  }

  lemma NameRefl()
    ensures forall n: bytes :: SameName(n, n)
  {
  }

  /** A portable record rereads wherever it lands. */
  lemma PortableRereads(st: State, h: Held, final: bytes)
    requires Portable(h) && Kept(h) && PackRR(st, Stored(h)).Ok? && PackRR(st, Stored(h)).value.buf <= final
    ensures Rereads(final, DataAt(st, h.rr), h)
  {
    hide UnpackName, PackName, UnpackRData, PlainData, ValidName, SameRData, RecordHeader, ValidRData;
    if |h.raw| == 0 {
      return;
    }
    var packed := PackRR(st, Stored(h)).value.buf;
    var at := DataAt(st, h.rr);
    var post := final[|packed|..];
    assert packed == packed[..at] + h.raw;
    assert final == packed[..at] + h.raw + post;
    DataMoves(packed[..at], h.raw, post, TypeOf(h.rr.rdata));
    SameDataRefl(h.rr.rdata);
  }

  lemma {:induction false} SectionPortable(st: State, hs: seq<Held>, final: bytes)
    requires forall i :: 0 <= i < |hs| ==> Kept(hs[i]) && Portable(hs[i])
    requires var r := PackRRs(st, StoredAll(hs)); r.Ok? && r.value.buf <= final
    ensures RereadAll(st, hs, final)
    decreases |hs|
  {
    hide Kept, Portable, PackRR, Rereads, Stored, DataAt;
    if |hs| > 0 {
      var rrs := StoredAll(hs);
      assert rrs[1..] == StoredAll(hs[1..]);
      RRsGrow(PackRR(st, rrs[0]).value, rrs[1..]);
      PortableRereads(st, hs[0], final);
      SectionPortable(PackRR(st, rrs[0]).value, hs[1..], final);
    }
  }

  ghost predicate Spelled(hs: seq<Held>) {
    forall i :: 0 <= i < |hs| ==> PlainData(TypeOf(hs[i].rr.rdata), hs[i].raw)
  }

  lemma {:induction false} HeldsPortable(buf: bytes, off: nat, count: nat)
    ensures var r := ReadHelds(buf, off, count);
            r.Ok? && Spelled(r.value.0) ==> forall i :: 0 <= i < |r.value.0| ==> Portable(r.value.0[i])
    decreases count
  {
    hide ReadHeld, PlainData, Portable;
    var r := ReadHelds(buf, off, count);
    if count > 0 && r.Ok? && Spelled(r.value.0) {
      HeldPortable(buf, off);
      var (h, o) := ReadHeld(buf, off).value;
      HeldsPortable(buf, o, count - 1);
      var rest := ReadHelds(buf, o, count - 1).value.0;
      assert r.value.0 == [h] + rest;
      forall i | 0 <= i < |rest| ensures PlainData(TypeOf(rest[i].rr.rdata), rest[i].raw) {
        assert rest[i] == r.value.0[i + 1];
      }
    }
  }

  /**
   A received message whose names in rdata are all spelled out, and which is packed again with near pointers, unpacks
   to the same message, however its owner names were compressed when it arrived.
   */
  lemma SpelledSurvives(buf: bytes, m: HeldMessage)
    requires ReadMessage(buf) == Ok(m) && AllKept(m) && NoEmptyNull(m)
    requires Spelled(m.an) && Spelled(m.ns) && Spelled(m.ar)
    ensures UnpackMessage(buf) == Ok(FieldsOf(m)) && PackMessage(StoredOf(m)).Ok?
    ensures var st := PackMessage(StoredOf(m)).value;
            !st.far ==> UnpackMessage(st.buf).Ok? && SameMessage(FieldsOf(m), UnpackMessage(st.buf).value)
  {
    hide PackMessage, UnpackMessage, ReadMessage, SameMessage, RereadMessage, AllKept, NoEmptyNull, Spelled, Packing;
    ReprintExact(buf, m);
    var q, an, ns, ar := PackStates(StoredOf(m));
    SpelledRereads(buf, m, q, an, ns, ar);
  }

  lemma SpelledRereads(buf: bytes, m: HeldMessage, q: State, an: State, ns: State, ar: State)
    requires ReadMessage(buf) == Ok(m) && Spelled(m.an) && Spelled(m.ns) && Spelled(m.ar)
    requires AllKept(m) && Packing(StoredOf(m), q, an, ns, ar)
    ensures RereadMessage(m, ar.buf)
  {
    hide UnpackQs, ReadHelds, PackRRs, UnpackMessage, SameMessage, Portable, Kept, Spelled, RereadAll, U16At, ValidName;
    var o1 := UnpackQs(buf, 12, U16At(buf, 4)).value.1;
    HeldsPortable(buf, o1, U16At(buf, 6));
    var o2 := ReadHelds(buf, o1, U16At(buf, 6)).value.1;
    HeldsPortable(buf, o2, U16At(buf, 8));
    HeldsPortable(buf, ReadHelds(buf, o2, U16At(buf, 8)).value.1, U16At(buf, 10));
    RRsGrow(an, StoredAll(m.ns));
    RRsGrow(ns, StoredAll(m.ar));
    SectionPortable(q, m.an, ar.buf);
    SectionPortable(an, m.ns, ar.buf);
    SectionPortable(ns, m.ar, ar.buf);
  }

  // ---------- a back pointer that goes stale ----------

  const HEAD: bytes := [0, 0, 0, 0, 0, 0, 0, 3, 0, 0, 0, 0]

  /** Type, class, time to live and length of an NS record with n bytes of rdata. */
  function HostHead(n: byte): (h: bytes)
    ensures |h| == 10
  {
    [0, 2, 0, 1, 0, 0, 0, 0, 0, n]
  }

  /** Three NS records behind the first owner name "": host "a", then `owner` with host "c", then "" with a pointer. */
  function Records(owner: bytes): (b: bytes)
    ensures |b| == 52 + |owner|
  {
    HEAD + ([0] + HostHead(3) + [1, 97, 0]) + (owner + HostHead(3) + [1, 99, 0]) + ([0] + HostHead(2) + [192, 38])
  }

  /** As it arrived: the second owner is a pointer to the first host, and the last host a pointer to 38, the "c". */
  const POINTED: bytes := [192, 23]

  /** Packed again, the second owner is spelled out, and the last host still says 38. */
  const SPELLED: bytes := [1, 97, 0]

  function HostRecord(owner: bytes, host: bytes): RR { RR(owner, 1, 0, Host(NS, host)) }

  function ArrivedRecords(): seq<Held> {
    [Held(HostRecord([], [97]), [1, 97, 0]), Held(HostRecord([97], [99]), [1, 99, 0]),
     Held(HostRecord([], [99]), [192, 38])]
  }

  function ArrivedMessage(): HeldMessage {
    HeldMessage(0, 0, [], ArrivedRecords(), [], [])
  }

  lemma OneLetter(buf: bytes, off: nat, n: nat)
    requires 0 < n < 0x40 && off + n + 2 <= |buf| && buf[off] as int == n && buf[off + 1 + n] == 0
    ensures UnpackName(buf, off) == Ok((buf[off + 1..off + 1 + n], off + n + 2))
  {
    hide UnpackLabels;
    LabelCase(buf, off, off, 0);
    EndCase(buf, off + 1 + n, off, n + 1);
    UnpackNameIs(buf, off);
  }

  lemma NoLetter(buf: bytes, off: nat)
    requires off < |buf| && buf[off] == 0
    ensures UnpackName(buf, off) == Ok(([], off + 1))
  {
    hide UnpackLabels;
    EndCase(buf, off, off, 0);
    UnpackNameIs(buf, off);
  }

  lemma Pointed(buf: bytes, off: nat)
    requires off + 2 <= |buf| && buf[off] == 192 && buf[off + 1] as int < off
    requires UnpackName(buf, buf[off + 1] as int).Ok?
    ensures UnpackName(buf, off) == Ok((UnpackName(buf, buf[off + 1] as int).value.0, off + 2))
  {
    hide UnpackLabels;
    Number(buf, off);
    PointerCase(buf, off, off, 0, buf[off + 1] as int);
    UnpackNameIs(buf, off);
    UnpackNameIs(buf, buf[off + 1] as int);
  }

  lemma Number(buf: bytes, off: nat)
    requires off + 2 <= |buf|
    ensures UnBE(buf[off..off + 2]) == 256 * buf[off] as int + buf[off + 1] as int
    ensures U16At(buf, off) == 256 * buf[off] as int + buf[off + 1] as int
  {
    var w := buf[off..off + 2];
    assert w[..1] == [buf[off]] && w[..1][..0] == [];
    assert UnBE(w[..1]) == buf[off] as int;
  }

  lemma ZeroNumber(buf: bytes, off: nat)
    requires off + 4 <= |buf| && forall i :: off <= i < off + 4 ==> buf[i] == 0
    ensures U32At(buf, off) == 0
  {
    var w := buf[off..off + 4];
    assert UnBE(w[..1][..0]) == 0;
    assert w[..2][..1] == w[..1] && w[..3][..2] == w[..2] && w[..4] == w && w[..1][0] == 0;
    assert UnBE(w[..1]) == 0 && UnBE(w[..2]) == 0 && UnBE(w[..3]) == 0;
  }

  /** An NS record of class 1 and time to live 0 behind its owner name. */
  predicate HostAt(buf: bytes, o: nat, n: byte) {
    o + 10 <= |buf| && buf[o..o + 10] == HostHead(n)
  }

  lemma HostHeld(buf: bytes, off: nat, o: nat, n: byte, owner: bytes, host: bytes)
    requires UnpackName(buf, off) == Ok((owner, o)) && HostAt(buf, o, n)
    requires UnpackName(buf, o + 10).Ok? && UnpackName(buf, o + 10).value.0 == host
    ensures var raw := Slice(buf, o + 10, o + 10 + n as int);
            ReadHeld(buf, off) == Ok((Held(HostRecord(owner, host), raw), o + 10 + n as int))
  {
    hide UnpackName, U16At, U32At, Slice, HostAt;
    HostFields(buf, o, n);
  }

  lemma HostFields(buf: bytes, o: nat, n: byte)
    requires HostAt(buf, o, n)
    ensures o + 10 <= |buf| && U16At(buf, o) == NS && U16At(buf, o + 2) == 1 && U32At(buf, o + 4) == 0
    ensures U16At(buf, o + 8) == n as int
  {
    hide U16At, U32At;
    var h := buf[o..o + 10];
    forall i | o <= i < o + 10 ensures buf[i] == h[i - o] {}
    Number(buf, o);
    Number(buf, o + 2);
    ZeroNumber(buf, o + 4);
    Number(buf, o + 8);
  }

  lemma ConsHeld(buf: bytes, off: nat, count: nat, h: Held, next: nat, rest: seq<Held>, end: nat)
    requires count > 0 && ReadHeld(buf, off) == Ok((h, next)) && ReadHelds(buf, next, count - 1) == Ok((rest, end))
    ensures ReadHelds(buf, off, count) == Ok(([h] + rest, end))
  {
    hide ReadHeld;
  }

  lemma RecordParts(owner: bytes)
    ensures var buf, m := Records(owner), 26 + |owner|;
            && buf[..12] == HEAD && buf[12] == 0 && HostAt(buf, 13, 3) && buf[23..26] == [1, 97, 0]
            && buf[26..m] == owner && HostAt(buf, m, 3) && buf[m + 10..m + 13] == [1, 99, 0]
            && buf[m + 13] == 0 && HostAt(buf, m + 14, 2) && buf[m + 24..m + 26] == [192, 38]
  {
    hide HostHead;
    var buf, m := Records(owner), 26 + |owner|;
    var a, b, c := [0] + HostHead(3) + [1, 97, 0], owner + HostHead(3) + [1, 99, 0], [0] + HostHead(2) + [192, 38];
    assert buf[..12] == HEAD && buf[12..26] == a && buf[26..m + 13] == b && buf[m + 13..] == c;
    assert a[0] == 0 && a[1..11] == HostHead(3) && a[11..] == [1, 97, 0];
    assert b[..|owner|] == owner && b[|owner|..|owner| + 10] == HostHead(3) && b[|owner| + 10..] == [1, 99, 0];
    assert c[0] == 0 && c[1..11] == HostHead(2) && c[11..] == [192, 38];
    SubSlice(buf, 12, 26, 1, 11);
    SubSlice(buf, 12, 26, 11, 14);
    SubSlice(buf, 26, m + 13, 0, |owner|);
    SubSlice(buf, 26, m + 13, |owner|, |owner| + 10);
    SubSlice(buf, 26, m + 13, |owner| + 10, |owner| + 13);
    SubSlice(buf, m + 13, m + 26, 1, 11);
    SubSlice(buf, m + 13, m + 26, 11, 13);
  }

  lemma SubSlice(buf: bytes, lo: nat, hi: nat, i: nat, j: nat)
    requires lo <= hi <= |buf| && i <= j <= hi - lo
    ensures buf[lo..hi][i..j] == buf[lo + i..lo + j]
  {
    var x, y := buf[lo..hi][i..j], buf[lo + i..lo + j];
    forall k | 0 <= k < j - i ensures x[k] == y[k] {
      assert buf[lo..hi][i + k] == buf[lo + (i + k)];
    }
    assert x == y;
  }

  lemma ArrivedNames(buf: bytes)
    requires buf == Records(POINTED)
    ensures UnpackName(buf, 12) == Ok(([], 13)) && UnpackName(buf, 23) == Ok(([97], 26))
    ensures UnpackName(buf, 26) == Ok(([97], 28)) && UnpackName(buf, 38) == Ok(([99], 41))
    ensures UnpackName(buf, 41) == Ok(([], 42)) && UnpackName(buf, 52) == Ok(([99], 54))
  {
    hide UnpackName, Records, HostAt;
    RecordParts(POINTED);
    SubSlice(buf, 23, 26, 1, 2);
    SubSlice(buf, 38, 41, 1, 2);
    Triple(buf, 23, 97);
    Triple(buf, 38, 99);
    NoLetter(buf, 12);
    OneLetter(buf, 23, 1);
    Pair(buf, 26, 23);
    Pointed(buf, 26);
    OneLetter(buf, 38, 1);
    NoLetter(buf, 41);
    Pair(buf, 52, 38);
    Pointed(buf, 52);
  }

  lemma Triple(buf: bytes, off: nat, c: byte)
    requires off + 3 <= |buf| && buf[off..off + 3] == [1, c, 0]
    ensures buf[off] == 1 && buf[off + 2] == 0 && buf[off + 1..off + 2] == [c]
  {
    var t := buf[off..off + 3];
    assert buf[off] == t[0] && buf[off + 1] == t[1] && buf[off + 2] == t[2];
  }

  lemma Pair(buf: bytes, off: nat, p: byte)
    requires off + 2 <= |buf| && buf[off..off + 2] == [192, p]
    ensures buf[off] == 192 && buf[off + 1] == p
  {
    var t := buf[off..off + 2];
    assert buf[off] == t[0] && buf[off + 1] == t[1];
  }

  lemma HeaderNumbers(buf: bytes, an: byte)
    requires |buf| >= 12 && buf[..12] == [0, 0, 0, 0, 0, 0, 0, an, 0, 0, 0, 0]
    ensures U16At(buf, 0) == U16At(buf, 2) == U16At(buf, 4) == U16At(buf, 8) == U16At(buf, 10) == 0
    ensures U16At(buf, 6) == an as int
  {
    hide U16At;
    var h := buf[..12];
    assert forall i :: 0 <= i < 12 ==> buf[i] == h[i];
    Number(buf, 0);
    Number(buf, 2);
    Number(buf, 4);
    Number(buf, 6);
    Number(buf, 8);
    Number(buf, 10);
  }

  lemma ArrivedRead(buf: bytes)
    requires buf == Records(POINTED)
    ensures ReadMessage(buf) == Ok(ArrivedMessage())
  {
    hide ReadHelds, U16At, ArrivedRecords, Records, HostAt;
    ArrivedNames(buf);
    RecordParts(POINTED);
    HeaderNumbers(buf, 3);
    ArrivedList(buf);
    NoHelds(buf, 12);
    NoHelds(buf, 54);
  }

  lemma NoHelds(buf: bytes, off: nat)
    ensures ReadHelds(buf, off, 0) == Ok(([], off)) && UnpackQs(buf, off, 0) == Ok(([], off))
  {
  }

  lemma ArrivedList(buf: bytes)
    requires |buf| == 54 && HostAt(buf, 13, 3) && HostAt(buf, 28, 3) && HostAt(buf, 42, 2)
    requires buf[23..26] == [1, 97, 0] && buf[38..41] == [1, 99, 0] && buf[52..54] == [192, 38]
    requires UnpackName(buf, 12) == Ok(([], 13)) && UnpackName(buf, 23) == Ok(([97], 26))
    requires UnpackName(buf, 26) == Ok(([97], 28)) && UnpackName(buf, 38) == Ok(([99], 41))
    requires UnpackName(buf, 41) == Ok(([], 42)) && UnpackName(buf, 52) == Ok(([99], 54))
    ensures ReadHelds(buf, 12, 3) == Ok((ArrivedRecords(), 54))
  {
    hide UnpackName, ReadHeld, HostRecord, HostAt;
    HostHeld(buf, 12, 13, 3, [], [97]);
    HostHeld(buf, 26, 28, 3, [97], [99]);
    HostHeld(buf, 41, 42, 2, [], [99]);
    var hs := ArrivedRecords();
    assert [hs[2]] + [] == hs[2..] && [hs[1]] + hs[2..] == hs[1..] && [hs[0]] + hs[1..] == hs;
    NoHelds(buf, 54);
    ConsHeld(buf, 41, 1, hs[2], 54, [], 54);
    ConsHeld(buf, 26, 2, hs[1], 41, hs[2..], 54);
    ConsHeld(buf, 12, 3, hs[0], 26, hs[1..], 54);
  }

  lemma RootName(off: nat, ptrs: LabelPtrs)
    requires [] !in ptrs
    ensures PackName([], off, ptrs) == Ok(Packed([0], ptrs, None))
  {
    assert Labels([]) == [] && Key([]) == [];
  }

  lemma TwoBytes(n: nat)
    requires n < 256
    ensures BE(n, 2) == [0, n as byte] && BE(0, 4) == [0, 0, 0, 0]
  {
    var zero: bytes := [0];
    assert BE(0, 0) == [] && BE(0, 1) == [] + zero == zero && BE(0, 2) == zero + zero == [0, 0];
    assert BE(0, 3) == [0, 0] + zero == [0, 0, 0] && BE(0, 4) == [0, 0, 0] + zero;
    assert n / 256 == 0 && BE(n, 2) == BE(0, 1) + [n as byte];
  }

  lemma HeadsPacked(rr: RR, n: nat)
    requires TypeOf(rr.rdata) == NS && rr.cls == 1 && rr.ttl == 0 && n < 256
    ensures RecordHeader(rr, n) == HostHead(n as byte)
    ensures Header(StoredOf(ArrivedMessage())) == HEAD
  {
    hide BE;
    TwoBytes(NS);
    TwoBytes(1);
    TwoBytes(0);
    TwoBytes(3);
    TwoBytes(n);
  }

  /** Packing one of the records, given what packing its owner name yields. */
  lemma StoredPacked(st: State, h: Held, p: Packed)
    requires PackName(h.rr.name, |st.buf|, st.ptrs) == Ok(p) && p.target == None
    requires h.rr.rdata.Host? && h.rr.rdata.rtype == NS && h.rr.cls == 1 && h.rr.ttl == 0 && 0 < |h.raw| < 256
    ensures PackRR(st, Stored(h)) == Ok(State(st.buf + p.wire + HostHead(|h.raw| as byte) + h.raw, p.ptrs, st.far))
    ensures DataAt(st, h.rr) == |st.buf| + |p.wire| + 10
  {
    hide PackName, RecordHeader, HostHead;
    HeadsPacked(Stored(h), |h.raw|);
  }

  lemma Repacked() returns (st2: State, st3: State)
    ensures var m := ArrivedMessage();
            var st0 := State(Header(StoredOf(m)), map[], false);
            && Packing(StoredOf(m), st0, st3, st3, st3) && st3.buf == Records(SPELLED) && !st3.far
            && (RereadAll(st0, m.an, st3.buf) ==> Rereads(st3.buf, 53, m.an[2]))
  {
    hide PackName, Key, Header, HostHead, PackRR, Rereads, DataAt;
    var hs := ArrivedRecords();
    var s := StoredOf(ArrivedMessage());
    var st0 := State(Header(s), map[], false);
    HeadsPacked(Stored(hs[0]), 3);
    RootName(12, map[]);
    StoredPacked(st0, hs[0], Packed([0], map[], None));
    var st1 := PackRR(st0, Stored(hs[0])).value;
    OneLetterName(26);
    var ptrs := map[Key([[97]]) := 26];
    StoredPacked(st1, hs[1], Packed([1, 97, 0], ptrs, None));
    st2 := PackRR(st1, Stored(hs[1])).value;
    KeyLength([[97]]);
    assert WireLen([[97]]) == 2;
    RootName(42, ptrs);
    StoredPacked(st2, hs[2], Packed([0], ptrs, None));
    st3 := PackRR(st2, Stored(hs[2])).value;
    SpelledBytes(st1.buf, st2.buf, st3.buf);
    ThreeRecords(st0, st1, st2, st3, s.an);
    ThreeReread(st0, st1, st2, hs, st3.buf);
  }

  lemma SpelledBytes(one: bytes, two: bytes, three: bytes)
    requires one == HEAD + [0] + HostHead(3) + [1, 97, 0]
    requires two == one + [1, 97, 0] + HostHead(3) + [1, 99, 0]
    requires three == two + [0] + HostHead(2) + [192, 38]
    ensures three == Records(SPELLED)
  {
    hide HostHead;
    var a, b := [0] + HostHead(3) + [1, 97, 0], [1, 97, 0] + HostHead(3) + [1, 99, 0];
    assert one == HEAD + a && two == one + b;
    assert three == two + ([0] + HostHead(2) + [192, 38]);
  }

  lemma ThreeReread(st0: State, st1: State, st2: State, hs: seq<Held>, final: bytes)
    requires |hs| == 3 && PackRR(st0, Stored(hs[0])) == Ok(st1) && PackRR(st1, Stored(hs[1])) == Ok(st2)
    ensures RereadAll(st0, hs, final) ==> Rereads(final, DataAt(st2, hs[2].rr), hs[2])
  {
    hide PackRR, Rereads, Stored, DataAt;
    assert hs[1..][1..] == hs[2..];
    assert RereadAll(st0, hs, final) ==> RereadAll(st1, hs[1..], final);
    assert RereadAll(st1, hs[1..], final) ==> RereadAll(st2, hs[2..], final);
  }

  /** Offset 38 of the new message is the length of the second record, read as the length of a label. */
  lemma StaleRead(final: bytes)
    requires final == Records(SPELLED)
    ensures !Rereads(final, 53, ArrivedRecords()[2])
  {
    hide UnpackName, Records, HostHead;
    RecordParts(SPELLED);
    HeadEnd(final, 29);
    OneLetter(final, 38, 3);
    Pair(final, 53, 38);
    Pointed(final, 53);
    assert final[39..42] == [1, 99, 0];
    assert |Upper([1, 99, 0])| == 3 && |Upper([99])| == 1;
  }

  lemma HeadEnd(buf: bytes, o: nat)
    requires HostAt(buf, o, 3)
    ensures buf[o + 9] == 3
  {
    assert buf[o..o + 10][9] == 3;
  }

  lemma StaleMessage(m: HeldMessage, final: bytes)
    requires CountsFit(StoredOf(m)) && |m.qd| == 0
    requires !RereadAll(State(Header(StoredOf(m)), map[], false), m.an, final)
    ensures !RereadMessage(m, final)
  {
    hide RereadAll, Header, PackRRs;
  }

  lemma ArrivedKept()
    ensures AllKept(ArrivedMessage())
  {
    OneLetterName(0);
    assert Labels([]) == [];
  }

  /** A received message that does not survive: once an owner name grows, the kept pointer leads one byte too low. */
  lemma StalePointer()
    ensures ReadMessage(Records(POINTED)) == Ok(ArrivedMessage())
    ensures var r := PackMessage(StoredOf(ArrivedMessage())); r.Ok? && !r.value.far && r.value.buf == Records(SPELLED)
    ensures var r := UnpackMessage(Records(SPELLED));
            !(r.Ok? && SameMessage(FieldsOf(ArrivedMessage()), r.value))
  {
    ArrivedRead(Records(POINTED));
    var m := ArrivedMessage();
    var st2, st3 := Repacked();
    ArrivedKept();
    hide AllKept, PackMessage, UnpackMessage, SameMessage, Packing, Records, RereadAll, ReadMessage, Header;
    StaleRead(st3.buf);
    ReprintStates(m, State(Header(StoredOf(m)), map[], false), st3, st3, st3);
    StaleMessage(m, st3.buf);
  }
}
