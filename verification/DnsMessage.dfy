/** DNS messages: questions and resource records around the names of module DnsName. */
module DnsMessage {
  import opened Bytes
  import opened DnsName

  const NS: u16 := 2
  const CNAME: u16 := 5
  const SOA: u16 := 6
  const PTR: u16 := 12
  const MX: u16 := 15
  const SRV: u16 := 33

  datatype Question = Question(name: bytes, qtype: u16, cls: u16)

  /** The preference of an MX record: the number a caller sets, or the tuple of one number that unpacking leaves. */
  datatype Preference = Number(value: u16) | Tuple(value: u16)

  /**
   The rdata fields of a record. Verbatim is a record that is emitted as bytes it already holds: its rdata or,
   when that is empty, the address or text of its type.
   */
  datatype RData =
    | Host(rtype: u16, host: bytes)
    | MailExchange(preference: Preference, mxname: bytes)
    | Service(priority: u16, weight: u16, port: u16, srvname: bytes)
    | Authority(mname: bytes, rname: bytes, serial: u32, refresh: u32, retry: u32, expire: u32, minimum: u32)
    | Verbatim(vtype: u16, data: bytes)

  datatype RR = RR(name: bytes, cls: u16, ttl: u32, rdata: RData)

  datatype Message = Message(id: u16, op: u16, qd: seq<Question>, an: seq<RR>, ns: seq<RR>, ar: seq<RR>)

  function TypeOf(rd: RData): u16 {
    match rd
    case Host(t, _) => t
    case MailExchange(_, _) => MX
    case Service(_, _, _, _) => SRV
    case Authority(_, _, _, _, _, _, _) => SOA
    case Verbatim(t, _) => t
  }

  predicate IsHostType(t: u16) { t == NS || t == CNAME || t == PTR }

  /** Types whose rdata unpack_rdata copies (A, NULL, HINFO, TXT, AAAA, OPT). */
  predicate IsVerbatimType(t: u16) { t == 1 || t == 10 || t == 13 || t == 16 || t == 28 || t == 41 }

  /** The types that are emitted even when their rdata is empty: a NULL record then has nothing to emit. */
  predicate HasOwnField(t: u16) { IsVerbatimType(t) && t != 10 }

  // ---------- packing ----------

  /** The message so far, the label table, and whether some back pointer had a target above fourteen bits. */
  datatype State = State(buf: bytes, ptrs: LabelPtrs, far: bool)

  function AddName(st: State, name: bytes): Result<State> {
    var p :- PackName(name, |st.buf|, st.ptrs);
    Ok(State(st.buf + p.wire, p.ptrs, st.far || !Near(p)))
  }

  function AddBytes(st: State, b: bytes): State {
    st.(buf := st.buf + b)
  }

  datatype PackedData = PackedData(wire: bytes, ptrs: LabelPtrs, far: bool)

  function Timers(serial: u32, refresh: u32, retry: u32, expire: u32, minimum: u32): (t: bytes)
    ensures |t| == 20
  {
    BE(serial, 4) + BE(refresh, 4) + BE(retry, 4) + BE(expire, 4) + BE(minimum, 4)
  }

  /** pack_rdata at offset off. */
  function PackRData(rd: RData, off: nat, ptrs: LabelPtrs): Result<PackedData> {
    match rd
    case Host(t, n) =>
      if !IsHostType(t) then Err(PackError)
      else
        var p :- PackName(n, off, ptrs);
        Ok(PackedData(p.wire, p.ptrs, !Near(p)))
    case MailExchange(pref, n) =>
      if pref.Tuple? then Err(PackError)
      else
        var p :- PackName(n, off + 2, ptrs);
        Ok(PackedData(BE(pref.value, 2) + p.wire, p.ptrs, !Near(p)))
    case Service(prio, weight, port, n) =>
      var p :- PackName(n, off + 6, ptrs);
      Ok(PackedData(BE(prio, 2) + BE(weight, 2) + BE(port, 2) + p.wire, p.ptrs, !Near(p)))
    case Authority(mname, rname, a, b, c, d, e) =>
      var m :- PackName(mname, off, ptrs);
      var r :- PackName(rname, off + |m.wire|, m.ptrs);
      Ok(PackedData(m.wire + r.wire + Timers(a, b, c, d, e), r.ptrs, !Near(m) || !Near(r)))
    case Verbatim(t, data) =>
      if |data| == 0 && !HasOwnField(t) then Err(PackError) else Ok(PackedData(data, ptrs, false))
  }

  function RecordHeader(rr: RR, rdlen: nat): (h: bytes)
    ensures |h| == 10
  {
    BE(TypeOf(rr.rdata), 2) + BE(rr.cls, 2) + BE(rr.ttl, 4) + BE(rdlen, 2)
  }

  /** pack_q. */
  function PackQ(st: State, q: Question): Result<State> {
    var named :- AddName(st, q.name);
    Ok(AddBytes(named, BE(q.qtype, 2) + BE(q.cls, 2)))
  }

  /** pack_rr: the rdata is packed ten bytes after the owner name. */
  function PackRR(st: State, rr: RR): Result<State> {
    var named :- AddName(st, rr.name);
    var rdata :- PackRData(rr.rdata, |named.buf| + 10, named.ptrs);
    if |rdata.wire| >= 0x1_0000 then Err(PackError)
    else Ok(State(named.buf + RecordHeader(rr, |rdata.wire|) + rdata.wire, rdata.ptrs, named.far || rdata.far))
  }

  function PackQs(st: State, qs: seq<Question>): Result<State>
    decreases |qs|
  {
    if |qs| == 0 then Ok(st)
    else
      var next :- PackQ(st, qs[0]);
      PackQs(next, qs[1..])
  }

  function PackRRs(st: State, rrs: seq<RR>): Result<State>
    decreases |rrs|
  {
    if |rrs| == 0 then Ok(st)
    else
      var next :- PackRR(st, rrs[0]);
      PackRRs(next, rrs[1..])
  }

  predicate CountsFit(m: Message) {
    |m.qd| < 0x1_0000 && |m.an| < 0x1_0000 && |m.ns| < 0x1_0000 && |m.ar| < 0x1_0000
  }

  function Header(m: Message): (h: bytes)
    requires CountsFit(m)
    ensures |h| == 12
  {
    BE(m.id, 2) + BE(m.op, 2) + BE(|m.qd|, 2) + BE(|m.an|, 2) + BE(|m.ns|, 2) + BE(|m.ar|, 2)
  }

  /** DNS.__bytes__, with the final label table. */
  function PackMessage(m: Message): Result<State> {
    if !CountsFit(m) then Err(PackError)
    else
      var q :- PackQs(State(Header(m), map[], false), m.qd);
      var an :- PackRRs(q, m.an);
      var ns :- PackRRs(an, m.ns);
      PackRRs(ns, m.ar)
  }

  // ---------- unpacking ----------

  function Field(buf: bytes, off: nat, k: nat): nat
    requires off + k <= |buf|
  {
    UnBE(buf[off..off + k])
  }

  lemma FieldRange(buf: bytes, off: nat, k: nat)
    requires off + k <= |buf|
    ensures Field(buf, off, k) < Pow256(k)
  {
    UnBERoundTrip(buf[off..off + k]);
  }

  function U16At(buf: bytes, off: nat): u16
    requires off + 2 <= |buf|
  {
    FieldRange(buf, off, 2); Widths();
    Field(buf, off, 2)
  }

  function U32At(buf: bytes, off: nat): u32
    requires off + 4 <= |buf|
  {
    FieldRange(buf, off, 4); Widths();
    Field(buf, off, 4)
  }

  /** unpack_q. */
  function UnpackQ(buf: bytes, off: nat): Result<(Question, nat)> {
    var (name, o) :- UnpackName(buf, off);
    if o + 4 > |buf| then Err(UnpackError)
    else Ok((Question(name, U16At(buf, o), U16At(buf, o + 2)), o + 4))
  }

  /** unpack_rdata: fixed fields come from the record's own bytes, names from the whole message. */
  function UnpackRData(buf: bytes, off: nat, rtype: u16, rdata: bytes): Result<RData> {
    if IsHostType(rtype) then
      var (n, _) :- UnpackName(buf, off);
      Ok(Host(rtype, n))
    else if rtype == MX then
      if |rdata| < 2 then Err(UnpackError)
      else
        var (n, _) :- UnpackName(buf, off + 2);
        Ok(MailExchange(Tuple(U16At(rdata, 0)), n))
    else if rtype == SRV then
      if |rdata| < 6 then Err(UnpackError)
      else
        var (n, _) :- UnpackName(buf, off + 6);
        Ok(Service(U16At(rdata, 0), U16At(rdata, 2), U16At(rdata, 4), n))
    else if rtype == SOA then
      var (m, o1) :- UnpackName(buf, off);
      var (r, o2) :- UnpackName(buf, o1);
      if o2 + 20 > |buf| then Err(UnpackError)
      else
        Ok(Authority(m, r, U32At(buf, o2), U32At(buf, o2 + 4), U32At(buf, o2 + 8), U32At(buf, o2 + 12),
                     U32At(buf, o2 + 16)))
    else if IsVerbatimType(rtype) then Ok(Verbatim(rtype, rdata))
    else Err(UnpackError)
  }

  /** unpack_rr. */
  function UnpackRR(buf: bytes, off: nat): Result<(RR, nat)> {
    var (name, o) :- UnpackName(buf, off);
    if o + 10 > |buf| then Err(UnpackError)
    else
      var rdlen := U16At(buf, o + 8);
      var rdata :- UnpackRData(buf, o + 10, U16At(buf, o), Slice(buf, o + 10, o + 10 + rdlen));
      Ok((RR(name, U16At(buf, o + 2), U32At(buf, o + 4), rdata), o + 10 + rdlen))
  }

  function UnpackQs(buf: bytes, off: nat, count: nat): Result<(seq<Question>, nat)>
    decreases count
  {
    if count == 0 then Ok(([], off))
    else
      var (q, o) :- UnpackQ(buf, off);
      var (rest, end) :- UnpackQs(buf, o, count - 1);
      Ok(([q] + rest, end))
  }

  function UnpackRRs(buf: bytes, off: nat, count: nat): Result<(seq<RR>, nat)>
    decreases count
  {
    if count == 0 then Ok(([], off))
    else
      var (rr, o) :- UnpackRR(buf, off);
      var (rest, end) :- UnpackRRs(buf, o, count - 1);
      Ok(([rr] + rest, end))
  }

  /** DNS.unpack. */
  function UnpackMessage(buf: bytes): Result<Message> {
    if |buf| < 12 then Err(NeedData)
    else
      var (qd, o1) :- UnpackQs(buf, 12, U16At(buf, 4));
      var (an, o2) :- UnpackRRs(buf, o1, U16At(buf, 6));
      var (ns, o3) :- UnpackRRs(buf, o2, U16At(buf, 8));
      var (ar, _) :- UnpackRRs(buf, o3, U16At(buf, 10));
      Ok(Message(U16At(buf, 0), U16At(buf, 2), qd, an, ns, ar))
  }

  // ---------- the round trip ----------

  predicate SameName(a: bytes, b: bytes) { Upper(a) == Upper(b) }

  predicate SameQ(a: Question, b: Question) {
    SameName(a.name, b.name) && a.qtype == b.qtype && a.cls == b.cls
  }

  predicate SameRData(a: RData, b: RData) {
    match (a, b)
    case (Host(t, n), Host(t', n')) => t == t' && SameName(n, n')
    case (MailExchange(p, n), MailExchange(p', n')) => p.value == p'.value && SameName(n, n')
    case (Service(x, y, z, n), Service(x', y', z', n')) => x == x' && y == y' && z == z' && SameName(n, n')
    case (Authority(m, r, s, f, t, e, i), Authority(m', r', s', f', t', e', i')) =>
      SameName(m, m') && SameName(r, r') && s == s' && f == f' && t == t' && e == e' && i == i'
    case (Verbatim(t, d), Verbatim(t', d')) => t == t' && d == d'
    case _ => false
  }

  predicate SameRR(a: RR, b: RR) {
    SameName(a.name, b.name) && a.cls == b.cls && a.ttl == b.ttl && SameRData(a.rdata, b.rdata)
  }

  ghost predicate SameQs(a: seq<Question>, b: seq<Question>) {
    |a| == |b| && forall i :: 0 <= i < |a| ==> SameQ(a[i], b[i])
  }

  ghost predicate SameRRs(a: seq<RR>, b: seq<RR>) {
    |a| == |b| && forall i :: 0 <= i < |a| ==> SameRR(a[i], b[i])
  }

  /** Equal up to the ASCII case of names, which compression takes from an earlier occurrence. */
  ghost predicate SameMessage(a: Message, b: Message) {
    && a.id == b.id && a.op == b.op && SameQs(a.qd, b.qd)
    && SameRRs(a.an, b.an) && SameRRs(a.ns, b.ns) && SameRRs(a.ar, b.ar)
  }

  ghost predicate ValidRData(rd: RData) {
    match rd
    case Host(t, n) => IsHostType(t) && ValidName(n)
    case MailExchange(pref, n) => pref.Number? && ValidName(n)
    case Service(_, _, _, n) => ValidName(n)
    case Authority(m, r, _, _, _, _, _) => ValidName(m) && ValidName(r)
    case Verbatim(t, d) => IsVerbatimType(t)
  }

  ghost predicate ValidRR(rr: RR) { ValidName(rr.name) && ValidRData(rr.rdata) }

  ghost predicate ValidMessage(m: Message) {
    && (forall i :: 0 <= i < |m.qd| ==> ValidName(m.qd[i].name))
    && (forall i :: 0 <= i < |m.an| ==> ValidRR(m.an[i]))
    && (forall i :: 0 <= i < |m.ns| ==> ValidRR(m.ns[i]))
    && (forall i :: 0 <= i < |m.ar| ==> ValidRR(m.ar[i]))
  }

  /** A packed name read back from any buffer that starts with it. */
  lemma NameAt(buf: bytes, name: bytes, ptrs: LabelPtrs, final: bytes)
    requires TableInv(buf, ptrs) && ValidName(name)
    requires PackName(name, |buf|, ptrs).Ok? && Near(PackName(name, |buf|, ptrs).value)
    requires buf + PackName(name, |buf|, ptrs).value.wire <= final
    ensures var p := PackName(name, |buf|, ptrs).value;
            var r := UnpackName(final, |buf|);
            && TableInv(buf + p.wire, p.ptrs)
            && r.Ok? && SameName(name, r.value.0) && r.value.1 == |buf| + |p.wire|
  {
    hide UnpackLabels, PackLabels, TableInv, ValidName, Upper;
    var p := PackName(name, |buf|, ptrs).value;
    var more := final[|buf + p.wire|..];
    assert final == buf + p.wire + more;
    PackNameInv(buf, name, ptrs);
    PackNameRecovers(buf, name, ptrs, more);
  }

  lemma TableInvExtend(buf: bytes, more: bytes, ptrs: LabelPtrs)
    requires TableInv(buf, ptrs)
    ensures TableInv(buf + more, ptrs)
  {
    hide Holds;
    forall k | k in ptrs ensures Holds(buf + more, ptrs[k], k) {
      HoldsExtend(buf, more, ptrs[k], k);
    }
  }

  lemma U16Back(buf: bytes, pre: bytes, n: u16)
    requires pre + BE(n, 2) <= buf
    ensures U16At(buf, |pre|) == n
  {
    Widths();
    FieldAt(buf, pre, n, 2);
  }

  lemma U32Back(buf: bytes, pre: bytes, n: u32)
    requires pre + BE(n, 4) <= buf
    ensures U32At(buf, |pre|) == n
  {
    Widths();
    FieldAt(buf, pre, n, 4);
  }

  /** Rdata packed at the end of `base` keeps the table invariant and is read back from the final message. */
  ghost predicate Trips(base: bytes, rd: RData, p: PackedData, final: bytes) {
    TableInv(base + p.wire, p.ptrs) &&
    var r := UnpackRData(final, |base|, TypeOf(rd), p.wire);
    r.Ok? && SameRData(rd, r.value)
  }

  lemma MailTrips(base: bytes, pref: Preference, n: bytes, ptrs: LabelPtrs, final: bytes)
    requires TableInv(base, ptrs) && ValidName(n)
    requires var r := PackRData(MailExchange(pref, n), |base|, ptrs);
             r.Ok? && !r.value.far && base + r.value.wire <= final
    ensures Trips(base, MailExchange(pref, n), PackRData(MailExchange(pref, n), |base|, ptrs).value, final)
  {
    hide UnpackLabels, PackLabels, TableInv, ValidName, UnpackName, SameName, Near, BE;
    var fixed := BE(pref.value, 2);
    var wire := PackName(n, |base| + 2, ptrs).value.wire;
    assert base + (fixed + wire) == base + fixed + wire;
    TableInvExtend(base, fixed, ptrs);
    NameAt(base + fixed, n, ptrs, final);
    U16Back(fixed + wire, [], pref.value);
  }

  /** The preference of an unpacked MX record is a tuple, which cannot be packed again. */
  lemma MailNotRepacked(buf: bytes, off: nat, rdata: bytes, at: nat, ptrs: LabelPtrs)
    ensures var r := UnpackRData(buf, off, MX, rdata);
            r.Ok? ==> r.value.MailExchange? && r.value.preference.Tuple? && PackRData(r.value, at, ptrs).Err?
  {
    hide UnpackName, PackName;
  }

  lemma ServiceTrips(base: bytes, prio: u16, weight: u16, port: u16, n: bytes, ptrs: LabelPtrs, final: bytes)
    requires TableInv(base, ptrs) && ValidName(n)
    requires var r := PackRData(Service(prio, weight, port, n), |base|, ptrs);
             r.Ok? && !r.value.far && base + r.value.wire <= final
    ensures var rd := Service(prio, weight, port, n); Trips(base, rd, PackRData(rd, |base|, ptrs).value, final)
  {
    hide UnpackLabels, PackLabels, TableInv, ValidName, UnpackName, SameName, Near, BE;
    var a, b, c := BE(prio, 2), BE(weight, 2), BE(port, 2);
    var fixed := a + b + c;
    var wire := PackName(n, |base| + 6, ptrs).value.wire;
    assert base + (fixed + wire) == base + fixed + wire;
    TableInvExtend(base, fixed, ptrs);
    NameAt(base + fixed, n, ptrs, final);
    U16Back(fixed + wire, [], prio);
    U16Back(fixed + wire, a, weight);
    U16Back(fixed + wire, a + b, port);
  }

  lemma TimersBack(b: bytes, rd: RData, final: bytes)
    requires rd.Authority?
    requires b + Timers(rd.serial, rd.refresh, rd.retry, rd.expire, rd.minimum) <= final
    ensures |b| + 20 <= |final|
    ensures U32At(final, |b|) == rd.serial && U32At(final, |b| + 4) == rd.refresh
    ensures U32At(final, |b| + 8) == rd.retry && U32At(final, |b| + 12) == rd.expire
    ensures U32At(final, |b| + 16) == rd.minimum
  {
    hide BE, UnBE;
    var x, y, z, u, v := BE(rd.serial, 4), BE(rd.refresh, 4), BE(rd.retry, 4), BE(rd.expire, 4), BE(rd.minimum, 4);
    Prefixes(b, x, y, z, u, v, final);
    U32Back(final, b, rd.serial);
    U32Back(final, b + x, rd.refresh);
    U32Back(final, b + x + y, rd.retry);
    U32Back(final, b + x + y + z, rd.expire);
    U32Back(final, b + x + y + z + u, rd.minimum);
  }

  predicate ReadsBack(final: bytes, off: nat, name: bytes, next: nat) {
    var r := UnpackName(final, off);
    r.Ok? && SameName(name, r.value.0) && r.value.1 == next
  }

  /** Two names packed one after the other. */
  lemma TwoNames(base: bytes, first: bytes, second: bytes, ptrs: LabelPtrs, p: Packed, r: Packed, final: bytes)
    requires TableInv(base, ptrs) && ValidName(first) && ValidName(second)
    requires PackName(first, |base|, ptrs) == Ok(p) && Near(p)
    requires PackName(second, |base| + |p.wire|, p.ptrs) == Ok(r) && Near(r)
    requires base + p.wire + r.wire <= final
    ensures TableInv(base + p.wire + r.wire, r.ptrs)
    ensures ReadsBack(final, |base|, first, |base| + |p.wire|)
    ensures ReadsBack(final, |base| + |p.wire|, second, |base| + |p.wire| + |r.wire|)
  {
    hide TableInv, ValidName, PackName, UnpackName, SameName, Near;
    NameAt(base, first, ptrs, final);
    NameAt(base + p.wire, second, p.ptrs, final);
  }

  lemma AuthorityTrips(base: bytes, rd: RData, ptrs: LabelPtrs, final: bytes)
    requires rd.Authority? && TableInv(base, ptrs) && ValidName(rd.mname) && ValidName(rd.rname)
    requires var r := PackRData(rd, |base|, ptrs); r.Ok? && !r.value.far && base + r.value.wire <= final
    ensures Trips(base, rd, PackRData(rd, |base|, ptrs).value, final)
  {
    hide TableInv, ValidName, PackName, UnpackName, SameName, Near, Timers, U32At;
    var m := PackName(rd.mname, |base|, ptrs).value;
    var r := PackName(rd.rname, |base| + |m.wire|, m.ptrs).value;
    var names := base + m.wire + r.wire;
    var fixed := Timers(rd.serial, rd.refresh, rd.retry, rd.expire, rd.minimum);
    assert base + (m.wire + r.wire + fixed) == names + fixed;
    TwoNames(base, rd.mname, rd.rname, ptrs, m, r, final);
    TableInvExtend(names, fixed, r.ptrs);
    TimersBack(names, rd, final);
  }

  lemma Prefixes(b: bytes, x: bytes, y: bytes, z: bytes, u: bytes, v: bytes, final: bytes)
    requires b + (x + y + z + u + v) <= final
    ensures b + x <= final && b + x + y <= final && b + x + y + z <= final
    ensures b + x + y + z + u <= final && b + x + y + z + u + v <= final
  {
    assert b + (x + y + z + u + v) == b + x + y + z + u + v;
  }

  lemma RDataTrips(base: bytes, rd: RData, ptrs: LabelPtrs, final: bytes)
    requires TableInv(base, ptrs) && ValidRData(rd)
    requires var r := PackRData(rd, |base|, ptrs); r.Ok? && !r.value.far && base + r.value.wire <= final
    ensures Trips(base, rd, PackRData(rd, |base|, ptrs).value, final)
  {
    hide UnpackLabels, PackLabels, TableInv, ValidName, UnpackName, SameName, Near, BE;
    match rd
    case Host(_, n) => NameAt(base, n, ptrs, final);
    case MailExchange(pref, n) => MailTrips(base, pref, n, ptrs, final);
    case Service(prio, weight, port, n) => ServiceTrips(base, prio, weight, port, n, ptrs, final);
    case Authority(_, _, _, _, _, _, _) => AuthorityTrips(base, rd, ptrs, final);
    case Verbatim(_, data) => TableInvExtend(base, data, ptrs);
  }

  lemma QTrips(st: State, q: Question, final: bytes)
    requires TableInv(st.buf, st.ptrs) && ValidName(q.name)
    requires PackQ(st, q).Ok? && !PackQ(st, q).value.far && PackQ(st, q).value.buf <= final
    ensures var st' := PackQ(st, q).value;
            var r := UnpackQ(final, |st.buf|);
            TableInv(st'.buf, st'.ptrs) && r.Ok? && SameQ(q, r.value.0) && r.value.1 == |st'.buf|
  {
    hide UnpackLabels, PackLabels, TableInv, ValidName, UnpackName, SameName, Near, BE;
    var named := AddName(st, q.name).value;
    var t, c := BE(q.qtype, 2), BE(q.cls, 2);
    assert named.buf + (t + c) == named.buf + t + c;
    NameAt(st.buf, q.name, st.ptrs, final);
    TableInvExtend(named.buf, t + c, named.ptrs);
    U16Back(final, named.buf, q.qtype);
    U16Back(final, named.buf + t, q.cls);
  }

  lemma HeaderBack(b: bytes, rr: RR, data: bytes, final: bytes)
    requires |data| < 0x1_0000 && b + RecordHeader(rr, |data|) + data <= final
    ensures |b| + 10 + |data| <= |final|
    ensures U16At(final, |b|) == TypeOf(rr.rdata) && U16At(final, |b| + 2) == rr.cls
    ensures U32At(final, |b| + 4) == rr.ttl && U16At(final, |b| + 8) == |data|
    ensures Slice(final, |b| + 10, |b| + 10 + |data|) == data
  {
    hide BE, UnBE;
    var t, c, l, n := BE(TypeOf(rr.rdata), 2), BE(rr.cls, 2), BE(rr.ttl, 4), BE(|data|, 2);
    assert b + (t + c + l + n) + data == b + (t + c + l + n + data);
    Prefixes(b, t, c, l, n, data, final);
    U16Back(final, b, TypeOf(rr.rdata));
    U16Back(final, b + t, rr.cls);
    U32Back(final, b + t + c, rr.ttl);
    U16Back(final, b + t + c + l, |data|);
    assert final[|b| + 10..|b| + 10 + |data|] == data;
  }

  lemma RRTrips(st: State, rr: RR, final: bytes)
    requires TableInv(st.buf, st.ptrs) && ValidRR(rr)
    requires PackRR(st, rr).Ok? && !PackRR(st, rr).value.far && PackRR(st, rr).value.buf <= final
    ensures var st' := PackRR(st, rr).value;
            var r := UnpackRR(final, |st.buf|);
            TableInv(st'.buf, st'.ptrs) && r.Ok? && SameRR(rr, r.value.0) && r.value.1 == |st'.buf|
  {
    hide UnpackLabels, PackLabels, TableInv, ValidName, UnpackName, SameName, Near, RecordHeader, UnpackRData,
      PackRData, SameRData, ValidRData, U16At, U32At, Slice, PackName;
    var named := AddName(st, rr.name).value;
    var rdata := PackRData(rr.rdata, |named.buf| + 10, named.ptrs).value;
    var h := RecordHeader(rr, |rdata.wire|);
    var b := named.buf;
    HeaderBack(b, rr, rdata.wire, final);
    NameAt(st.buf, rr.name, st.ptrs, final);
    TableInvExtend(b, h, named.ptrs);
    RDataTrips(b + h, rr.rdata, named.ptrs, final);
  }

  lemma {:induction false} QsGrow(st: State, qs: seq<Question>)
    requires PackQs(st, qs).Ok?
    ensures st.buf <= PackQs(st, qs).value.buf && (st.far ==> PackQs(st, qs).value.far)
    decreases |qs|
  {
    if |qs| > 0 { QsGrow(PackQ(st, qs[0]).value, qs[1..]); }
  }

  lemma {:induction false} RRsGrow(st: State, rrs: seq<RR>)
    requires PackRRs(st, rrs).Ok?
    ensures st.buf <= PackRRs(st, rrs).value.buf && (st.far ==> PackRRs(st, rrs).value.far)
    decreases |rrs|
  {
    if |rrs| > 0 { RRsGrow(PackRR(st, rrs[0]).value, rrs[1..]); }
  }

  lemma {:induction false} QsTrip(st: State, qs: seq<Question>, final: bytes)
    requires TableInv(st.buf, st.ptrs) && forall i :: 0 <= i < |qs| ==> ValidName(qs[i].name)
    requires PackQs(st, qs).Ok? && !PackQs(st, qs).value.far && PackQs(st, qs).value.buf <= final
    ensures var st' := PackQs(st, qs).value;
            var r := UnpackQs(final, |st.buf|, |qs|);
            TableInv(st'.buf, st'.ptrs) && r.Ok? && SameQs(qs, r.value.0) && r.value.1 == |st'.buf|
    decreases |qs|
  {
    hide TableInv, ValidName, PackQ, UnpackQ, SameQ;
    if |qs| > 0 {
      var next := PackQ(st, qs[0]).value;
      QsGrow(next, qs[1..]);
      QTrips(st, qs[0], final);
      QsTrip(next, qs[1..], final);
    }
  }

  lemma {:induction false} RRsTrip(st: State, rrs: seq<RR>, final: bytes)
    requires TableInv(st.buf, st.ptrs) && forall i :: 0 <= i < |rrs| ==> ValidRR(rrs[i])
    requires PackRRs(st, rrs).Ok? && !PackRRs(st, rrs).value.far && PackRRs(st, rrs).value.buf <= final
    ensures var st' := PackRRs(st, rrs).value;
            var r := UnpackRRs(final, |st.buf|, |rrs|);
            TableInv(st'.buf, st'.ptrs) && r.Ok? && SameRRs(rrs, r.value.0) && r.value.1 == |st'.buf|
    decreases |rrs|
  {
    hide TableInv, ValidRR, PackRR, UnpackRR, SameRR;
    if |rrs| > 0 {
      var next := PackRR(st, rrs[0]).value;
      RRsGrow(next, rrs[1..]);
      RRTrips(st, rrs[0], final);
      RRsTrip(next, rrs[1..], final);
    }
  }

  lemma MessageHeaderBack(m: Message, final: bytes)
    requires CountsFit(m) && Header(m) <= final
    ensures |final| >= 12 && U16At(final, 0) == m.id && U16At(final, 2) == m.op
    ensures U16At(final, 4) == |m.qd| && U16At(final, 6) == |m.an|
    ensures U16At(final, 8) == |m.ns| && U16At(final, 10) == |m.ar|
  {
    hide BE, UnBE;
    var a, b, c, d, e, f := BE(m.id, 2), BE(m.op, 2), BE(|m.qd|, 2), BE(|m.an|, 2), BE(|m.ns|, 2), BE(|m.ar|, 2);
    assert Header(m) == [] + (a + b + c + d + e) + f;
    Prefixes([], a, b, c, d, e, final);
    U16Back(final, [], m.id);
    U16Back(final, [] + a, m.op);
    U16Back(final, [] + a + b, |m.qd|);
    U16Back(final, [] + a + b + c, |m.an|);
    U16Back(final, [] + a + b + c + d, |m.ns|);
    U16Back(final, a + b + c + d + e, |m.ar|);
  }

  /**
   Every message whose back pointers all have targets below 0x4000 survives packing and unpacking, and the
   label table that packing leaves behind describes the finished buffer.
   */
  lemma MessageRoundTrip(m: Message)
    requires ValidMessage(m) && PackMessage(m).Ok? && !PackMessage(m).value.far
    ensures var st := PackMessage(m).value;
            var r := UnpackMessage(st.buf);
            r.Ok? && SameMessage(m, r.value) && TableInv(st.buf, st.ptrs)
  {
    hide TableInv, ValidRR, ValidName, PackQs, PackRRs, UnpackQs, UnpackRRs, SameQs, SameRRs, U16At, Header;
    var final := PackMessage(m).value.buf;
    var st := State(Header(m), map[], false);
    var q := PackQs(st, m.qd).value;
    var an := PackRRs(q, m.an).value;
    var ns := PackRRs(an, m.ns).value;
    QsGrow(st, m.qd);
    RRsGrow(q, m.an);
    RRsGrow(an, m.ns);
    RRsGrow(ns, m.ar);
    EmptyTable(Header(m));
    MessageHeaderBack(m, final);
    QsTrip(st, m.qd, final);
    RRsTrip(q, m.an, final);
    RRsTrip(an, m.ns, final);
    RRsTrip(ns, m.ar, final);
  }

  lemma EmptyTable(buf: bytes)
    ensures TableInv(buf, map[])
  {
  }

  // ---------- when packing succeeds, and when every pointer is near ----------

  lemma NameOk(name: bytes, off: nat, ptrs: LabelPtrs)
    requires ValidName(name)
    ensures PackName(name, off, ptrs).Ok? && |PackName(name, off, ptrs).value.wire| <= 257
  {
    PackLabelsOk(Labels(name), off, ptrs);
    WireBound(Labels(name), off, ptrs);
  }

  predicate DataFits(rr: RR) {
    rr.rdata.Verbatim? ==> |rr.rdata.data| < 0x1_0000 && (|rr.rdata.data| > 0 || HasOwnField(rr.rdata.vtype))
  }

  lemma RROk(st: State, rr: RR)
    requires ValidRR(rr) && DataFits(rr)
    ensures PackRR(st, rr).Ok?
  {
    hide PackName, ValidName, BE;
    NameOk(rr.name, |st.buf|, st.ptrs);
    var named := AddName(st, rr.name).value;
    var off := |named.buf| + 10;
    match rr.rdata
    case Host(_, n) => NameOk(n, off, named.ptrs);
    case MailExchange(_, n) => NameOk(n, off + 2, named.ptrs);
    case Service(_, _, _, n) => NameOk(n, off + 6, named.ptrs);
    case Authority(m, n, _, _, _, _, _) =>
      NameOk(m, off, named.ptrs);
      var p := PackName(m, off, named.ptrs).value;
      NameOk(n, off + |p.wire|, p.ptrs);
    case Verbatim(_, _) =>
  }

  lemma {:induction false} QsOk(st: State, qs: seq<Question>)
    requires forall i :: 0 <= i < |qs| ==> ValidName(qs[i].name)
    ensures PackQs(st, qs).Ok?
    decreases |qs|
  {
    hide PackName, ValidName;
    if |qs| > 0 {
      NameOk(qs[0].name, |st.buf|, st.ptrs);
      QsOk(PackQ(st, qs[0]).value, qs[1..]);
    }
  }

  lemma {:induction false} RRsOk(st: State, rrs: seq<RR>)
    requires forall i :: 0 <= i < |rrs| ==> ValidRR(rrs[i]) && DataFits(rrs[i])
    ensures PackRRs(st, rrs).Ok?
    decreases |rrs|
  {
    hide PackRR, ValidRR, DataFits;
    if |rrs| > 0 {
      RROk(st, rrs[0]);
      RRsOk(PackRR(st, rrs[0]).value, rrs[1..]);
    }
  }

  ghost predicate FitsFormat(m: Message) {
    && CountsFit(m)
    && (forall i :: 0 <= i < |m.an| ==> DataFits(m.an[i]))
    && (forall i :: 0 <= i < |m.ns| ==> DataFits(m.ns[i]))
    && (forall i :: 0 <= i < |m.ar| ==> DataFits(m.ar[i]))
  }

  /**
   Packing fails for no valid message whose counts and data fit their sixteen-bit fields and that has no empty NULL
   record.
   */
  lemma PackMessageOk(m: Message)
    requires ValidMessage(m) && FitsFormat(m)
    ensures PackMessage(m).Ok?
  {
    hide PackQs, PackRRs, ValidRR, DataFits, ValidName, Header;
    var st := State(Header(m), map[], false);
    QsOk(st, m.qd);
    var q := PackQs(st, m.qd).value;
    RRsOk(q, m.an);
    var an := PackRRs(q, m.an).value;
    RRsOk(an, m.ns);
    RRsOk(PackRRs(an, m.ns).value, m.ar);
  }

  lemma NameNear(buf: bytes, name: bytes, ptrs: LabelPtrs)
    requires TableInv(buf, ptrs) && PackName(name, |buf|, ptrs).Ok? && |buf| <= POINTER_LIMIT
    ensures Near(PackName(name, |buf|, ptrs).value)
  {
    hide Holds, PackLabels;
    TargetWritten(buf, Labels(name), |buf|, ptrs);
  }

  /** In a short message every name packed so far used a near pointer. */
  lemma QNear(st: State, q: Question)
    requires TableInv(st.buf, st.ptrs) && !st.far && PackQ(st, q).Ok? && |PackQ(st, q).value.buf| <= POINTER_LIMIT
    ensures !PackQ(st, q).value.far
  {
    hide TableInv, PackName;
    NameNear(st.buf, q.name, st.ptrs);
  }

  lemma RRNear(st: State, rr: RR)
    requires TableInv(st.buf, st.ptrs) && ValidRR(rr)
    requires !st.far && PackRR(st, rr).Ok? && |PackRR(st, rr).value.buf| <= POINTER_LIMIT
    ensures !PackRR(st, rr).value.far
  {
    hide TableInv, PackName, BE, ValidName, Near, Timers;
    var named := AddName(st, rr.name).value;
    NameNear(st.buf, rr.name, st.ptrs);
    PackNameInv(st.buf, rr.name, st.ptrs);
    var rdata := PackRData(rr.rdata, |named.buf| + 10, named.ptrs).value;
    var base := named.buf + RecordHeader(rr, |rdata.wire|);
    TableInvExtend(named.buf, RecordHeader(rr, |rdata.wire|), named.ptrs);
    match rr.rdata
    case Host(_, n) => NameNear(base, n, named.ptrs);
    case MailExchange(pref, n) =>
      TableInvExtend(base, BE(pref.value, 2), named.ptrs);
      NameNear(base + BE(pref.value, 2), n, named.ptrs);
    case Service(prio, weight, port, n) =>
      var fixed := BE(prio, 2) + BE(weight, 2) + BE(port, 2);
      TableInvExtend(base, fixed, named.ptrs);
      NameNear(base + fixed, n, named.ptrs);
    case Authority(m, n, _, _, _, _, _) =>
      NameNear(base, m, named.ptrs);
      PackNameInv(base, m, named.ptrs);
      var p := PackName(m, |base|, named.ptrs).value;
      NameNear(base + p.wire, n, p.ptrs);
    case Verbatim(_, _) =>
  }

  lemma {:induction false} QsNear(st: State, qs: seq<Question>)
    requires TableInv(st.buf, st.ptrs) && forall i :: 0 <= i < |qs| ==> ValidName(qs[i].name)
    requires !st.far && PackQs(st, qs).Ok? && |PackQs(st, qs).value.buf| <= POINTER_LIMIT
    ensures var st' := PackQs(st, qs).value; !st'.far && TableInv(st'.buf, st'.ptrs)
    decreases |qs|
  {
    hide TableInv, ValidName, PackQ;
    if |qs| > 0 {
      var next := PackQ(st, qs[0]).value;
      QsGrow(next, qs[1..]);
      QNear(st, qs[0]);
      QTrips(st, qs[0], next.buf);
      QsNear(next, qs[1..]);
    }
  }

  lemma {:induction false} RRsNear(st: State, rrs: seq<RR>)
    requires TableInv(st.buf, st.ptrs) && forall i :: 0 <= i < |rrs| ==> ValidRR(rrs[i])
    requires !st.far && PackRRs(st, rrs).Ok? && |PackRRs(st, rrs).value.buf| <= POINTER_LIMIT
    ensures var st' := PackRRs(st, rrs).value; !st'.far && TableInv(st'.buf, st'.ptrs)
    decreases |rrs|
  {
    hide TableInv, ValidRR, PackRR;
    if |rrs| > 0 {
      var next := PackRR(st, rrs[0]).value;
      RRsGrow(next, rrs[1..]);
      RRNear(st, rrs[0]);
      RRTrips(st, rrs[0], next.buf);
      RRsNear(next, rrs[1..]);
    }
  }

  /** Every valid message of at most 16384 packed bytes survives packing and unpacking. */
  lemma ShortMessageRoundTrip(m: Message)
    requires ValidMessage(m) && FitsFormat(m)
    ensures PackMessage(m).Ok?
    ensures var buf := PackMessage(m).value.buf;
            |buf| <= POINTER_LIMIT ==> UnpackMessage(buf).Ok? && SameMessage(m, UnpackMessage(buf).value)
  {
    hide TableInv, ValidRR, ValidName, PackQs, PackRRs, UnpackMessage, SameMessage, Header;
    PackMessageOk(m);
    var final := PackMessage(m).value.buf;
    if |final| <= POINTER_LIMIT {
      var st := State(Header(m), map[], false);
      var q := PackQs(st, m.qd).value;
      var an := PackRRs(q, m.an).value;
      var ns := PackRRs(an, m.ns).value;
      RRsGrow(q, m.an);
      RRsGrow(an, m.ns);
      RRsGrow(ns, m.ar);
      EmptyTable(Header(m));
      QsNear(st, m.qd);
      RRsNear(q, m.an);
      RRsNear(an, m.ns);
      RRsNear(ns, m.ar);
      MessageRoundTrip(m);
    }
  }

  // ---------- a message whose pointer is too far ----------

  const ADDRESS: bytes := [127, 0, 0, 1]

  /** A nameless NULL record of n zero bytes, and two address records named "a". */
  function NullRecord(n: nat): RR { RR([], 1, 0, Verbatim(10, Zeros(n))) }

  function AddressRecord(): RR { RR([97], 1, 0, Verbatim(1, ADDRESS)) }

  function LongMessage(n: nat): Message {
    Message(0, 0, [], [NullRecord(n), AddressRecord(), AddressRecord()], [], [])
  }

  lemma PackNull(st: State, n: nat)
    requires st == State(st.buf, map[], false) && |st.buf| == 12 && 0 < n < 0x1_0000
    ensures var r := PackRR(st, NullRecord(n));
            && r == Ok(State(st.buf + [0] + RecordHeader(NullRecord(n), n) + Zeros(n), map[], false))
            && |r.value.buf| == n + 23
  {
    hide BE;
  }

  lemma PackAddress(st: State)
    requires PackName([97], |st.buf|, st.ptrs).Ok?
    ensures var p := PackName([97], |st.buf|, st.ptrs).value;
            PackRR(st, AddressRecord()) ==
            Ok(State(st.buf + p.wire + RecordHeader(AddressRecord(), 4) + ADDRESS, p.ptrs, st.far || !Near(p)))
  {
    hide PackName, RecordHeader;
  }

  /** The three states of packing the long message. */
  lemma LongPacked(n: nat) returns (st0: State, st1: State, st2: State, st3: State)
    requires POINTER_LIMIT <= n + 23 < STORE_LIMIT
    ensures st0 == State(Header(LongMessage(n)), map[], false)
    ensures PackRR(st0, NullRecord(n)) == Ok(st1)
    ensures st1.buf == st0.buf + [0] + RecordHeader(NullRecord(n), n) + Zeros(n)
    ensures |st1.buf| == n + 23 && !st1.far
    ensures PackRR(st1, AddressRecord()) == Ok(st2) && |st2.buf| == n + 40 && !st2.far && st1.buf <= st2.buf
    ensures PackRR(st2, AddressRecord()) == Ok(st3) && st3.far
    ensures st3.buf == st2.buf + BE(PointerWord(n + 23), 2) + RecordHeader(AddressRecord(), 4) + ADDRESS
    ensures PackMessage(LongMessage(n)) == Ok(st3)
  {
    hide PackRR, PackName, PackLabels, Header, RecordHeader, Key, PointerWord, ValidName, Labels, BE;
    var t := n + 23;
    st0 := State(Header(LongMessage(n)), map[], false);
    PackNull(st0, n);
    st1 := PackRR(st0, NullRecord(n)).value;
    OneLetterName(t);
    PackAddress(st1);
    st2 := PackRR(st1, AddressRecord()).value;
    FarPointer(t);
    SecondCopy(t, |st2.buf|);
    PackAddress(st2);
    st3 := PackRR(st2, AddressRecord()).value;
    ThreeRecords(st0, st1, st2, st3, [NullRecord(n), AddressRecord(), AddressRecord()]);
  }

  lemma SecondCopy(t: nat, off: nat)
    ensures var ptrs := map[Key([[97]]) := t];
            PackName([97], off, ptrs) == Ok(Packed(BE(PointerWord(t), 2), ptrs, Some(t)))
  {
    hide Key, PointerWord, BE;
    OneLetterName(0);
  }

  lemma ThreeRecords(st0: State, st1: State, st2: State, st3: State, rrs: seq<RR>)
    requires |rrs| == 3
    requires PackRR(st0, rrs[0]) == Ok(st1) && PackRR(st1, rrs[1]) == Ok(st2) && PackRR(st2, rrs[2]) == Ok(st3)
    ensures PackRRs(st0, rrs) == Ok(st3)
  {
    hide PackRR;
    assert PackRRs(st2, rrs[2..]) == Ok(st3);
    assert rrs[1..][1..] == rrs[2..];
    assert PackRRs(st1, rrs[1..]) == Ok(st3);
  }

  /** The name read at the second copy: the pointer leads into the zeros of the NULL record. */
  lemma FarNameRead(final: bytes, off: nat, t: nat)
    requires POINTER_LIMIT <= t && off + 2 <= |final| && final[off..off + 2] == BE(PointerWord(t), 2)
    requires t % POINTER_LIMIT < off && final[t % POINTER_LIMIT] == 0
    ensures UnpackName(final, off) == Ok(([], off + 2))
  {
    hide UnpackLabels, PointerWord, BE, UnBE;
    PointerBytes(t);
    assert final[off] == final[off..off + 2][0];
    PointerCase(final, off, off, 0, t % POINTER_LIMIT);
    EndCase(final, t % POINTER_LIMIT, t % POINTER_LIMIT, 0);
    UnpackNameIs(final, off);
  }

  lemma FarRecordRead(b: bytes, t: nat, final: bytes)
    requires POINTER_LIMIT <= t && t % POINTER_LIMIT < |b| && b[t % POINTER_LIMIT] == 0
    requires final == b + BE(PointerWord(t), 2) + RecordHeader(AddressRecord(), 4) + ADDRESS
    ensures UnpackRR(final, |b|) == Ok((AddressRecord().(name := []), |final|))
  {
    hide BE, UnpackName, RecordHeader, PointerWord, U16At, U32At;
    var w := BE(PointerWord(t), 2);
    assert final[|b|..|b| + 2] == w;
    FarNameRead(final, |b|, t);
    HeaderBack(b + w, AddressRecord(), ADDRESS, final);
  }

  /**
   A message whose second copy of a name stands behind offset 0x4000: it is packed without an error, its pointer is
   cut, and the record comes back nameless.
   */
  lemma FarMessage(n: nat)
    requires POINTER_LIMIT <= n + 23 < STORE_LIMIT && (n + 23) % POINTER_LIMIT >= 23
    ensures ValidMessage(LongMessage(n)) && FitsFormat(LongMessage(n))
    ensures PackMessage(LongMessage(n)).Ok? && PackMessage(LongMessage(n)).value.far
    ensures var r := UnpackMessage(PackMessage(LongMessage(n)).value.buf);
            r.Ok? && |r.value.an| == 3 && r.value.an[2].name == [] && !SameMessage(LongMessage(n), r.value)
  {
    hide PackRR, UnpackRR, PackMessage, Header, RecordHeader, BE, PointerWord, ValidName, TableInv, U16At;
    var m := LongMessage(n);
    var st0, st1, st2, st3 := LongPacked(n);
    var final := st3.buf;
    LongValid(n);
    EmptyTable(st0.buf);
    RRTrips(st0, NullRecord(n), st1.buf);
    RRTrips(st0, NullRecord(n), final);
    RRTrips(st1, AddressRecord(), final);
    var p := (n + 23) % POINTER_LIMIT;
    assert st2.buf[p] == st1.buf[p] == Zeros(n)[p - 23];
    FarRecordRead(st2.buf, n + 23, final);
    MessageHeaderBack(m, final);
    ReadThree(final, |st0.buf|, |st1.buf|, |st2.buf|, |final|);
  }

  lemma LongValid(n: nat)
    requires 0 < n < 0x1_0000
    ensures ValidMessage(LongMessage(n)) && FitsFormat(LongMessage(n))
    ensures ValidRR(NullRecord(n)) && ValidRR(AddressRecord())
  {
    OneLetterName(0);
    assert Labels([]) == [];
  }

  lemma ReadThree(buf: bytes, a: nat, b: nat, c: nat, d: nat)
    requires UnpackRR(buf, a).Ok? && UnpackRR(buf, a).value.1 == b
    requires UnpackRR(buf, b).Ok? && UnpackRR(buf, b).value.1 == c
    requires UnpackRR(buf, c).Ok? && UnpackRR(buf, c).value.1 == d
    ensures UnpackRRs(buf, a, 3) ==
            Ok(([UnpackRR(buf, a).value.0, UnpackRR(buf, b).value.0, UnpackRR(buf, c).value.0], d))
  {
    hide UnpackRR;
    var x, y, z := UnpackRR(buf, a).value.0, UnpackRR(buf, b).value.0, UnpackRR(buf, c).value.0;
    ConsRR(buf, c, 1, z, d, [], d);
    assert [z] + [] == [z] && [y] + [z] == [y, z] && [x] + [y, z] == [x, y, z];
    ConsRR(buf, b, 2, y, c, [z], d);
    ConsRR(buf, a, 3, x, b, [y, z], d);
  }

  lemma ConsRR(buf: bytes, off: nat, count: nat, rr: RR, next: nat, rest: seq<RR>, end: nat)
    requires count > 0 && UnpackRR(buf, off) == Ok((rr, next)) && UnpackRRs(buf, next, count - 1) == Ok((rest, end))
    ensures UnpackRRs(buf, off, count) == Ok(([rr] + rest, end))
  {
    hide UnpackRR;
  }

  // ---------- the program's own loops ----------

  /** pack_rdata, for the record types that hold names. */
  method PackData(rd: RData, off: nat, packer: Packer) returns (r: Result<bytes>)
    modifies packer
    ensures var s := PackRData(rd, off, old(packer.labelPtrs));
            && (r.Ok? <==> s.Ok?)
            && (r.Ok? ==> r.value == s.value.wire && packer.labelPtrs == s.value.ptrs)
  {
    match rd
    case Host(t, n) =>
      if !IsHostType(t) {
        return Err(PackError);
      }
      r := packer.Pack(n, off);
    case MailExchange(pref, n) =>
      if pref.Tuple? {
        return Err(PackError);
      }
      var name :- packer.Pack(n, off + 2);
      return Ok(BE(pref.value, 2) + name);
    case Service(prio, weight, port, n) =>
      var name :- packer.Pack(n, off + 6);
      return Ok(BE(prio, 2) + BE(weight, 2) + BE(port, 2) + name);
    case Authority(mname, rname, a, b, c, d, e) =>
      var m :- packer.Pack(mname, off);
      var n :- packer.Pack(rname, off + |m|);
      return Ok(m + n + Timers(a, b, c, d, e));
    case Verbatim(t, data) =>
      if |data| == 0 && !HasOwnField(t) {
        return Err(PackError);
      }
      return Ok(data);
  }

  /** pack_rr: appends one record to the message. */
  method PackRecord(buf: bytes, rr: RR, packer: Packer, ghost far: bool) returns (r: Result<bytes>)
    modifies packer
    ensures var s := PackRR(State(buf, old(packer.labelPtrs), far), rr);
            && (r.Ok? <==> s.Ok?)
            && (r.Ok? ==> r.value == s.value.buf && packer.labelPtrs == s.value.ptrs)
  {
    hide PackRData, PackName, BE;
    var name :- packer.Pack(rr.name, |buf|);
    var rdata :- PackData(rr.rdata, |buf| + |name| + 10, packer);
    if |rdata| >= 0x1_0000 {
      return Err(PackError);
    }
    return Ok(buf + name + RecordHeader(rr, |rdata|) + rdata);
  }

  method PackSection(start: bytes, rrs: seq<RR>, packer: Packer, ghost far: bool) returns (r: Result<bytes>)
    modifies packer
    ensures var s := PackRRs(State(start, old(packer.labelPtrs), far), rrs);
            && (r.Ok? <==> s.Ok?)
            && (r.Ok? ==> r.value == s.value.buf && packer.labelPtrs == s.value.ptrs)
  {
    hide PackRR;
    var buf := start;
    ghost var st := State(buf, packer.labelPtrs, far);
    var i := 0;
    while i < |rrs|
      invariant 0 <= i <= |rrs| && st.buf == buf && st.ptrs == packer.labelPtrs
      invariant PackRRs(State(start, old(packer.labelPtrs), far), rrs) == PackRRs(st, rrs[i..])
    {
      assert rrs[i..][1..] == rrs[i + 1..];
      ghost var next := PackRR(st, rrs[i]);
      buf :- PackRecord(buf, rrs[i], packer, st.far);
      st := next.value;
      i := i + 1;
    }
    return Ok(buf);
  }

  method PackQuestions(start: bytes, qs: seq<Question>, packer: Packer, ghost far: bool) returns (r: Result<bytes>)
    modifies packer
    ensures var s := PackQs(State(start, old(packer.labelPtrs), far), qs);
            && (r.Ok? <==> s.Ok?)
            && (r.Ok? ==> r.value == s.value.buf && packer.labelPtrs == s.value.ptrs)
  {
    hide PackName, BE;
    var buf := start;
    ghost var st := State(buf, packer.labelPtrs, far);
    var i := 0;
    while i < |qs|
      invariant 0 <= i <= |qs| && st.buf == buf && st.ptrs == packer.labelPtrs
      invariant PackQs(State(start, old(packer.labelPtrs), far), qs) == PackQs(st, qs[i..])
    {
      assert qs[i..][1..] == qs[i + 1..];
      ghost var next := PackQ(st, qs[i]);
      var name :- packer.Pack(qs[i].name, |buf|);
      buf := buf + name + (BE(qs[i].qtype, 2) + BE(qs[i].cls, 2));
      st := next.value;
      i := i + 1;
    }
    return Ok(buf);
  }

  function FarOf(r: Result<State>): bool { r.Ok? && r.value.far }

  /** DNS.__bytes__: one label table shared by every name of the message. */
  method ToBytes(m: Message) returns (r: Result<bytes>)
    ensures r.Ok? <==> PackMessage(m).Ok?
    ensures r.Ok? ==> r.value == PackMessage(m).value.buf
  {
    hide PackQs, PackRRs, Header;
    if !CountsFit(m) {
      return Err(PackError);
    }
    var packer := new Packer();
    ghost var st := State(Header(m), map[], false);
    ghost var q := PackQs(st, m.qd);
    var buf :- PackQuestions(Header(m), m.qd, packer, false);
    ghost var an := PackRRs(q.value, m.an);
    buf :- PackSection(buf, m.an, packer, FarOf(q));
    ghost var ns := PackRRs(an.value, m.ns);
    buf :- PackSection(buf, m.ns, packer, FarOf(an));
    buf :- PackSection(buf, m.ar, packer, FarOf(ns));
    return Ok(buf);
  }

  function PrependRRs(done: seq<RR>, r: Result<(seq<RR>, nat)>): Result<(seq<RR>, nat)> {
    if r.Ok? then Ok((done + r.value.0, r.value.1)) else r
  }

  lemma PrependStep(done: seq<RR>, buf: bytes, off: nat, count: nat)
    requires count > 0
    ensures var r := PrependRRs(done, UnpackRRs(buf, off, count));
            var one := UnpackRR(buf, off);
            if one.Ok? then r == PrependRRs(done + [one.value.0], UnpackRRs(buf, one.value.1, count - 1))
            else r == Err(one.error)
  {
    var one := UnpackRR(buf, off);
    if one.Ok? {
      var rest := UnpackRRs(buf, one.value.1, count - 1);
      if rest.Ok? {
        assert done + ([one.value.0] + rest.value.0) == done + [one.value.0] + rest.value.0;
      }
    }
  }

  /** The record loop of DNS.unpack for one section. */
  method UnpackSection(buf: bytes, start: nat, count: nat) returns (r: Result<(seq<RR>, nat)>)
    ensures r == UnpackRRs(buf, start, count)
  {
    hide UnpackRR;
    var rrs: seq<RR> := [];
    var off, i := start, 0;
    ghost var whole := UnpackRRs(buf, start, count);
    assert whole.Ok? ==> [] + whole.value.0 == whole.value.0;
    while i < count
      invariant 0 <= i <= count
      invariant whole == PrependRRs(rrs, UnpackRRs(buf, off, count - i))
    {
      PrependStep(rrs, buf, off, count - i);
      var one := UnpackRR(buf, off);
      if one.Err? {
        return Err(one.error);
      }
      rrs, off, i := rrs + [one.value.0], one.value.1, i + 1;
    }
    assert rrs + [] == rrs;
    return Ok((rrs, off));
  }

  function PrependQs(done: seq<Question>, r: Result<(seq<Question>, nat)>): Result<(seq<Question>, nat)> {
    if r.Ok? then Ok((done + r.value.0, r.value.1)) else r
  }

  lemma PrependQStep(done: seq<Question>, buf: bytes, off: nat, count: nat)
    requires count > 0
    ensures var r := PrependQs(done, UnpackQs(buf, off, count));
            var one := UnpackQ(buf, off);
            if one.Ok? then r == PrependQs(done + [one.value.0], UnpackQs(buf, one.value.1, count - 1))
            else r == Err(one.error)
  {
    var one := UnpackQ(buf, off);
    if one.Ok? {
      var rest := UnpackQs(buf, one.value.1, count - 1);
      if rest.Ok? {
        assert done + ([one.value.0] + rest.value.0) == done + [one.value.0] + rest.value.0;
      }
    }
  }

  method UnpackQuestions(buf: bytes, start: nat, count: nat) returns (r: Result<(seq<Question>, nat)>)
    ensures r == UnpackQs(buf, start, count)
  {
    hide UnpackQ;
    var qs: seq<Question> := [];
    var off, i := start, 0;
    ghost var whole := UnpackQs(buf, start, count);
    assert whole.Ok? ==> [] + whole.value.0 == whole.value.0;
    while i < count
      invariant 0 <= i <= count
      invariant whole == PrependQs(qs, UnpackQs(buf, off, count - i))
    {
      PrependQStep(qs, buf, off, count - i);
      var one := UnpackQ(buf, off);
      if one.Err? {
        return Err(one.error);
      }
      qs, off, i := qs + [one.value.0], one.value.1, i + 1;
    }
    assert qs + [] == qs;
    return Ok((qs, off));
  }

  /** DNS.unpack: questions, then three sections of records, each from where the one before ended. */
  method FromBytes(buf: bytes) returns (r: Result<Message>)
    ensures r == UnpackMessage(buf)
  {
    hide UnpackQs, UnpackRRs, U16At;
    if |buf| < 12 {
      return Err(NeedData);
    }
    var qd := UnpackQuestions(buf, 12, U16At(buf, 4));
    if qd.Err? {
      return Err(qd.error);
    }
    var an := UnpackSection(buf, qd.value.1, U16At(buf, 6));
    if an.Err? {
      return Err(an.error);
    }
    var ns := UnpackSection(buf, an.value.1, U16At(buf, 8));
    if ns.Err? {
      return Err(ns.error);
    }
    var ar := UnpackSection(buf, ns.value.1, U16At(buf, 10));
    if ar.Err? {
      return Err(ar.error);
    }
    return Ok(Message(U16At(buf, 0), U16At(buf, 2), qd.value.0, an.value.0, ns.value.0, ar.value.0));
  }
}
