/** pcapng files in either byte order: options, blocks, the two writer paths and the reader. */
module Pcapng {
  import opened Bytes

  const SHB_TYPE: u32 := 0x0A0D0D0A
  const IDB_TYPE: u32 := 1
  const PB_TYPE: u32 := 2
  const EPB_TYPE: u32 := 6

  const MAGIC: u32 := 0x1A2B3C4D
  const MAGIC_LE: u32 := 0x4D3C2B1A

  const END_OF_OPT: u16 := 0
  const IF_TSRESOL: u16 := 9
  const IF_TSOFFSET: u16 := 14

  // ---------- alignment ----------

  /** _align32b. */
  function Align(i: nat): (a: nat)
    ensures i <= a < i + 4 && a % 4 == 0
  {
    var r := i % 4;
    if r == 0 then i else i + 4 - r
  }

  function Zeros(n: nat): (z: bytes)
    ensures |z| == n
  {
    seq(n, _ => 0)
  }

  /** _padded. */
  function Padded(s: bytes): (p: bytes)
    ensures |p| == Align(|s|) && p[..|s|] == s
  {
    s + Zeros(Align(|s|) - |s|)
  }

  /** A Python slice b[lo:hi] whose upper bound may be negative. */
  function SliceTo(b: bytes, lo: nat, hi: int): (r: bytes)
    ensures lo <= hi <= |b| ==> r == b[lo..hi]
  {
    if hi >= 0 then Slice(b, lo, hi)
    else if |b| + hi < 0 then [] else Slice(b, lo, |b| + hi)
  }

  // ---------- options ----------

  datatype Opt = Opt(code: u16, data: bytes)

  function OptBytes(le: bool, o: Opt): (b: bytes)
    ensures |b| == 4 + Align(|o.data|)
  {
    Enc(le, o.code, 2) + Enc(le, |o.data|, 2) + Padded(o.data)
  }

  function OptsBytes(le: bool, opts: seq<Opt>): (b: bytes)
    ensures |b| % 4 == 0
  {
    if |opts| == 0 then []
    else
      var head, tail := OptBytes(le, opts[0]), OptsBytes(le, opts[1..]);
      FoursAdd(|head|, |tail|);
      head + tail
  }

  lemma FoursAdd(m: nat, n: nat)
    requires m % 4 == 0 && n % 4 == 0
    ensures (m + n) % 4 == 0
  {
  }

  predicate DataFits(opts: seq<Opt>) {
    forall i :: 0 <= i < |opts| ==> |opts[i].data| < 0x1_0000
  }

  /** _do_pack_options. */
  function PackOpts(le: bool, opts: seq<Opt>): (r: Result<bytes>)
    ensures r.Ok? ==> |r.value| % 4 == 0
  {
    if |opts| == 0 then Ok([])
    else if opts[|opts| - 1].code != END_OF_OPT || !DataFits(opts) then Err(PackError)
    else Ok(OptsBytes(le, opts))
  }

  function DecU16(le: bool, b: bytes): u16
    requires |b| == 2
  {
    UnBERoundTrip(b); UnLERoundTrip(b); Widths();
    Dec(le, b)
  }

  function DecU32(le: bool, b: bytes): u32
    requires |b| == 4
  {
    UnBERoundTrip(b); UnLERoundTrip(b); Widths();
    Dec(le, b)
  }

  /** PcapngOption.unpack. */
  function UnpackOpt(le: bool, b: bytes): Result<Opt> {
    if |b| < 4 then Err(NeedData)
    else Ok(Opt(DecU16(le, b[..2]), Slice(b, 4, 4 + DecU16(le, b[2..4]))))
  }

  function OptLen(o: Opt): nat { 4 + Align(|o.data|) }

  /** The option loop of _do_unpack_options. */
  function UnpackOpts(le: bool, b: bytes): Result<seq<Opt>>
    decreases |b|
  {
    if |b| == 0 then Ok([])
    else
      var o :- UnpackOpt(le, b);
      if o.code == END_OF_OPT then Ok([o])
      else
        var rest :- UnpackOpts(le, From(b, OptLen(o)));
        Ok([o] + rest)
  }

  /** The options up to and including the first opt_endofopt. */
  function UptoEnd(opts: seq<Opt>): seq<Opt> {
    if |opts| == 0 then [] else if opts[0].code == END_OF_OPT then [opts[0]] else [opts[0]] + UptoEnd(opts[1..])
  }

  lemma DecEnc16(le: bool, n: u16)
    ensures DecU16(le, Enc(le, n, 2)) == n
  {
    Widths();
    EncRoundTrip(le, n, 2);
  }

  lemma DecEnc32(le: bool, n: u32)
    ensures DecU32(le, Enc(le, n, 4)) == n
  {
    Widths();
    EncRoundTrip(le, n, 4);
  }

  lemma OptBack(le: bool, o: Opt, rest: bytes)
    requires |o.data| < 0x1_0000
    ensures UnpackOpt(le, OptBytes(le, o) + rest) == Ok(o)
    ensures |OptBytes(le, o)| == OptLen(o) && From(OptBytes(le, o) + rest, OptLen(o)) == rest
  {
    hide Enc, DecU16, Align;
    var b := OptBytes(le, o) + rest;
    DecEnc16(le, o.code);
    DecEnc16(le, |o.data|);
    assert b[..2] == Enc(le, o.code, 2) && b[2..4] == Enc(le, |o.data|, 2);
    assert b[4..4 + |o.data|] == o.data;
  }

  lemma {:induction false} OptsCut(le: bool, opts: seq<Opt>)
    requires DataFits(opts)
    ensures UnpackOpts(le, OptsBytes(le, opts)) == Ok(UptoEnd(opts))
    decreases |opts|
  {
    hide UnpackOpt, OptBytes, OptLen, Align;
    if |opts| > 0 {
      OptBack(le, opts[0], OptsBytes(le, opts[1..]));
      OptsCut(le, opts[1..]);
    }
  }

  predicate OneEnd(opts: seq<Opt>) {
    forall i :: 0 <= i < |opts| - 1 ==> opts[i].code != END_OF_OPT
  }

  lemma {:induction false} UptoEndExact(opts: seq<Opt>)
    ensures UptoEnd(opts) == opts <==> OneEnd(opts)
    decreases |opts|
  {
    if |opts| > 0 {
      UptoEndExact(opts[1..]);
      assert opts == [opts[0]] + opts[1..];
      if opts[0].code == END_OF_OPT {
        assert OneEnd(opts) ==> |opts| == 1;
      } else {
        assert OneEnd(opts[1..]) <==> OneEnd(opts) by {
          assert forall i :: 0 <= i < |opts[1..]| ==> opts[1..][i] == opts[i + 1];
          assert forall i :: 0 < i < |opts| ==> opts[i] == opts[1..][i - 1];
        }
      }
    }
  }

  /** A packable option list survives if and only if its opt_endofopt is the only one. */
  lemma OptionsRoundTrip(le: bool, opts: seq<Opt>)
    requires PackOpts(le, opts).Ok?
    ensures UnpackOpts(le, PackOpts(le, opts).value) == Ok(opts) <==> OneEnd(opts)
  {
    hide OptsBytes;
    UptoEndExact(opts);
    if |opts| > 0 {
      OptsCut(le, opts);
    }
  }

  // ---------- blocks ----------

  datatype Shb = Shb(major: u16, minor: u16, secLen: nat, shbOpts: seq<Opt>)

  datatype Idb = Idb(linktype: u16, reserved: u16, snaplen: u32, idbOpts: seq<Opt>)

  /** An enhanced packet block; its timestamp is one 64-bit tick count. */
  datatype Epb = Epb(iface: u32, ticks: nat, pkt: bytes, epbOpts: seq<Opt>)

  /** Type, total length, the middle, and the total length again. */
  function Framed(le: bool, kind: u32, mid: bytes): (b: bytes)
    ensures |b| == |mid| + 12
  {
    Enc(le, kind, 4) + Enc(le, |mid| + 12, 4) + mid + Enc(le, |mid| + 12, 4)
  }

  function PackBlock(le: bool, kind: u32, fixed: bytes, opts: seq<Opt>): Result<bytes> {
    var o :- PackOpts(le, opts);
    if |fixed| + |o| + 12 >= 0x1_0000_0000 then Err(PackError) else Ok(Framed(le, kind, fixed + o))
  }

  function ShbFixed(le: bool, b: Shb): (f: bytes)
    ensures |f| == 16
  {
    Enc(le, MAGIC, 4) + Enc(le, b.major, 2) + Enc(le, b.minor, 2) + Enc(le, b.secLen, 8)
  }

  function IdbFixed(le: bool, b: Idb): (f: bytes)
    ensures |f| == 8
  {
    Enc(le, b.linktype, 2) + Enc(le, b.reserved, 2) + Enc(le, b.snaplen, 4)
  }

  function EpbFixed(le: bool, b: Epb): (f: bytes)
    requires b.ticks < 0x1_0000_0000_0000_0000
    ensures |f| == 20 + Align(|b.pkt|)
  {
    Enc(le, b.iface, 4) + Enc(le, b.ticks / 0x1_0000_0000, 4) + Enc(le, b.ticks % 0x1_0000_0000, 4)
    + Enc(le, |b.pkt|, 4) + Enc(le, |b.pkt|, 4) + Padded(b.pkt)
  }

  /** SectionHeaderBlock.__bytes__. */
  function PackShb(le: bool, b: Shb): Result<bytes> {
    if b.secLen >= 0x1_0000_0000_0000_0000 then Err(PackError)
    else PackBlock(le, SHB_TYPE, ShbFixed(le, b), b.shbOpts)
  }

  /** InterfaceDescriptionBlock.__bytes__. */
  function PackIdb(le: bool, b: Idb): Result<bytes> {
    PackBlock(le, IDB_TYPE, IdbFixed(le, b), b.idbOpts)
  }

  /** EnhancedPacketBlock.__bytes__. */
  function PackEpb(le: bool, b: Epb): Result<bytes> {
    if b.ticks >= 0x1_0000_0000_0000_0000 then Err(PackError)
    else PackBlock(le, EPB_TYPE, EpbFixed(le, b), b.epbOpts)
  }

  /** Options between offset `oo` and the trailing length, which must repeat the leading one. */
  function UnpackTail(le: bool, buf: bytes, len: nat, oo: nat): Result<seq<Opt>>
    requires |buf| >= 4
  {
    var opts :- UnpackOpts(le, SliceTo(buf, oo, len - 4));
    if DecU32(le, buf[|buf| - 4..]) != len then Err(UnpackError) else Ok(opts)
  }

  /** _PcapngBlock.unpack for a header of `hdr` bytes: the options start before the trailing length. */
  function UnpackPlain(le: bool, buf: bytes, hdr: nat): Result<seq<Opt>>
    requires hdr >= 12
  {
    if |buf| < hdr then Err(NeedData)
    else
      var len := DecU32(le, buf[4..8]);
      if len > |buf| then Err(NeedData) else UnpackTail(le, buf, len, hdr - 4)
  }

  function UnpackShb(le: bool, buf: bytes): Result<Shb> {
    var opts :- UnpackPlain(le, buf, 28);
    if |buf| < 28 then Err(NeedData)
    else Ok(Shb(DecU16(le, buf[12..14]), DecU16(le, buf[14..16]), Dec(le, buf[16..24]), opts))
  }

  function UnpackIdb(le: bool, buf: bytes): Result<Idb> {
    var opts :- UnpackPlain(le, buf, 20);
    if |buf| < 20 then Err(NeedData)
    else Ok(Idb(DecU16(le, buf[8..10]), DecU16(le, buf[10..12]), DecU32(le, buf[12..16]), opts))
  }

  /** EnhancedPacketBlock.unpack; the deprecated packet block has its fields at the same offsets. */
  function UnpackEpb(le: bool, buf: bytes): Result<Epb> {
    if |buf| < 32 then Err(NeedData)
    else
      var len := DecU32(le, buf[4..8]);
      if len > |buf| then Err(NeedData)
      else
        var caplen := DecU32(le, buf[20..24]);
        var opts :- UnpackTail(le, buf, len, 28 + Align(caplen));
        Ok(Epb(DecU32(le, buf[8..12]), DecU32(le, buf[12..16]) * 0x1_0000_0000 + DecU32(le, buf[16..20]),
               Slice(buf, 28, 28 + caplen), opts))
  }

  /** Head length, tail length and actual size agree in everything the writers produce. */
  lemma LengthsAgree(le: bool, kind: u32, mid: bytes)
    requires |mid| + 12 < 0x1_0000_0000
    ensures var b := Framed(le, kind, mid);
            DecU32(le, b[..4]) == kind && DecU32(le, b[4..8]) == |b| == DecU32(le, b[|b| - 4..])
            && b[8..|b| - 4] == mid
  {
    hide Enc, DecU32;
    var b := Framed(le, kind, mid);
    DecEnc32(le, kind);
    DecEnc32(le, |mid| + 12);
    assert b[..4] == Enc(le, kind, 4) && b[4..8] == Enc(le, |mid| + 12, 4);
    assert b[|b| - 4..] == Enc(le, |mid| + 12, 4);
  }

  lemma TailBack(le: bool, kind: u32, fixed: bytes, opts: seq<Opt>, oo: nat)
    requires PackBlock(le, kind, fixed, opts).Ok? && OneEnd(opts) && oo == 8 + |fixed|
    ensures var b := PackBlock(le, kind, fixed, opts).value;
            |b| >= 12 && DecU32(le, b[4..8]) == |b| && UnpackTail(le, b, |b|, oo) == Ok(opts)
    ensures var b := PackBlock(le, kind, fixed, opts).value;
            b[8..8 + |fixed|] == fixed
  {
    hide DecU32, PackOpts, UnpackOpts, Framed;
    var o := PackOpts(le, opts).value;
    var b := PackBlock(le, kind, fixed, opts).value;
    LengthsAgree(le, kind, fixed + o);
    OptionsRoundTrip(le, opts);
    MiddleSplit(b, fixed, o);
  }

  lemma MiddleSplit(b: bytes, fixed: bytes, o: bytes)
    requires |b| == |fixed| + |o| + 12 && b[8..|b| - 4] == fixed + o
    ensures b[8 + |fixed|..|b| - 4] == o && b[8..8 + |fixed|] == fixed
  {
    assert b[8 + |fixed|..|b| - 4] == (fixed + o)[|fixed|..];
    assert b[8..8 + |fixed|] == (fixed + o)[..|fixed|];
  }

  lemma SubField(b: bytes, lo: nat, fixed: bytes, at: nat, k: nat)
    requires lo + |fixed| <= |b| && b[lo..lo + |fixed|] == fixed && at + k <= |fixed|
    ensures b[lo + at..lo + at + k] == fixed[at..at + k]
  {
    var x, y := b[lo + at..lo + at + k], fixed[at..at + k];
    forall j | 0 <= j < k ensures x[j] == y[j] {
      assert b[lo..lo + |fixed|][at + j] == fixed[at + j];
    }
    assert x == y;
  }

  lemma ShbBack(le: bool, b: Shb)
    requires PackShb(le, b).Ok? && OneEnd(b.shbOpts)
    ensures UnpackShb(le, PackShb(le, b).value) == Ok(b)
    ensures var buf := PackShb(le, b).value;
            |buf| >= 28 && buf[8..12] == Enc(le, MAGIC, 4) && DecU32(le, buf[4..8]) == |buf|
  {
    hide Enc, Dec, DecU32, DecU16, PackBlock, UnpackTail;
    var fixed := ShbFixed(le, b);
    var buf := PackShb(le, b).value;
    TailBack(le, SHB_TYPE, fixed, b.shbOpts, 24);
    PackBlockSize(le, SHB_TYPE, fixed, b.shbOpts);
    SubField(buf, 8, fixed, 0, 4);
    SubField(buf, 8, fixed, 4, 2);
    SubField(buf, 8, fixed, 6, 2);
    SubField(buf, 8, fixed, 8, 8);
    assert fixed[0..4] == Enc(le, MAGIC, 4) && fixed[4..6] == Enc(le, b.major, 2);
    assert fixed[6..8] == Enc(le, b.minor, 2) && fixed[8..16] == Enc(le, b.secLen, 8);
    DecEnc16(le, b.major);
    DecEnc16(le, b.minor);
    Widths();
    EncRoundTrip(le, b.secLen, 8);
  }

  lemma PackBlockSize(le: bool, kind: u32, fixed: bytes, opts: seq<Opt>)
    requires PackBlock(le, kind, fixed, opts).Ok?
    ensures |PackBlock(le, kind, fixed, opts).value| >= |fixed| + 12
  {
  }

  lemma IdbBack(le: bool, b: Idb)
    requires PackIdb(le, b).Ok? && OneEnd(b.idbOpts)
    ensures UnpackIdb(le, PackIdb(le, b).value) == Ok(b)
  {
    hide Enc, DecU32, DecU16, PackBlock, UnpackTail;
    var fixed := IdbFixed(le, b);
    var buf := PackIdb(le, b).value;
    TailBack(le, IDB_TYPE, fixed, b.idbOpts, 16);
    PackBlockSize(le, IDB_TYPE, fixed, b.idbOpts);
    SubField(buf, 8, fixed, 0, 2);
    SubField(buf, 8, fixed, 2, 2);
    SubField(buf, 8, fixed, 4, 4);
    assert fixed[0..2] == Enc(le, b.linktype, 2) && fixed[2..4] == Enc(le, b.reserved, 2);
    assert fixed[4..8] == Enc(le, b.snaplen, 4);
    DecEnc16(le, b.linktype);
    DecEnc16(le, b.reserved);
    DecEnc32(le, b.snaplen);
  }

  lemma EpbParts(le: bool, b: Epb)
    requires b.ticks < 0x1_0000_0000_0000_0000
    ensures var f := EpbFixed(le, b);
            && f[0..4] == Enc(le, b.iface, 4) && f[4..8] == Enc(le, b.ticks / 0x1_0000_0000, 4)
            && f[8..12] == Enc(le, b.ticks % 0x1_0000_0000, 4) && f[12..16] == Enc(le, |b.pkt|, 4)
            && f[20..20 + |b.pkt|] == b.pkt
  {
    hide Enc, Align;
    var head := Enc(le, b.iface, 4) + Enc(le, b.ticks / 0x1_0000_0000, 4) + Enc(le, b.ticks % 0x1_0000_0000, 4)
                + Enc(le, |b.pkt|, 4) + Enc(le, |b.pkt|, 4);
    assert EpbFixed(le, b) == head + Padded(b.pkt);
    assert (head + Padded(b.pkt))[20..20 + |b.pkt|] == Padded(b.pkt)[..|b.pkt|];
  }

  /** A packed packet block is unpacked to itself, padding and options included. */
  lemma EpbBack(le: bool, b: Epb)
    requires PackEpb(le, b).Ok? && OneEnd(b.epbOpts)
    ensures UnpackEpb(le, PackEpb(le, b).value) == Ok(b)
  {
    hide Enc, DecU32, PackBlock, UnpackTail, EpbFixed, Align;
    var fixed := EpbFixed(le, b);
    var buf := PackEpb(le, b).value;
    TailBack(le, EPB_TYPE, fixed, b.epbOpts, 28 + Align(|b.pkt|));
    PackBlockSize(le, EPB_TYPE, fixed, b.epbOpts);
    EpbSmall(le, b);
    EpbParts(le, b);
    SubField(buf, 8, fixed, 0, 4);
    SubField(buf, 8, fixed, 4, 4);
    SubField(buf, 8, fixed, 8, 4);
    SubField(buf, 8, fixed, 12, 4);
    SubField(buf, 8, fixed, 20, |b.pkt|);
    DecEnc32(le, b.iface);
    DecEnc32(le, b.ticks / 0x1_0000_0000);
    DecEnc32(le, b.ticks % 0x1_0000_0000);
    DecEnc32(le, |b.pkt|);
  }

  lemma EpbSmall(le: bool, b: Epb)
    requires PackEpb(le, b).Ok?
    ensures |b.pkt| < 0x1_0000_0000
  {
  }

  // ---------- writing ----------

  function PackIdbs(le: bool, idbs: seq<Idb>): Result<bytes> {
    if |idbs| == 0 then Ok([])
    else
      var b :- PackIdb(le, idbs[0]);
      var rest :- PackIdbs(le, idbs[1..]);
      Ok(b + rest)
  }

  function PackEpbs(le: bool, epbs: seq<Epb>): Result<bytes> {
    if |epbs| == 0 then Ok([])
    else
      var b :- PackEpb(le, epbs[0]);
      var rest :- PackEpbs(le, epbs[1..]);
      Ok(b + rest)
  }

  /** A whole file: section header, interfaces, packets. */
  function FileOf(le: bool, shb: Shb, idbs: seq<Idb>, epbs: seq<Epb>): Result<bytes> {
    var s :- PackShb(le, shb);
    var i :- PackIdbs(le, idbs);
    var e :- PackEpbs(le, epbs);
    Ok(s + i + e)
  }

  // ---------- reading ----------

  /** f.read(n) on the rest of a file: a negative n reads everything. */
  function ReadUpto(s: bytes, n: int): bytes {
    if n < 0 then s else Slice(s, 0, n)
  }

  /** The next block of a file and what follows it: eight bytes, then as many as its length declares. */
  function NextBlock(le: bool, s: bytes): (r: (bytes, bytes))
    requires |s| >= 8
    ensures |r.1| < |s| && |r.0| >= 8
  {
    var len := DecU32(le, s[4..8]);
    var more := ReadUpto(s[8..], len - 8);
    (s[..8] + more, From(s[8..], |more|))
  }

  /** The iterator: packets of enhanced and deprecated packet blocks, every other block skipped. */
  function ReadPackets(le: bool, s: bytes): Result<seq<(nat, bytes)>>
    decreases |s|
  {
    if |s| < 8 then Ok([])
    else
      var (buf, rest) := NextBlock(le, s);
      var kind := DecU32(le, s[..4]);
      if kind == EPB_TYPE || kind == PB_TYPE then
        var b :- UnpackEpb(le, buf);
        var more :- ReadPackets(le, rest);
        Ok([(b.ticks, b.pkt)] + more)
      else ReadPackets(le, rest)
  }

  /** The search for the first interface description block. */
  function FindIdb(le: bool, s: bytes): Result<(Idb, bytes)>
    decreases |s|
  {
    if |s| < 8 then Err(ValueError)
    else
      var (buf, rest) := NextBlock(le, s);
      if DecU32(le, s[..4]) == IDB_TYPE then
        var b :- UnpackIdb(le, buf);
        Ok((b, rest))
      else FindIdb(le, rest)
  }

  /** Timestamp options must have the size their format needs. */
  predicate TimeOptsOk(opts: seq<Opt>) {
    forall i :: 0 <= i < |opts| ==>
      (opts[i].code == IF_TSRESOL ==> |opts[i].data| == 1) && (opts[i].code == IF_TSOFFSET ==> |opts[i].data| == 8)
  }

  datatype Opened = Opened(le: bool, idb: Idb, rest: bytes)

  /** The header part of Reader.__init__, once the byte order is known. */
  function OpenAs(le: bool, file: bytes): Result<Opened>
    requires |file| >= 28
  {
    var len := DecU32(le, file[4..8]);
    var more := ReadUpto(file[28..], len - 28);
    var shb :- UnpackShb(le, file[..28] + more);
    if shb.major != 1 then Err(ValueError)
    else
      var (idb, rest) :- FindIdb(le, From(file[28..], |more|));
      if !TimeOptsOk(idb.idbOpts) then Err(UnpackError) else Ok(Opened(le, idb, rest))
  }

  /** Reader.__init__: the magic, read big-endian, tells the byte order. */
  function Open(file: bytes): Result<Opened> {
    if |file| < 28 then Err(ValueError)
    else if DecU32(false, file[..4]) != SHB_TYPE then Err(ValueError)
    else
      var bom := DecU32(false, file[8..12]);
      if bom == MAGIC_LE then OpenAs(true, file)
      else if bom == MAGIC then OpenAs(false, file)
      else Err(ValueError)
  }

  // ---------- reading what was written ----------

  lemma NextIs(le: bool, kind: u32, fixed: bytes, opts: seq<Opt>, rest: bytes)
    requires PackBlock(le, kind, fixed, opts).Ok?
    ensures var b := PackBlock(le, kind, fixed, opts).value;
            |b| >= 8 && NextBlock(le, b + rest) == (b, rest) && DecU32(le, (b + rest)[..4]) == kind
  {
    hide DecU32, PackOpts;
    var o := PackOpts(le, opts).value;
    var b := Framed(le, kind, fixed + o);
    LengthsAgree(le, kind, fixed + o);
    var s := b + rest;
    assert s[4..8] == b[4..8] && s[..4] == b[..4] && s[..8] == b[..8];
    assert s[8..][..|b| - 8] == b[8..] && s[8..][|b| - 8..] == rest;
    assert b[..8] + b[8..] == b;
  }

  /** What the iterator yields for written packet blocks. */
  function Yielded(epbs: seq<Epb>): seq<(nat, bytes)> {
    seq(|epbs|, i requires 0 <= i < |epbs| => (epbs[i].ticks, epbs[i].pkt))
  }

  /** A written packet block at the front of a file is the next packet. */
  lemma EpbRead(le: bool, epb: Epb, rest: bytes)
    requires PackEpb(le, epb).Ok? && OneEnd(epb.epbOpts) && ReadPackets(le, rest).Ok?
    ensures ReadPackets(le, PackEpb(le, epb).value + rest) == Ok([(epb.ticks, epb.pkt)] + ReadPackets(le, rest).value)
  {
    hide NextBlock, UnpackEpb, DecU32, PackBlock, OneEnd, EpbFixed;
    NextIs(le, EPB_TYPE, EpbFixed(le, epb), epb.epbOpts, rest);
    EpbBack(le, epb);
  }

  lemma EmptyFile(le: bool)
    ensures ReadPackets(le, []) == Ok([])
  {
  }

  lemma {:induction false} PacketsBack(le: bool, epbs: seq<Epb>)
    requires PackEpbs(le, epbs).Ok? && forall i :: 0 <= i < |epbs| ==> OneEnd(epbs[i].epbOpts)
    ensures ReadPackets(le, PackEpbs(le, epbs).value) == Ok(Yielded(epbs))
    decreases |epbs|
  {
    hide PackEpb, OneEnd, ReadPackets;
    EmptyFile(le);
    if |epbs| > 0 {
      PacketsBack(le, epbs[1..]);
      EpbRead(le, epbs[0], PackEpbs(le, epbs[1..]).value);
      assert Yielded(epbs) == [(epbs[0].ticks, epbs[0].pkt)] + Yielded(epbs[1..]);
    }
  }

  lemma NextIsIdb(le: bool, idb: Idb, rest: bytes)
    requires PackIdb(le, idb).Ok?
    ensures var b := PackIdb(le, idb).value;
            |b| >= 8 && NextBlock(le, b + rest) == (b, rest) && DecU32(le, (b + rest)[..4]) == IDB_TYPE
  {
    hide NextBlock, DecU32, PackBlock;
    NextIs(le, IDB_TYPE, IdbFixed(le, idb), idb.idbOpts, rest);
  }

  /** Interface blocks behind the first are skipped like any other block. */
  lemma {:induction false} IdbsSkipped(le: bool, idbs: seq<Idb>, rest: bytes)
    requires PackIdbs(le, idbs).Ok?
    ensures ReadPackets(le, PackIdbs(le, idbs).value + rest) == ReadPackets(le, rest)
    decreases |idbs|
  {
    hide NextBlock, UnpackEpb, DecU32, PackIdb;
    if |idbs| == 0 {
      assert [] + rest == rest;
    } else {
      var b, tail := PackIdb(le, idbs[0]).value, PackIdbs(le, idbs[1..]).value;
      assert b + tail + rest == b + (tail + rest);
      NextIsIdb(le, idbs[0], tail + rest);
      IdbsSkipped(le, idbs[1..], rest);
    }
  }

  lemma FourBytes(a: byte, b: byte, c: byte, d: byte, n: u32)
    requires n == a as int + 0x100 * b as int + 0x1_0000 * c as int + 0x100_0000 * d as int
    ensures LE(n, 4) == [a, b, c, d] && BE(n, 4) == [d, c, b, a]
  {
    var n1 := b as int + 0x100 * c as int + 0x1_0000 * d as int;
    var n2 := c as int + 0x100 * d as int;
    var n3 := d as int;
    assert n / 256 == n1 && n % 256 == a as int;
    assert n1 / 256 == n2 && n1 % 256 == b as int;
    assert n2 / 256 == n3 && n2 % 256 == c as int;
    assert LE(n3, 1) == [d] + LE(0, 0) && BE(n3, 1) == BE(0, 0) + [d];
    assert LE(n2, 2) == [c] + LE(n3, 1) && BE(n2, 2) == BE(n3, 1) + [c];
    assert LE(n1, 3) == [b] + LE(n2, 2) && BE(n1, 3) == BE(n2, 2) + [b];
  }

  /** The section header type reads the same in both byte orders; the magic does not. */
  lemma Palindrome(le: bool)
    ensures DecU32(false, Enc(le, SHB_TYPE, 4)) == SHB_TYPE
    ensures DecU32(false, Enc(le, MAGIC, 4)) == if le then MAGIC_LE else MAGIC
  {
    hide DecU32, LE, BE;
    DecEnc32(false, SHB_TYPE);
    DecEnc32(false, MAGIC);
    DecEnc32(false, MAGIC_LE);
    FourBytes(0x0A, 0x0D, 0x0D, 0x0A, SHB_TYPE);
    FourBytes(0x4D, 0x3C, 0x2B, 0x1A, MAGIC);
    FourBytes(0x1A, 0x2B, 0x3C, 0x4D, MAGIC_LE);
  }

  lemma ShbStart(le: bool, b: Shb)
    requires PackShb(le, b).Ok?
    ensures |PackShb(le, b).value| >= 28 && PackShb(le, b).value[..4] == Enc(le, SHB_TYPE, 4)
  {
    hide PackOpts, Enc;
    var o := PackOpts(le, b.shbOpts).value;
    assert Framed(le, SHB_TYPE, ShbFixed(le, b) + o)[..4] == Enc(le, SHB_TYPE, 4);
  }

  lemma OpenAsBack(le: bool, shb: Shb, idb: Idb, rest: bytes)
    requires PackShb(le, shb).Ok? && OneEnd(shb.shbOpts) && shb.major == 1
    requires PackIdb(le, idb).Ok? && OneEnd(idb.idbOpts) && TimeOptsOk(idb.idbOpts)
    ensures |PackShb(le, shb).value| >= 28
    ensures OpenAs(le, PackShb(le, shb).value + (PackIdb(le, idb).value + rest)) == Ok(Opened(le, idb, rest))
  {
    hide DecU32, UnpackShb, UnpackIdb, PackBlock, NextBlock, OneEnd, TimeOptsOk, Slice;
    var s, tail := PackShb(le, shb).value, PackIdb(le, idb).value + rest;
    ShbBack(le, shb);
    NextIs(le, IDB_TYPE, IdbFixed(le, idb), idb.idbOpts, rest);
    IdbBack(le, idb);
    SplitAt(s, tail, 28);
    assert (s + tail)[4..8] == s[4..8];
  }

  lemma SplitAt(s: bytes, tail: bytes, k: nat)
    requires k <= |s|
    ensures var f := s + tail;
            f[..k] + ReadUpto(f[k..], |s| - k) == s && |ReadUpto(f[k..], |s| - k)| == |s| - k
            && From(f[k..], |s| - k) == tail
  {
  }

  ghost predicate Writable(shb: Shb, idbs: seq<Idb>, epbs: seq<Epb>) {
    && shb.major == 1 && OneEnd(shb.shbOpts)
    && |idbs| > 0 && OneEnd(idbs[0].idbOpts) && TimeOptsOk(idbs[0].idbOpts)
    && forall i :: 0 <= i < |epbs| ==> OneEnd(epbs[i].epbOpts)
  }

  /**
   In either byte order the reader detects the order of a written file, finds its first interface, and yields
   exactly the packets and 64-bit tick counts in order.
   */
  lemma FileRoundTrip(le: bool, shb: Shb, idbs: seq<Idb>, epbs: seq<Epb>)
    requires Writable(shb, idbs, epbs) && FileOf(le, shb, idbs, epbs).Ok?
    ensures var r := Open(FileOf(le, shb, idbs, epbs).value);
            && r.Ok? && r.value.le == le && r.value.idb == idbs[0]
            && ReadPackets(le, r.value.rest) == Ok(Yielded(epbs))
  {
    hide OpenAs, ReadPackets, PackShb, PackIdb, PackEpb, OneEnd, TimeOptsOk, DecU32, Enc;
    var s, i, e := PackShb(le, shb).value, PackIdbs(le, idbs).value, PackEpbs(le, epbs).value;
    var first, others := PackIdb(le, idbs[0]).value, PackIdbs(le, idbs[1..]).value;
    var file := s + i + e;
    assert i == first + others;
    assert file == s + (first + (others + e));
    ShbStart(le, shb);
    ShbBack(le, shb);
    Palindrome(le);
    assert file[..4] == s[..4] && file[8..12] == s[8..12];
    OpenAsBack(le, shb, idbs[0], others + e);
    IdbsSkipped(le, idbs[1..], e);
    PacketsBack(le, epbs);
  }

  // ---------- the program's own form ----------

  /** What writepkt_time puts into the file for a tick count that may be out of range. */
  function PacketBytes(le: bool, ticks: int, pkt: bytes): Result<bytes> {
    if ticks < 0 then Err(PackError) else PackEpb(le, Epb(0, ticks, pkt, []))
  }

  /** The bytes written for a list of packets up to the first that cannot be packed, and whether there is one. */
  function Written(le: bool, pkts: seq<(int, bytes)>): (bytes, bool) {
    if |pkts| == 0 then ([], true)
    else
      match PacketBytes(le, pkts[0].0, pkts[0].1)
      case Err(_) => ([], false)
      case Ok(b) => var (rest, ok) := Written(le, pkts[1..]); (b + rest, ok)
  }

  /** A header packed in one go, cut before its trailing length, is the block with no options. */
  lemma HeaderSplit(le: bool, ticks: nat, pkt: bytes)
    requires ticks < 0x1_0000_0000_0000_0000
    ensures var n := 32 + Align(|pkt|);
            var hdr := Enc(le, EPB_TYPE, 4) + Enc(le, n, 4) + Enc(le, 0, 4) + Enc(le, ticks / 0x1_0000_0000, 4)
                       + Enc(le, ticks % 0x1_0000_0000, 4) + Enc(le, |pkt|, 4) + Enc(le, |pkt|, 4) + Enc(le, n, 4);
            PackEpb(le, Epb(0, ticks, pkt, [])) ==
            if n < 0x1_0000_0000 then Ok(hdr[..28] + Padded(pkt) + [] + hdr[28..]) else Err(PackError)
  {
    hide Enc, Align;
    var n := 32 + Align(|pkt|);
    var a, b, c, d := Enc(le, EPB_TYPE, 4), Enc(le, n, 4), Enc(le, 0, 4), Enc(le, ticks / 0x1_0000_0000, 4);
    var e, f := Enc(le, ticks % 0x1_0000_0000, 4), Enc(le, |pkt|, 4);
    var hdr := a + b + c + d + e + f + f + b;
    assert hdr[..28] == a + b + c + d + e + f + f && hdr[28..] == b;
    var fixed := EpbFixed(le, Epb(0, ticks, pkt, []));
    assert fixed == c + d + e + f + f + Padded(pkt);
    assert fixed + [] == fixed && |fixed| + 12 == n;
    assert a + b + fixed + b == hdr[..28] + Padded(pkt) + [] + hdr[28..];
  }

  class Writer {
    const le: bool
    var f: bytes

    /** Writes the section header and the interface blocks. */
    constructor (le: bool, shb: bytes, idbs: bytes)
      ensures this.le == le && f == shb + idbs
    {
      this.le, f := le, shb + idbs;
    }

    /** writepkt_time, with the timestamp as an integer tick count. */
    method WritePktTime(pkt: bytes, ticks: int) returns (ok: bool)
      modifies this`f
      ensures ok <==> PacketBytes(le, ticks, pkt).Ok?
      ensures f == if ok then old(f) + PacketBytes(le, ticks, pkt).value else old(f)
    {
      hide PackEpb;
      if ticks < 0 {
        return false;
      }
      var b := PackEpb(le, Epb(0, ticks, pkt, []));
      if b.Err? {
        return false;
      }
      f := f + b.value;
      return true;
    }

    /** writepkts: headers are packed directly, without building blocks. */
    method WritePkts(pkts: seq<(int, bytes)>) returns (ok: bool)
      modifies this`f
      ensures (f, ok) == (old(f) + Written(le, pkts).0, Written(le, pkts).1)
    {
      hide PackEpb, Enc, Written;
      var i := 0;
      assert pkts[0..] == pkts;
      while i < |pkts|
        invariant 0 <= i <= |pkts|
        invariant (old(f) + Written(le, pkts).0, Written(le, pkts).1)
               == (f + Written(le, pkts[i..]).0, Written(le, pkts[i..]).1)
      {
        WrittenStep(f, le, pkts, i);
        var (ticks, pkt) := pkts[i];
        var n := 32 + Align(|pkt|);
        if !(0 <= ticks < 0x1_0000_0000_0000_0000) || n >= 0x1_0000_0000 {
          RefusedPacket(le, ticks, pkt);
          return false;
        }
        HeaderSplit(le, ticks, pkt);
        var hdr := Enc(le, EPB_TYPE, 4) + Enc(le, n, 4) + Enc(le, 0, 4) + Enc(le, ticks / 0x1_0000_0000, 4)
                   + Enc(le, ticks % 0x1_0000_0000, 4) + Enc(le, |pkt|, 4) + Enc(le, |pkt|, 4) + Enc(le, n, 4);
        var buf := hdr[..28] + Padded(pkt) + [] + hdr[28..];
        f := f + buf;
        i := i + 1;
      }
      NothingWritten(f, le, pkts[i..]);
      return true;
    }

    /** The same list written packet by packet, as a caller of writepkt_time does. */
    method WriteEach(pkts: seq<(int, bytes)>) returns (ok: bool)
      modifies this`f
      ensures (f, ok) == (old(f) + Written(le, pkts).0, Written(le, pkts).1)
    {
      hide PacketBytes, Align, Written;
      var i := 0;
      assert pkts[0..] == pkts;
      while i < |pkts|
        invariant 0 <= i <= |pkts|
        invariant (old(f) + Written(le, pkts).0, Written(le, pkts).1)
               == (f + Written(le, pkts[i..]).0, Written(le, pkts[i..]).1)
      {
        WrittenStep(f, le, pkts, i);
        var one := WritePktTime(pkts[i].1, pkts[i].0);
        if !one {
          return false;
        }
        i := i + 1;
      }
      NothingWritten(f, le, pkts[i..]);
      return true;
    }
  }

  lemma NothingWritten(f: bytes, le: bool, pkts: seq<(int, bytes)>)
    requires |pkts| == 0
    ensures (f + Written(le, pkts).0, Written(le, pkts).1) == (f, true)
  {
    assert f + [] == f;
  }

  lemma WrittenStep(f: bytes, le: bool, pkts: seq<(int, bytes)>, i: nat)
    requires i < |pkts|
    ensures var all, rest := Written(le, pkts[i..]), Written(le, pkts[i + 1..]);
            var b := PacketBytes(le, pkts[i].0, pkts[i].1);
            if b.Ok? then (f + all.0, all.1) == (f + b.value + rest.0, rest.1) else (f + all.0, all.1) == (f, false)
  {
    hide PacketBytes;
    assert pkts[i..][1..] == pkts[i + 1..];
    var b := PacketBytes(le, pkts[i].0, pkts[i].1);
    if b.Ok? {
      var rest := Written(le, pkts[i + 1..]).0;
      assert f + (b.value + rest) == f + b.value + rest;
    } else {
      assert f + [] == f;
    }
  }

  lemma RefusedPacket(le: bool, ticks: int, pkt: bytes)
    requires !(0 <= ticks < 0x1_0000_0000_0000_0000) || 32 + Align(|pkt|) >= 0x1_0000_0000
    ensures PacketBytes(le, ticks, pkt).Err?
  {
    hide Enc;
    if 0 <= ticks < 0x1_0000_0000_0000_0000 {
      HeaderSplit(le, ticks, pkt);
    }
  }

  function EpbsOf(pkts: seq<(int, bytes)>): seq<Epb>
    requires forall i :: 0 <= i < |pkts| ==> 0 <= pkts[i].0
  {
    seq(|pkts|, i requires 0 <= i < |pkts| => Epb(0, pkts[i].0, pkts[i].1, []))
  }

  /** Everything written successfully is the packet part of a file. */
  lemma {:induction false} WrittenIsPacked(le: bool, pkts: seq<(int, bytes)>)
    requires Written(le, pkts).1
    ensures forall i :: 0 <= i < |pkts| ==> 0 <= pkts[i].0
    ensures PackEpbs(le, EpbsOf(pkts)) == Ok(Written(le, pkts).0)
    decreases |pkts|
  {
    hide PackEpb;
    if |pkts| > 0 {
      WrittenIsPacked(le, pkts[1..]);
      assert forall i :: 0 < i < |pkts| ==> pkts[i] == pkts[1..][i - 1];
      assert EpbsOf(pkts)[1..] == EpbsOf(pkts[1..]);
    }
  }

  /** Packets written in one batch, or one by one, come back from the reader in order with their tick counts. */
  lemma PacketsRoundTrip(le: bool, shb: Shb, idbs: seq<Idb>, pkts: seq<(int, bytes)>)
    requires Writable(shb, idbs, []) && PackShb(le, shb).Ok? && PackIdbs(le, idbs).Ok? && Written(le, pkts).1
    ensures forall i :: 0 <= i < |pkts| ==> 0 <= pkts[i].0
    ensures var file := PackShb(le, shb).value + PackIdbs(le, idbs).value + Written(le, pkts).0;
            var r := Open(file);
            && r.Ok? && r.value.le == le && r.value.idb == idbs[0]
            && ReadPackets(le, r.value.rest) == Ok(Yielded(EpbsOf(pkts)))
            && forall i :: 0 <= i < |pkts| ==> Yielded(EpbsOf(pkts))[i] == (pkts[i].0 as nat, pkts[i].1)
  {
    hide Open, ReadPackets, PackShb, PackIdbs, PackEpbs;
    WrittenIsPacked(le, pkts);
    FileRoundTrip(le, shb, idbs, EpbsOf(pkts));
  }

  class Reader {
    const le: bool
    var f: bytes

    constructor (start: Opened)
      ensures le == start.le && f == start.rest
    {
      le, f := start.le, start.rest;
    }

    /** __iter__ run to the end of the file. */
    method ReadPkts() returns (r: Result<seq<(nat, bytes)>>)
      modifies this`f
      ensures r == ReadPackets(le, old(f))
      ensures r.Ok? ==> |f| < 8
    {
      hide NextBlock, UnpackEpb, DecU32, ReadPackets;
      var pkts: seq<(nat, bytes)> := [];
      ghost var whole := ReadPackets(le, f);
      assert whole.Ok? ==> [] + whole.value == whole.value;
      while |f| >= 8
        invariant var rest := ReadPackets(le, f);
                  if rest.Ok? then whole == Ok(pkts + rest.value) else whole == rest
        decreases |f|
      {
        ReadStep(pkts, le, f);
        var kind := DecU32(le, f[..4]);
        var (buf, rest) := NextBlock(le, f);
        if kind == EPB_TYPE || kind == PB_TYPE {
          var b := UnpackEpb(le, buf);
          if b.Err? {
            return Err(b.error);
          }
          pkts := pkts + [(b.value.ticks, b.value.pkt)];
        }
        f := rest;
      }
      EndOfFile(le, f);
      assert pkts + [] == pkts;
      return Ok(pkts);
    }
  }

  lemma EndOfFile(le: bool, s: bytes)
    requires |s| < 8
    ensures ReadPackets(le, s) == Ok([])
  {
  }

  lemma ReadStep(pkts: seq<(nat, bytes)>, le: bool, s: bytes)
    requires |s| >= 8
    ensures var (buf, rest) := NextBlock(le, s);
            var kind := DecU32(le, s[..4]);
            var all, tail := ReadPackets(le, s), ReadPackets(le, rest);
            if kind == EPB_TYPE || kind == PB_TYPE then
              var b := UnpackEpb(le, buf);
              if b.Err? then all == Err(b.error)
              else if tail.Err? then all == tail
              else all.Ok? && pkts + all.value == pkts + [(b.value.ticks, b.value.pkt)] + tail.value
            else all == tail
  {
    hide NextBlock, UnpackEpb, DecU32;
  }

  /** The option loop of _do_unpack_options. */
  method UnpackOptions(le: bool, buf: bytes) returns (r: Result<seq<Opt>>)
    ensures r == UnpackOpts(le, buf)
  {
    hide UnpackOpts, UnpackOpt, OptLen;
    var optsBuf := buf;
    var opts: seq<Opt> := [];
    ghost var goal := UnpackOpts(le, buf);
    assert goal.Ok? ==> [] + goal.value == goal.value;
    while |optsBuf| > 0
      invariant var rest := UnpackOpts(le, optsBuf);
                if rest.Ok? then goal == Ok(opts + rest.value) else goal == rest
      decreases |optsBuf|
    {
      OptionStep(le, optsBuf, opts);
      var o :- UnpackOpt(le, optsBuf);
      opts := opts + [o];
      optsBuf := From(optsBuf, OptLen(o));
      if o.code == END_OF_OPT {
        return Ok(opts);
      }
    }
    NoOptions(le, optsBuf);
    assert opts + [] == opts;
    return Ok(opts);
  }

  lemma NoOptions(le: bool, b: bytes)
    requires |b| == 0
    ensures UnpackOpts(le, b) == Ok([])
  {
  }

  lemma OptionStep(le: bool, b: bytes, opts: seq<Opt>)
    requires |b| > 0
    ensures var all := UnpackOpts(le, b);
            var o := UnpackOpt(le, b);
            if o.Err? then all == Err(o.error)
            else if o.value.code == END_OF_OPT then all == Ok([o.value])
            else
              var rest := UnpackOpts(le, From(b, OptLen(o.value)));
              && |From(b, OptLen(o.value))| < |b|
              && if rest.Err? then all == rest
                 else all.Ok? && opts + all.value == opts + [o.value] + rest.value
  {
    hide UnpackOpt, Align;
    var o := UnpackOpt(le, b);
    if o.Ok? {
      var rest := UnpackOpts(le, From(b, OptLen(o.value)));
      assert rest.Ok? ==> opts + ([o.value] + rest.value) == opts + [o.value] + rest.value;
    }
  }

  /** The search loop of Reader.__init__. */
  method SeekIdb(le: bool, file: bytes) returns (r: Result<(Idb, bytes)>)
    ensures r == FindIdb(le, file)
  {
    hide NextBlock, UnpackIdb, DecU32;
    var f := file;
    while |f| >= 8
      invariant FindIdb(le, file) == FindIdb(le, f)
      decreases |f|
    {
      var kind := DecU32(le, f[..4]);
      var (buf, rest) := NextBlock(le, f);
      if kind == IDB_TYPE {
        var idb :- UnpackIdb(le, buf);
        return Ok((idb, rest));
      }
      f := rest;
    }
    return Err(ValueError);
  }

  /** Reader.__init__: byte order, version, first interface, timestamp options. */
  method OpenFile(file: bytes) returns (r: Result<Opened>)
    ensures r == Open(file)
  {
    hide UnpackShb, FindIdb, DecU32, ReadUpto;
    if |file| < 28 || DecU32(false, file[..4]) != SHB_TYPE {
      return Err(ValueError);
    }
    var bom := DecU32(false, file[8..12]);
    if bom != MAGIC_LE && bom != MAGIC {
      return Err(ValueError);
    }
    var le := bom == MAGIC_LE;
    var more := ReadUpto(file[28..], DecU32(le, file[4..8]) - 28);
    var shb :- UnpackShb(le, file[..28] + more);
    if shb.major != 1 {
      return Err(ValueError);
    }
    var found := SeekIdb(le, From(file[28..], |more|));
    if found.Err? {
      return Err(found.error);
    }
    var (idb, rest) := found.value;
    if !TimeOptsOk(idb.idbOpts) {
      return Err(UnpackError);
    }
    return Ok(Opened(le, idb, rest));
  }
}
