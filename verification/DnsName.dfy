/**
 Domain names on the wire: dot-separated names, labels, and the compression scheme of section 4.1.4 of
 RFC 1035, in which a suffix written earlier in the message is replaced by a two-byte back pointer.
 */
module DnsName {
  import opened Bytes

  const DOT: byte := 46

  /** Targets at or above this offset are never remembered. */
  const STORE_LIMIT := 0xc000

  /** Only the low fourteen bits of a back pointer survive on the wire. */
  const POINTER_LIMIT := 0x4000

  const MAX_NAME := 255

  type LabelPtrs = map<bytes, nat>

  // ---------- dotted names ----------

  function UpperByte(b: byte): byte { if 97 <= b <= 122 then b - 32 else b }

  /** bytes.upper(): ASCII letters only. */
  function Upper(s: bytes): (r: bytes)
    ensures |r| == |s|
  {
    seq(|s|, i requires 0 <= i < |s| => UpperByte(s[i]))
  }

  function Join(labels: seq<bytes>): bytes {
    if |labels| == 0 then [] else if |labels| == 1 then labels[0] else labels[0] + [DOT] + Join(labels[1..])
  }

  /** bytes.split(b'.'). */
  function Split(name: bytes): (labels: seq<bytes>)
    ensures |labels| > 0
  {
    if |name| == 0 then [[]]
    else
      var rest := Split(name[1..]);
      if name[0] == DOT then [[]] + rest else [[name[0]] + rest[0]] + rest[1..]
  }

  /** The labels of a name without the root label; the empty name has none. */
  function Labels(name: bytes): seq<bytes> {
    if |name| == 0 then [] else Split(name)
  }

  ghost predicate DotFree(labels: seq<bytes>) {
    forall i :: 0 <= i < |labels| ==> DOT !in labels[i]
  }

  /** Splitting and joining lose nothing, and no label keeps a dot. */
  lemma {:induction false} SplitJoin(name: bytes)
    ensures Join(Split(name)) == name && DotFree(Split(name))
  {
    if |name| > 0 {
      var rest := Split(name[1..]);
      SplitJoin(name[1..]);
      if name[0] == DOT {
        assert Split(name)[1..] == rest;
      } else {
        assert Split(name)[1..] == rest[1..];
      }
      assert name == [name[0]] + name[1..];
    }
  }

  /** The dictionary key of a suffix: every label upper-cased and followed by a dot. */
  function Key(labels: seq<bytes>): bytes {
    if |labels| == 0 then [] else Upper(labels[0]) + [DOT] + Key(labels[1..])
  }

  /** The length a run of labels takes on the wire, without the terminator. */
  function WireLen(labels: seq<bytes>): nat {
    if |labels| == 0 then 0 else |labels[0]| + 1 + WireLen(labels[1..])
  }

  /** The key is what pack_name computes: labels and the root label joined, then upper-cased. */
  lemma {:induction false} KeyIsJoin(labels: seq<bytes>)
    ensures Upper(Join(labels + [[]])) == Key(labels)
  {
    if |labels| > 0 {
      KeyIsJoin(labels[1..]);
      assert (labels + [[]])[1..] == labels[1..] + [[]];
    }
  }

  lemma {:induction false} KeyLength(labels: seq<bytes>)
    ensures |Key(labels)| == WireLen(labels)
  {
    if |labels| > 0 { KeyLength(labels[1..]); }
  }

  lemma UpperConcat(a: bytes, b: bytes)
    ensures Upper(a + b) == Upper(a) + Upper(b)
  {
  }

  /** A key is the upper-cased name with a final dot. */
  lemma {:induction false} KeyIsName(labels: seq<bytes>)
    ensures Key(labels) == if |labels| == 0 then [] else Upper(Join(labels)) + [DOT]
  {
    hide Upper;
    if |labels| > 1 {
      KeyIsName(labels[1..]);
      var rest := Join(labels[1..]);
      UpperConcat(labels[0] + [DOT], rest);
      UpperConcat(labels[0], [DOT]);
      UpperDot();
      assert Upper(labels[0]) + [DOT] + (Upper(rest) + [DOT]) == Upper(labels[0]) + [DOT] + Upper(rest) + [DOT];
    } else if |labels| == 1 {
      assert Key(labels[1..]) == [];
      assert Upper(labels[0]) + [DOT] + [] == Upper(labels[0]) + [DOT];
    }
  }

  lemma UpperDot()
    ensures Upper([DOT]) == [DOT]
  {
  }

  ghost predicate SameLabels(a: seq<bytes>, b: seq<bytes>) {
    |a| == |b| && forall i :: 0 <= i < |a| ==> Upper(a[i]) == Upper(b[i])
  }

  /** Keys of dot-free labels are injective up to ASCII case. */
  lemma {:induction false} KeyInjective(a: seq<bytes>, b: seq<bytes>)
    requires DotFree(a) && DotFree(b) && Key(a) == Key(b)
    ensures SameLabels(a, b)
  {
    if |a| > 0 && |b| > 0 {
      var u, v := Upper(a[0]), Upper(b[0]);
      assert Key(a)[|u|] == DOT && Key(b)[|v|] == DOT;
      FirstLabelLength(a[0], b[0], Key(a));
      assert Key(a)[..|u|] == u && Key(b)[..|v|] == v;
      assert Key(a)[|u| + 1..] == Key(a[1..]) && Key(b)[|v| + 1..] == Key(b[1..]);
      KeyInjective(a[1..], b[1..]);
    }
  }

  lemma FirstLabelLength(a: bytes, b: bytes, key: bytes)
    requires DOT !in a && DOT !in b
    requires |a| < |key| && |b| < |key| && key[|a|] == DOT && key[|b|] == DOT
    requires Upper(a) == key[..|a|] && Upper(b) == key[..|b|]
    ensures |a| == |b|
  {
    UpperKeepsDots(a);
    UpperKeepsDots(b);
    if |a| < |b| { assert false; }
    if |b| < |a| { assert false; }
  }

  lemma UpperKeepsDots(a: bytes)
    requires DOT !in a
    ensures forall i :: 0 <= i < |a| ==> Upper(a)[i] != DOT
  {
    forall i | 0 <= i < |a| ensures Upper(a)[i] != DOT {
      assert a[i] in a;
    }
  }

  // ---------- packing ----------

  /** What packing one name yields: its bytes, the new table, and the back pointer target it used, if any. */
  datatype Packed = Packed(wire: bytes, ptrs: LabelPtrs, target: Option<nat>)

  function Remember(ptrs: LabelPtrs, key: bytes, off: nat): LabelPtrs {
    if |key| > 1 && off < STORE_LIMIT then ptrs[key := off] else ptrs
  }

  /** `0xc000 | ptr` for a remembered target: the two pointer bits and the low fourteen bits of the target. */
  function PointerWord(target: nat): (w: nat)
    ensures 0xc000 <= w < 0x1_0000
  {
    0xc000 + target % POINTER_LIMIT
  }

  /** Packs the given labels and the root label at offset off. */
  function PackLabels(labels: seq<bytes>, off: nat, ptrs: LabelPtrs): (r: Result<Packed>)
    decreases |labels|
  {
    var key := Key(labels);
    if key in ptrs then
      Ok(Packed(BE(PointerWord(ptrs[key]), 2), ptrs, Some(ptrs[key])))
    else
      var ptrs' := Remember(ptrs, key, off);
      if |labels| == 0 then
        Ok(Packed([0], ptrs', None))
      else if |labels[0]| > 255 then
        Err(PackError)
      else
        var rest :- PackLabels(labels[1..], off + 1 + |labels[0]|, ptrs');
        Ok(rest.(wire := [|labels[0]| as byte] + labels[0] + rest.wire))
  }

  // ---------- unpacking ----------

  datatype Name = Name(labels: seq<bytes>, next: nat)

  /** The target of the back pointer at off: its low fourteen bits. */
  function PointerAt(buf: bytes, off: nat): nat
    requires off + 2 <= |buf|
  {
    UnBE(buf[off..off + 2]) % POINTER_LIMIT
  }

  /** One run of labels from off; a back pointer must lead before start, where the current run began. */
  function UnpackLabels(buf: bytes, off: nat, start: nat, nameLength: nat): (r: Result<Name>)
    requires nameLength <= MAX_NAME
    ensures r.Ok? ==> off < r.value.next <= |buf| && nameLength + WireLen(r.value.labels) <= MAX_NAME
    decreases start, |buf| - off
  {
    if off >= |buf| then Err(NeedData)
    else
      var n := buf[off] as int;
      if n == 0 then Ok(Name([], off + 1))
      else if n >= 0xc0 then
        if off + 2 > |buf| then Err(UnpackError)
        else
          var ptr := PointerAt(buf, off);
          if ptr >= start then Err(UnpackError)
          else
            var name :- UnpackLabels(buf, ptr, ptr, nameLength);
            Ok(name.(next := off + 2))
      else if n < 0x40 then
        var piece := Slice(buf, off + 1, off + 1 + n);
        if nameLength + n + 1 > MAX_NAME then Err(UnpackError)
        else
          var rest :- UnpackLabels(buf, off + 1 + n, start, nameLength + n + 1);
          Ok(rest.(labels := [piece] + rest.labels))
      else Err(UnpackError)
  }

  /** unpack_name: the dotted name at off and the offset just after it. */
  function UnpackName(buf: bytes, off: nat): Result<(bytes, nat)> {
    var name :- UnpackLabels(buf, off, off, 0);
    Ok((Join(name.labels), name.next))
  }

  lemma {:induction false} JoinLength(labels: seq<bytes>)
    ensures |labels| > 0 ==> |Join(labels)| == WireLen(labels) - 1
  {
    if |labels| > 1 {
      JoinLength(labels[1..]);
    } else if |labels| == 1 {
      assert WireLen(labels[1..]) == 0;
    }
  }

  /** On every buffer and offset: a decoded name has at most 254 bytes and its end lies inside the buffer. */
  lemma UnpackNameBounds(buf: bytes, off: nat)
    ensures UnpackName(buf, off).Ok? ==>
              var (name, next) := UnpackName(buf, off).value; |name| <= 254 && off < next <= |buf|
  {
    if UnpackName(buf, off).Ok? {
      JoinLength(UnpackLabels(buf, off, off, 0).value.labels);
    }
  }

  /** Where unpack_name raises: past the end, a cut or forward pointer, a reserved length, or a name too long. */
  predicate BadAt(buf: bytes, off: nat, start: nat, nl: nat) {
    off < |buf| &&
    var n := buf[off] as int;
    || (n >= 0xc0 && (off + 2 > |buf| || PointerAt(buf, off) >= start))
    || (0x40 <= n < 0xc0)
    || (0 < n < 0x40 && nl + n + 1 > MAX_NAME)
  }

  lemma EndCase(buf: bytes, off: nat, start: nat, nl: nat)
    requires nl <= MAX_NAME && off < |buf| && buf[off] == 0
    ensures UnpackLabels(buf, off, start, nl) == Ok(Name([], off + 1))
  {
  }

  lemma JumpCase(buf: bytes, off: nat, start: nat, nl: nat)
    requires nl <= MAX_NAME && off < |buf| && buf[off] >= 0xc0 && !BadAt(buf, off, start, nl)
    ensures var ptr := PointerAt(buf, off);
            var name := UnpackLabels(buf, ptr, ptr, nl);
            UnpackLabels(buf, off, start, nl) == if name.Ok? then Ok(name.value.(next := off + 2)) else name
  {
  }

  lemma LabelCase(buf: bytes, off: nat, start: nat, nl: nat)
    requires off < |buf| && 0 < buf[off] < 0x40 && nl + buf[off] as int + 1 <= MAX_NAME
    ensures var n := buf[off] as int;
            var rest := UnpackLabels(buf, off + 1 + n, start, nl + n + 1);
            UnpackLabels(buf, off, start, nl) ==
            if rest.Ok? then Ok(rest.value.(labels := [Slice(buf, off + 1, off + 1 + n)] + rest.value.labels)) else rest
  {
  }

  lemma PointerCase(buf: bytes, off: nat, start: nat, nl: nat, target: nat)
    requires off + 2 <= |buf| && buf[off] >= 0xc0 && nl <= MAX_NAME
    requires target == PointerAt(buf, off) && target < start
    ensures var name := UnpackLabels(buf, target, target, nl);
            UnpackLabels(buf, off, start, nl) == if name.Ok? then Ok(name.value.(next := off + 2)) else name
  {
  }

  lemma OkCase(buf: bytes, off: nat, start: nat, nl: nat)
    requires nl <= MAX_NAME && UnpackLabels(buf, off, start, nl).Ok?
    ensures off < |buf| && !BadAt(buf, off, start, nl)
  {
  }

  /** Bytes written later never change how an earlier name decodes. */
  lemma {:induction false} UnpackExtend(buf: bytes, more: bytes, off: nat, start: nat, nameLength: nat)
    requires nameLength <= MAX_NAME && UnpackLabels(buf, off, start, nameLength).Ok?
    ensures UnpackLabels(buf + more, off, start, nameLength) == UnpackLabels(buf, off, start, nameLength)
    decreases start, |buf| - off
  {
    hide Slice, UnBE, UnpackLabels;
    OkCase(buf, off, start, nameLength);
    var n := buf[off] as int;
    assert (buf + more)[off] == buf[off];
    if n == 0 {
      EndCase(buf, off, start, nameLength);
      EndCase(buf + more, off, start, nameLength);
    } else if n >= 0xc0 {
      assert (buf + more)[off..off + 2] == buf[off..off + 2];
      JumpCase(buf, off, start, nameLength);
      JumpCase(buf + more, off, start, nameLength);
      var ptr := PointerAt(buf, off);
      UnpackExtend(buf, more, ptr, ptr, nameLength);
    } else {
      LabelCase(buf, off, start, nameLength);
      LabelCase(buf + more, off, start, nameLength);
      OkCase(buf, off + 1 + n, start, nameLength + n + 1);
      UnpackExtend(buf, more, off + 1 + n, start, nameLength + n + 1);
      SliceExtend(buf, more, off + 1, off + 1 + n);
    }
  }

  /** A successful decoding does not depend on a larger start or on another length budget that still suffices. */
  lemma {:induction false} UnpackRelax(buf: bytes, off: nat, start: nat, nl: nat, start': nat, nl': nat)
    requires nl <= MAX_NAME && UnpackLabels(buf, off, start, nl).Ok? && start <= start'
    requires nl' + WireLen(UnpackLabels(buf, off, start, nl).value.labels) <= MAX_NAME
    ensures UnpackLabels(buf, off, start', nl') == UnpackLabels(buf, off, start, nl)
    decreases start, |buf| - off
  {
    hide UnBE, UnpackLabels;
    OkCase(buf, off, start, nl);
    var n := buf[off] as int;
    if n == 0 {
      EndCase(buf, off, start, nl);
      EndCase(buf, off, start', nl');
    } else if n >= 0xc0 {
      JumpCase(buf, off, start, nl);
      JumpCase(buf, off, start', nl');
      var ptr := PointerAt(buf, off);
      UnpackRelax(buf, ptr, ptr, nl, ptr, nl');
    } else {
      LabelCase(buf, off, start, nl);
      OkCase(buf, off + 1 + n, start, nl + n + 1);
      var rest := UnpackLabels(buf, off + 1 + n, start, nl + n + 1).value;
      WireLenCons(buf[off + 1..off + 1 + n], rest.labels);
      LabelCase(buf, off, start', nl');
      UnpackRelax(buf, off + 1 + n, start, nl + n + 1, start', nl' + n + 1);
    }
  }

  lemma WireLenCons(piece: bytes, rest: seq<bytes>)
    ensures WireLen([piece] + rest) == |piece| + 1 + WireLen(rest)
    ensures Key([piece] + rest) == Upper(piece) + [DOT] + Key(rest)
  {
    assert ([piece] + rest)[1..] == rest;
  }

  // ---------- the table invariant and the round trip ----------

  /** The position p holds a name whose key is the given one. */
  ghost predicate Holds(buf: bytes, p: nat, key: bytes) {
    p < |buf| &&
    var r := UnpackLabels(buf, p, p, 0);
    r.Ok? && Key(r.value.labels) == key && DotFree(r.value.labels)
  }

  /** Every remembered key of at most the given length points at a written position that decodes to it. */
  ghost predicate Entries(buf: bytes, ptrs: LabelPtrs, bound: nat) {
    forall k :: k in ptrs && |k| <= bound ==> |k| > 1 && ptrs[k] < STORE_LIMIT && Holds(buf, ptrs[k], k)
  }

  /** The invariant of a message being written. */
  ghost predicate TableInv(buf: bytes, ptrs: LabelPtrs) {
    forall k :: k in ptrs ==> |k| > 1 && ptrs[k] < STORE_LIMIT && Holds(buf, ptrs[k], k)
  }

  ghost predicate ValidLabels(labels: seq<bytes>) {
    DotFree(labels) && forall i :: 0 <= i < |labels| ==> 1 <= |labels[i]| <= 63
  }

  /** Labels of 1 to 63 bytes, at most 255 bytes counting a length byte for each. */
  ghost predicate ValidName(name: bytes) {
    ValidLabels(Labels(name)) && WireLen(Labels(name)) <= MAX_NAME
  }

  predicate Near(p: Packed) {
    p.target.Some? ==> p.target.value < POINTER_LIMIT
  }

  lemma HoldsExtend(buf: bytes, more: bytes, p: nat, key: bytes)
    requires Holds(buf, p, key)
    ensures Holds(buf + more, p, key)
  {
    UnpackExtend(buf, more, p, p, 0);
  }

  lemma {:induction false} PackLabelsOk(labels: seq<bytes>, off: nat, ptrs: LabelPtrs)
    requires ValidLabels(labels)
    ensures PackLabels(labels, off, ptrs).Ok?
    decreases |labels|
  {
    if Key(labels) !in ptrs && |labels| > 0 {
      PackLabelsOk(labels[1..], off + 1 + |labels[0]|, Remember(ptrs, Key(labels), off));
    }
  }

  lemma PointerBytes(target: nat)
    ensures BE(PointerWord(target), 2)[0] >= 0xc0
    ensures UnBE(BE(PointerWord(target), 2)) % POINTER_LIMIT == target % POINTER_LIMIT
  {
    Widths();
    BERoundTrip(PointerWord(target), 2);
    BELead(PointerWord(target), 2);
  }

  /** One label in front of a decodable rest. */
  lemma LabelStep(out: bytes, off: nat, start: nat, nl: nat, piece: bytes)
    requires 1 <= |piece| <= 63 && DOT !in piece && nl + |piece| + 1 <= MAX_NAME
    requires off + 1 + |piece| <= |out| && out[off] as int == |piece| && out[off + 1..off + 1 + |piece|] == piece
    requires UnpackLabels(out, off + 1 + |piece|, start, nl + |piece| + 1).Ok?
    requires DotFree(UnpackLabels(out, off + 1 + |piece|, start, nl + |piece| + 1).value.labels)
    ensures var d := UnpackLabels(out, off + 1 + |piece|, start, nl + |piece| + 1).value;
            var r := UnpackLabels(out, off, start, nl);
            r.Ok? && r.value.next == d.next && DotFree(r.value.labels) &&
            Key(r.value.labels) == Upper(piece) + [DOT] + Key(d.labels)
  {
    hide UnpackLabels, Key, WireLen;
    var d := UnpackLabels(out, off + 1 + |piece|, start, nl + |piece| + 1).value;
    LabelCase(out, off, start, nl);
    WireLenCons(piece, d.labels);
  }

  /** A back pointer stands for the name at its target. */
  lemma PointerStep(out: bytes, off: nat, start: nat, nl: nat, target: nat)
    requires target < POINTER_LIMIT && target < start && nl <= MAX_NAME
    requires off + 2 <= |out| && out[off..off + 2] == BE(PointerWord(target), 2)
    requires UnpackLabels(out, target, target, nl).Ok?
    ensures UnpackLabels(out, off, start, nl) == Ok(UnpackLabels(out, target, target, nl).value.(next := off + 2))
  {
    hide UnpackLabels, UnBE, BE, PointerWord;
    PointerBytes(target);
    assert out[off] == out[off..off + 2][0];
    PointerCase(out, off, start, nl, target);
  }

  /** The labels, packed after `base + done`, decode to themselves up to case and end where the bytes end. */
  ghost predicate Decodes(base: bytes, done: bytes, labels: seq<bytes>, wire: bytes, nl: nat)
    requires nl <= MAX_NAME
  {
    var out := base + done + wire;
    var r := UnpackLabels(out, |base| + |done|, |base|, nl);
    r.Ok? && r.value.next == |out| && Key(r.value.labels) == Key(labels) && DotFree(r.value.labels)
  }

  /** A back pointer into the base buffer decodes to the suffix it replaced. */
  lemma DecodesPointer(base: bytes, done: bytes, labels: seq<bytes>, target: nat, nl: nat)
    requires target < POINTER_LIMIT && Holds(base, target, Key(labels)) && nl + WireLen(labels) <= MAX_NAME
    ensures Decodes(base, done, labels, BE(PointerWord(target), 2), nl)
  {
    var w := BE(PointerWord(target), 2);
    var off := |base| + |done|;
    var out := base + done + w;
    assert out[off..off + 2] == w;
    UnpackExtend(base, done + w, target, target, 0);
    assert base + (done + w) == out;
    KeyLength(UnpackLabels(base, target, target, 0).value.labels);
    KeyLength(labels);
    UnpackRelax(out, target, target, 0, target, nl);
    PointerStep(out, off, |base|, nl, target);
  }

  /** The whole buffer, seen from before and from behind one label. */
  lemma LabelPlaced(base: bytes, done: bytes, piece: bytes, wire: bytes) returns (out: bytes)
    requires |piece| <= 255
    ensures var head := [|piece| as byte] + piece;
            out == base + (done + head) + wire && out == base + done + (head + wire)
    ensures var off := |base| + |done|;
            && off + 1 + |piece| <= |out|
            && out[off] as int == |piece| && out[off + 1..off + 1 + |piece|] == piece
  {
    var head := [|piece| as byte] + piece;
    Regroup(base, done, head, wire);
    out := base + (done + head) + wire;
  }

  lemma LabelDecodes(out: bytes, off: nat, start: nat, nl: nat, piece: bytes, tail: seq<bytes>)
    requires 1 <= |piece| <= 63 && DOT !in piece && nl + |piece| + 1 <= MAX_NAME
    requires off + 1 + |piece| <= |out| && out[off] as int == |piece| && out[off + 1..off + 1 + |piece|] == piece
    requires var r := UnpackLabels(out, off + 1 + |piece|, start, nl + |piece| + 1);
             r.Ok? && r.value.next == |out| && Key(r.value.labels) == Key(tail) && DotFree(r.value.labels)
    ensures var r := UnpackLabels(out, off, start, nl);
            r.Ok? && r.value.next == |out| && Key(r.value.labels) == Key([piece] + tail) && DotFree(r.value.labels)
  {
    hide UnpackLabels, Key, WireLen, Upper, DotFree;
    LabelStep(out, off, start, nl, piece);
    WireLenCons(piece, tail);
  }

  lemma DecodesCons(base: bytes, done: bytes, piece: bytes, tail: seq<bytes>, head: bytes, wire: bytes, nl: nat)
    requires 1 <= |piece| <= 63 && DOT !in piece && nl + |piece| + 1 <= MAX_NAME
    requires head == [|piece| as byte] + piece && Decodes(base, done + head, tail, wire, nl + |piece| + 1)
    ensures Decodes(base, done, [piece] + tail, head + wire, nl)
  {
    hide *;
    var off := |base| + |done|;
    var out := LabelPlaced(base, done, piece, wire);
    DecodesIs(base, done + head, tail, wire, nl + |piece| + 1, out, off + 1 + |piece|);
    LabelDecodes(out, off, |base|, nl, piece, tail);
    DecodesIs(base, done, [piece] + tail, head + wire, nl, out, off);
  }

  lemma DecodesLabel(base: bytes, done: bytes, labels: seq<bytes>, wire: bytes, nl: nat)
    requires ValidLabels(labels) && |labels| > 0 && nl + |labels[0]| + 1 <= MAX_NAME
    requires Decodes(base, done + ([|labels[0]| as byte] + labels[0]), labels[1..], wire, nl + |labels[0]| + 1)
    ensures Decodes(base, done, labels, [|labels[0]| as byte] + labels[0] + wire, nl)
  {
    ValidTail(labels);
    hide *;
    assert labels == [labels[0]] + labels[1..];
    DecodesCons(base, done, labels[0], labels[1..], [|labels[0]| as byte] + labels[0], wire, nl);
  }

  lemma DecodesIs(base: bytes, done: bytes, labels: seq<bytes>, wire: bytes, nl: nat, out: bytes, off: nat)
    requires nl <= MAX_NAME && out == base + done + wire && off == |base| + |done|
    ensures var r := UnpackLabels(out, off, |base|, nl);
            Decodes(base, done, labels, wire, nl) <==>
            r.Ok? && r.value.next == |out| && Key(r.value.labels) == Key(labels) && DotFree(r.value.labels)
  {
    hide UnpackLabels, Key, DotFree;
  }

  lemma DecodesRoot(base: bytes, done: bytes, nl: nat)
    requires nl <= MAX_NAME
    ensures Decodes(base, done, [], [0], nl)
  {
    assert (base + done + [0])[|base| + |done|] == 0;
  }

  lemma EntriesRemember(base: bytes, ptrs: LabelPtrs, labels: seq<bytes>, off: nat)
    requires |labels| > 0 && Entries(base, ptrs, WireLen(labels))
    ensures Entries(base, Remember(ptrs, Key(labels), off), WireLen(labels[1..]))
  {
    KeyLength(labels);
  }

  /**
   Decoding what was just packed. `base` is the message before this name and `done` the labels of this name
   already written; entries this name itself has added have longer keys than any suffix still to be looked
   up, so a name never matches its own suffixes.
   */
  lemma {:induction false} PackDecodes(base: bytes, done: bytes, labels: seq<bytes>, ptrs: LabelPtrs, nl: nat)
    requires ValidLabels(labels) && nl + WireLen(labels) <= MAX_NAME
    requires Entries(base, ptrs, WireLen(labels))
    requires PackLabels(labels, |base| + |done|, ptrs).Ok? && Near(PackLabels(labels, |base| + |done|, ptrs).value)
    ensures Decodes(base, done, labels, PackLabels(labels, |base| + |done|, ptrs).value.wire, nl)
    decreases |labels|
  {
    hide UnpackLabels, PackLabels, Holds, Decodes, Key, ValidLabels, Entries, WireLen, Remember;
    var off := |base| + |done|;
    if Key(labels) in ptrs {
      PackedPointer(base, labels, off, ptrs);
      DecodesPointer(base, done, labels, ptrs[Key(labels)], nl);
    } else if |labels| == 0 {
      PackedRoot(off, ptrs);
      DecodesRoot(base, done, nl);
    } else {
      var ptrs' := Remember(ptrs, Key(labels), off);
      ValidTail(labels);
      var head := [|labels[0]| as byte] + labels[0];
      PackedLabel(labels, off, ptrs);
      EntriesRemember(base, ptrs, labels, off);
      assert |base| + |done + head| == off + 1 + |labels[0]|;
      PackDecodes(base, done + head, labels[1..], ptrs', nl + |labels[0]| + 1);
      DecodesLabel(base, done, labels, PackLabels(labels[1..], off + 1 + |labels[0]|, ptrs').value.wire, nl);
    }
  }

  lemma PackedPointer(base: bytes, labels: seq<bytes>, off: nat, ptrs: LabelPtrs)
    requires Key(labels) in ptrs && Entries(base, ptrs, WireLen(labels))
    ensures var t := ptrs[Key(labels)];
            Holds(base, t, Key(labels)) &&
            PackLabels(labels, off, ptrs) == Ok(Packed(BE(PointerWord(t), 2), ptrs, Some(t)))
  {
    hide Holds, Key, BE;
    KeyLength(labels);
  }

  lemma PackedRoot(off: nat, ptrs: LabelPtrs)
    requires Key([]) !in ptrs
    ensures PackLabels([], off, ptrs) == Ok(Packed([0], ptrs, None))
  {
  }

  lemma PackedLabel(labels: seq<bytes>, off: nat, ptrs: LabelPtrs)
    requires Key(labels) !in ptrs && |labels| > 0 && |labels[0]| <= 255 && PackLabels(labels, off, ptrs).Ok?
    ensures var rest := PackLabels(labels[1..], off + 1 + |labels[0]|, Remember(ptrs, Key(labels), off));
            && rest.Ok?
            && PackLabels(labels, off, ptrs).value ==
               rest.value.(wire := [|labels[0]| as byte] + labels[0] + rest.value.wire)
  {
    hide Key;
  }

  /** Packing never touches entries with longer keys than the name being packed, and forgets nothing. */
  lemma {:induction false} PackFrame(labels: seq<bytes>, off: nat, ptrs: LabelPtrs, k: bytes)
    requires PackLabels(labels, off, ptrs).Ok?
    ensures var p := PackLabels(labels, off, ptrs).value.ptrs;
            && (k in ptrs ==> k in p && p[k] == ptrs[k])
            && (|k| > WireLen(labels) && k in p ==> k in ptrs)
    decreases |labels|
  {
    KeyLength(labels);
    if Key(labels) !in ptrs && |labels| > 0 {
      PackFrame(labels[1..], off + 1 + |labels[0]|, Remember(ptrs, Key(labels), off), k);
    }
  }

  /** Packing a name keeps every old entry and leaves each new entry pointing at a decodable suffix. */
  lemma {:induction false} PackEntry(base: bytes, done: bytes, labels: seq<bytes>, ptrs: LabelPtrs, k: bytes)
    requires ValidLabels(labels) && WireLen(labels) <= MAX_NAME
    requires Entries(base, ptrs, WireLen(labels))
    requires PackLabels(labels, |base| + |done|, ptrs).Ok? && Near(PackLabels(labels, |base| + |done|, ptrs).value)
    requires |k| <= WireLen(labels) && k in PackLabels(labels, |base| + |done|, ptrs).value.ptrs
    ensures var p := PackLabels(labels, |base| + |done|, ptrs).value;
            |k| > 1 && p.ptrs[k] < STORE_LIMIT && Holds(base + done + p.wire, p.ptrs[k], k)
    decreases |labels|
  {
    hide UnpackLabels, PackLabels, Holds, Decodes, Key, ValidLabels, Entries;
    var off := |base| + |done|;
    PackFrame(labels, off, ptrs, k);
    if k in ptrs {
      OldEntry(base, done, labels, ptrs, k);
    } else {
      PackAdds(labels, off, ptrs, k);
      var n, ptrs' := |labels[0]|, Remember(ptrs, Key(labels), off);
      var head := [n as byte] + labels[0];
      assert |base| + |done + head| == off + 1 + n;
      if |k| <= WireLen(labels[1..]) {
        EntriesRemember(base, ptrs, labels, off);
        ValidTail(labels);
        PackEntry(base, done + head, labels[1..], ptrs', k);
        Regroup(base, done, head, PackLabels(labels[1..], off + 1 + n, ptrs').value.wire);
      } else {
        NewEntry(base, done, labels, ptrs, k);
      }
    }
  }

  lemma ValidTail(labels: seq<bytes>)
    requires ValidLabels(labels) && |labels| > 0
    ensures ValidLabels(labels[1..]) && 1 <= |labels[0]| <= 63 && DOT !in labels[0]
    ensures WireLen(labels) == |labels[0]| + 1 + WireLen(labels[1..])
  {
  }

  /** An entry that was there before the name still holds behind it. */
  lemma OldEntry(base: bytes, done: bytes, labels: seq<bytes>, ptrs: LabelPtrs, k: bytes)
    requires Entries(base, ptrs, WireLen(labels)) && |k| <= WireLen(labels) && k in ptrs
    requires PackLabels(labels, |base| + |done|, ptrs).Ok?
    ensures var p := PackLabels(labels, |base| + |done|, ptrs).value;
            k in p.ptrs && |k| > 1 && p.ptrs[k] < STORE_LIMIT && Holds(base + done + p.wire, p.ptrs[k], k)
  {
    hide Holds, PackLabels;
    var p := PackLabels(labels, |base| + |done|, ptrs).value;
    PackFrame(labels, |base| + |done|, ptrs, k);
    HoldsExtend(base, done + p.wire, ptrs[k], k);
    assert base + (done + p.wire) == base + done + p.wire;
  }

  /** A key that packing adds belongs to this name or to the rest of it, and one label was written. */
  lemma PackAdds(labels: seq<bytes>, off: nat, ptrs: LabelPtrs, k: bytes)
    requires ValidLabels(labels) && PackLabels(labels, off, ptrs).Ok?
    requires k !in ptrs && k in PackLabels(labels, off, ptrs).value.ptrs
    ensures |labels| > 0 && 1 <= |labels[0]| <= 63 && Key(labels) !in ptrs
    ensures var rest := PackLabels(labels[1..], off + 1 + |labels[0]|, Remember(ptrs, Key(labels), off));
            && rest.Ok?
            && PackLabels(labels, off, ptrs).value ==
               rest.value.(wire := [|labels[0]| as byte] + labels[0] + rest.value.wire)
  {
    hide Key;
    KeyLength(labels);
    PackedLabel(labels, off, ptrs);
  }

  /** The entry for the whole of what is packed points at where it starts. */
  lemma NewEntry(base: bytes, done: bytes, labels: seq<bytes>, ptrs: LabelPtrs, k: bytes)
    requires ValidLabels(labels) && WireLen(labels) <= MAX_NAME && Entries(base, ptrs, WireLen(labels))
    requires PackLabels(labels, |base| + |done|, ptrs).Ok? && Near(PackLabels(labels, |base| + |done|, ptrs).value)
    requires k !in ptrs && k in PackLabels(labels, |base| + |done|, ptrs).value.ptrs
    requires |labels| > 0 && WireLen(labels[1..]) < |k|
    ensures var p := PackLabels(labels, |base| + |done|, ptrs).value;
            |k| > 1 && p.ptrs[k] < STORE_LIMIT && Holds(base + done + p.wire, p.ptrs[k], k)
  {
    hide UnpackLabels, PackLabels, Holds, Decodes, Key, Near, ValidLabels, Entries;
    var off := |base| + |done|;
    var p := PackLabels(labels, off, ptrs).value;
    PackAdds(labels, off, ptrs, k);
    PackFrame(labels[1..], off + 1 + |labels[0]|, Remember(ptrs, Key(labels), off), k);
    PackDecodes(base, done, labels, ptrs, 0);
    DecodesHolds(base, done, labels, p.wire);
  }

  lemma DecodesHolds(base: bytes, done: bytes, labels: seq<bytes>, wire: bytes)
    requires Decodes(base, done, labels, wire, 0)
    ensures Holds(base + done + wire, |base| + |done|, Key(labels))
  {
    hide UnpackLabels, Key, DotFree;
    UnpackRelax(base + done + wire, |base| + |done|, |base|, 0, |base| + |done|, 0);
  }

  function PackName(name: bytes, off: nat, ptrs: LabelPtrs): Result<Packed> {
    PackLabels(Labels(name), off, ptrs)
  }

  /** The packed name reads back, at its start and up to ASCII case, and ends exactly where it was packed. */
  ghost predicate Recovers(buf: bytes, name: bytes, wire: bytes, more: bytes) {
    var r := UnpackName(buf + wire + more, |buf|);
    r.Ok? && Upper(r.value.0) == Upper(name) && r.value.1 == |buf| + |wire| &&
    SameLabels(UnpackLabels(buf + wire + more, |buf|, |buf|, 0).value.labels, Labels(name))
  }

  lemma PackNameInv(buf: bytes, name: bytes, ptrs: LabelPtrs)
    requires TableInv(buf, ptrs) && ValidName(name)
    ensures var r := PackName(name, |buf|, ptrs);
            r.Ok? && (Near(r.value) ==> TableInv(buf + r.value.wire, r.value.ptrs))
  {
    hide UnpackLabels, Holds, Key;
    var labels := Labels(name);
    PackLabelsOk(labels, |buf|, ptrs);
    var p := PackName(name, |buf|, ptrs).value;
    if Near(p) {
      var none: bytes := [];
      assert buf + none == buf && |buf| + |none| == |buf|;
      forall k | k in p.ptrs ensures |k| > 1 && p.ptrs[k] < STORE_LIMIT && Holds(buf + p.wire, p.ptrs[k], k) {
        if |k| <= WireLen(labels) {
          PackEntry(buf, none, labels, ptrs, k);
        } else {
          PackFrame(labels, |buf|, ptrs, k);
          HoldsExtend(buf, p.wire, ptrs[k], k);
        }
      }
    }
  }

  /** Round trip in any reachable table and with anything written afterwards. */
  lemma PackNameRecovers(buf: bytes, name: bytes, ptrs: LabelPtrs, more: bytes)
    requires TableInv(buf, ptrs) && ValidName(name)
    requires PackName(name, |buf|, ptrs).Ok? && Near(PackName(name, |buf|, ptrs).value)
    ensures Recovers(buf, name, PackName(name, |buf|, ptrs).value.wire, more)
  {
    hide UnpackLabels, Holds, Key;
    var labels := Labels(name);
    var p := PackName(name, |buf|, ptrs).value;
    var none: bytes := [];
    assert buf + none == buf && |buf| + |none| == |buf|;
    PackDecodes(buf, none, labels, ptrs, 0);
    UnpackExtend(buf + p.wire, more, |buf|, |buf|, 0);
    KeyGivesName(UnpackLabels(buf + p.wire, |buf|, |buf|, 0).value.labels, name);
  }

  lemma KeyGivesName(labels: seq<bytes>, name: bytes)
    requires Key(labels) == Key(Labels(name)) && DotFree(labels) && DotFree(Labels(name))
    ensures Upper(Join(labels)) == Upper(name) && SameLabels(labels, Labels(name))
  {
    KeyIsName(labels);
    KeyIsName(Labels(name));
    KeyInjective(labels, Labels(name));
    if |name| > 0 {
      SplitJoin(name);
      var u, v := Upper(Join(labels)), Upper(name);
      assert (u + [DOT])[..|u|] == u && (v + [DOT])[..|v|] == v;
    }
  }

  // ---------- which names come back ----------

  ghost predicate ShortLabels(labels: seq<bytes>) {
    forall i :: 0 <= i < |labels| ==> |labels[i]| <= 255
  }

  /** All labels spelled out. */
  function FreshWire(labels: seq<bytes>): (w: bytes)
    requires ShortLabels(labels)
    ensures |w| == WireLen(labels) + 1
  {
    if |labels| == 0 then [0] else [|labels[0]| as byte] + labels[0] + FreshWire(labels[1..])
  }

  /** Without a key that could match, labels of up to 255 bytes are spelled out, and longer ones are refused. */
  lemma {:induction false} FreshPack(labels: seq<bytes>, off: nat, ptrs: LabelPtrs)
    requires forall k :: k in ptrs ==> |k| > WireLen(labels)
    ensures var r := PackLabels(labels, off, ptrs);
            (r.Ok? <==> ShortLabels(labels)) && (r.Ok? ==> r.value.wire == FreshWire(labels) && r.value.target == None)
    decreases |labels|
  {
    hide Key;
    KeyLength(labels);
    if |labels| > 0 {
      FreshPack(labels[1..], off + 1 + |labels[0]|, Remember(ptrs, Key(labels), off));
      assert ShortLabels(labels) <==> |labels[0]| <= 255 && ShortLabels(labels[1..]) by {
        assert forall i :: 0 < i < |labels| ==> labels[i] == labels[1..][i - 1];
        assert forall i :: 0 <= i < |labels| - 1 ==> labels[1..][i] == labels[i + 1];
      }
    }
  }

  /** Labels that read back up to their end have 1 to 63 bytes each and fit the length limit. */
  lemma {:induction false} FreshReads(pre: bytes, labels: seq<bytes>, more: bytes, start: nat, nl: nat)
    requires ShortLabels(labels) && nl <= MAX_NAME
    requires var r := UnpackLabels(pre + FreshWire(labels) + more, |pre|, start, nl);
             r.Ok? && r.value.next == |pre| + |FreshWire(labels)|
    ensures nl + WireLen(labels) <= MAX_NAME && forall i :: 0 <= i < |labels| ==> 1 <= |labels[i]| <= 63
    decreases |labels|
  {
    hide UnpackLabels, Slice, UnBE;
    if |labels| > 0 {
      var buf := pre + FreshWire(labels) + more;
      var n := |labels[0]|;
      var head := [n as byte] + labels[0];
      assert buf[|pre|] as int == n;
      OkCase(buf, |pre|, start, nl);
      if n == 0 {
        EndCase(buf, |pre|, start, nl);
      } else if n >= 0xc0 {
        JumpCase(buf, |pre|, start, nl);
      } else {
        LabelCase(buf, |pre|, start, nl);
        assert buf == pre + head + FreshWire(labels[1..]) + more;
        FreshReads(pre + head, labels[1..], more, start, nl + n + 1);
        assert forall i :: 0 < i < |labels| ==> labels[i] == labels[1..][i - 1];
      }
    }
  }

  /** The first name of a message is packed and reads back if and only if its labels and its length are valid. */
  lemma RecoversExact(buf: bytes, name: bytes, more: bytes)
    ensures var r := PackName(name, |buf|, map[]);
            (r.Ok? && Recovers(buf, name, r.value.wire, more)) <==> ValidName(name)
  {
    hide UnpackLabels, PackLabels, Key, SameLabels, Upper;
    var labels := Labels(name);
    FreshPack(labels, |buf|, map[]);
    if ValidName(name) {
      PackNameRecovers(buf, name, map[], more);
    } else if ShortLabels(labels) && Recovers(buf, name, FreshWire(labels), more) {
      FreshReads(buf, labels, more, |buf|, 0);
      if |name| > 0 {
        SplitJoin(name);
      }
    }
  }

  function Zeros(n: nat): (z: bytes)
    ensures |z| == n && forall i :: 0 <= i < n ==> z[i] == 0
  {
    seq(n, _ => 0)
  }

  lemma OneLetterName(t: nat)
    requires t < STORE_LIMIT
    ensures ValidName([97]) && Labels([97]) == [[97]]
    ensures PackName([97], t, map[]) == Ok(Packed([1, 97, 0], map[Key([[97]]) := t], None))
  {
    var labels: seq<bytes> := [[97]];
    var name: bytes := [97];
    var empty: bytes := [];
    assert Labels(name) == labels by {
      assert name[1..] == empty && Split(empty) == [empty];
      assert [empty][1..] == [] && [name[0]] + empty == name;
    }
    assert labels[1..] == [] && WireLen(labels) == 2;
    KeyLength(labels);
    var ptrs := map[Key(labels) := t];
    assert PackLabels([], t + 2, ptrs) == Ok(Packed([0], ptrs, None));
    var one, nul: bytes := [1], [0];
    assert one + labels[0] + nul == [1, 97, 0];
  }

  /**
   The name "a" is packed at offset t of a message whose first t bytes are zero, and then packed again: the
   second copy is a back pointer to t, of which only t mod 0x4000 survives, so it reads back as the root.
   */
  lemma FarPointer(t: nat)
    requires POINTER_LIMIT <= t < STORE_LIMIT
    ensures ValidName([97])
    ensures var buf := Zeros(t) + [1, 97, 0];
            var ptrs := map[Key([[97]]) := t];
            && PackName([97], t, map[]) == Ok(Packed([1, 97, 0], ptrs, None))
            && TableInv(buf, ptrs)
            && PackName([97], |buf|, ptrs) == Ok(Packed(BE(PointerWord(t), 2), ptrs, Some(t)))
            && UnpackName(buf + BE(PointerWord(t), 2), |buf|) == Ok(([], |buf| + 2))
  {
    hide Key, Holds, Labels, ValidName, PointerWord;
    OneLetterName(t);
    PackNameInv(Zeros(t), [97], map[]);
    var buf := Zeros(t) + [1, 97, 0];
    var w := BE(PointerWord(t), 2);
    var out := buf + w;
    PointerBytes(t);
    assert out[|buf|..|buf| + 2] == w && out[|buf|] == w[0];
    var p := t % POINTER_LIMIT;
    assert out[p] == 0 && UnpackLabels(out, p, p, 0) == Ok(Name([], p + 1));
  }

  /** A back pointer's target lies inside the message that was there before the name. */
  lemma {:induction false} TargetWritten(base: bytes, labels: seq<bytes>, off: nat, ptrs: LabelPtrs)
    requires Entries(base, ptrs, WireLen(labels)) && PackLabels(labels, off, ptrs).Ok?
    ensures var p := PackLabels(labels, off, ptrs).value; p.target.Some? ==> p.target.value < |base|
    decreases |labels|
  {
    hide UnpackLabels;
    KeyLength(labels);
    if Key(labels) !in ptrs && |labels| > 0 {
      EntriesRemember(base, ptrs, labels, off);
      TargetWritten(base, labels[1..], off + 1 + |labels[0]|, Remember(ptrs, Key(labels), off));
    }
  }

  /** A packed name is at most two bytes longer than its labels. */
  lemma {:induction false} WireBound(labels: seq<bytes>, off: nat, ptrs: LabelPtrs)
    requires PackLabels(labels, off, ptrs).Ok?
    ensures |PackLabels(labels, off, ptrs).value.wire| <= WireLen(labels) + 2
    decreases |labels|
  {
    if Key(labels) !in ptrs && |labels| > 0 {
      WireBound(labels[1..], off + 1 + |labels[0]|, Remember(ptrs, Key(labels), off));
    }
  }

  /** A back pointer to t is always safe exactly when t fits in the fourteen bits of the pointer. */
  lemma PointerLimitIsExact(t: nat)
    requires t < STORE_LIMIT
    ensures (forall buf: bytes, name: bytes, ptrs: LabelPtrs ::
               TableInv(buf, ptrs) && ValidName(name) && PackName(name, |buf|, ptrs).Ok? &&
               PackName(name, |buf|, ptrs).value.target == Some(t) ==>
                 Recovers(buf, name, PackName(name, |buf|, ptrs).value.wire, []))
            <==> t < POINTER_LIMIT
  {
    hide UnpackLabels, TableInv, ValidName, PackLabels;
    if t < POINTER_LIMIT {
      forall buf: bytes, name: bytes, ptrs: LabelPtrs
        | TableInv(buf, ptrs) && ValidName(name) && PackName(name, |buf|, ptrs).Ok? &&
          PackName(name, |buf|, ptrs).value.target == Some(t)
        ensures Recovers(buf, name, PackName(name, |buf|, ptrs).value.wire, [])
      {
        PackNameRecovers(buf, name, ptrs, []);
      }
    } else {
      FarPointer(t);
      var buf := Zeros(t) + [1, 97, 0];
      var wire := BE(PointerWord(t), 2);
      assert buf + wire + [] == buf + wire;
      assert !Recovers(buf, [97], wire, []);
    }
  }

  // ---------- the loops of the program ----------

  function Prepend(done: bytes, r: Result<Packed>): Result<Packed> {
    if r.Ok? then Ok(r.value.(wire := done + r.value.wire)) else r
  }

  /** One iteration of pack_name, seen from the bytes already written. */
  lemma PackCases(done: bytes, labels: seq<bytes>, off: nat, ptrs: LabelPtrs)
    ensures var key := Key(labels);
            var r := Prepend(done, PackLabels(labels, off, ptrs));
            && (labels == [] ==> key == [])
            && (key in ptrs ==> r == Ok(Packed(done + BE(PointerWord(ptrs[key]), 2), ptrs, Some(ptrs[key]))))
            && (key !in ptrs && labels == [] ==> r == Ok(Packed(done + [0], ptrs, None)))
            && (key !in ptrs && labels != [] && |labels[0]| > 255 ==> r == Err(PackError))
            && (key !in ptrs && labels != [] && |labels[0]| <= 255 ==>
                  r == Prepend(done + ([|labels[0]| as byte] + labels[0]),
                               PackLabels(labels[1..], off + 1 + |labels[0]|, Remember(ptrs, key, off))))
  {
    if Key(labels) !in ptrs && labels != [] && |labels[0]| <= 255 {
      var head: bytes := [|labels[0]| as byte] + labels[0];
      var rest := PackLabels(labels[1..], off + 1 + |labels[0]|, Remember(ptrs, Key(labels), off));
      if rest.Ok? {
        assert done + (head + rest.value.wire) == done + head + rest.value.wire;
      }
    }
  }

  /** The packing state of a message: the table shared by all its names. */
  class Packer {
    var labelPtrs: LabelPtrs

    constructor ()
      ensures labelPtrs == map[]
    {
      labelPtrs := map[];
    }

    /** pack_name: writes labels until the root label or a remembered suffix. */
    method Pack(name: bytes, off: nat) returns (r: Result<bytes>)
      modifies this
      ensures r.Ok? <==> PackName(name, off, old(labelPtrs)).Ok?
      ensures r.Err? ==> r.error == PackError
      ensures r.Ok? ==> var p := PackName(name, off, old(labelPtrs)).value; r.value == p.wire && labelPtrs == p.ptrs
    {
      var whole := Labels(name);
      var labels := whole + [[]];
      var buf: bytes := [];
      var i := 0;
      hide PackLabels, Key, Join;
      ghost var spec := PackLabels(whole, off, labelPtrs);
      assert whole[0..] == whole;
      assert spec.Ok? ==> [] + spec.value.wire == spec.value.wire;
      while i < |labels|
        invariant 0 <= i <= |labels|
        invariant i <= |whole| ==> spec == Prepend(buf, PackLabels(whole[i..], off + |buf|, labelPtrs))
        invariant i > |whole| ==> spec == Ok(Packed(buf, labelPtrs, None))
      {
        KeyIsJoin(whole[i..]);
        PackCases(buf, whole[i..], off + |buf|, labelPtrs);
        assert labels[i..] == whole[i..] + [[]];
        var key := Upper(Join(labels[i..]));
        if key in labelPtrs {
          return Ok(buf + BE(PointerWord(labelPtrs[key]), 2));
        }
        if |key| > 1 {
          var ptr := off + |buf|;
          if ptr < STORE_LIMIT {
            labelPtrs := labelPtrs[key := ptr];
          }
        }
        if |labels[i]| > 255 {
          return Err(PackError);
        }
        if i < |whole| {
          assert whole[i..][1..] == whole[i + 1..] && whole[i..][0] == labels[i];
        } else {
          assert whole[i..] == [] && labels[i] == [] && [|labels[i]| as byte] + labels[i] == [0];
        }
        buf := buf + ([|labels[i]| as byte] + labels[i]);
        i := i + 1;
      }
      return Ok(buf);
    }
  }

  function After(name: seq<bytes>, saved: nat, r: Result<Name>): Result<Name> {
    if r.Ok? then Ok(Name(name + r.value.labels, if saved != 0 then saved else r.value.next)) else r
  }

  lemma AfterStart(buf: bytes, start: nat)
    ensures UnpackLabels(buf, start, start, 0) == After([], 0, UnpackLabels(buf, start, start, 0))
  {
    var whole := UnpackLabels(buf, start, start, 0);
    assert whole.Ok? ==> [] + whole.value.labels == whole.value.labels;
  }

  lemma UnpackNameIs(buf: bytes, start: nat)
    ensures var r := UnpackLabels(buf, start, start, 0);
            UnpackName(buf, start) == if r.Ok? then Ok((Join(r.value.labels), r.value.next)) else Err(r.error)
  {
  }

  lemma UnpackFails(name: seq<bytes>, saved: nat, buf: bytes, off: nat, start: nat, nl: nat)
    requires nl <= MAX_NAME
    ensures var r := After(name, saved, UnpackLabels(buf, off, start, nl));
            && (off >= |buf| ==> r == Err(NeedData))
            && (BadAt(buf, off, start, nl) ==> r == Err(UnpackError))
  {
  }

  lemma UnpackEnds(name: seq<bytes>, saved: nat, buf: bytes, off: nat, start: nat, nl: nat)
    requires nl <= MAX_NAME && off < |buf| && buf[off] == 0
    ensures After(name, saved, UnpackLabels(buf, off, start, nl)) ==
            Ok(Name(name, if saved != 0 then saved else off + 1))
  {
    assert name + [] == name;
  }

  lemma UnpackJumps(name: seq<bytes>, saved: nat, buf: bytes, off: nat, start: nat, nl: nat)
    requires nl <= MAX_NAME && off < |buf| && buf[off] >= 0xc0 && !BadAt(buf, off, start, nl)
    ensures var ptr := PointerAt(buf, off);
            After(name, saved, UnpackLabels(buf, off, start, nl)) ==
            After(name, if saved != 0 then saved else off + 2, UnpackLabels(buf, ptr, ptr, nl))
  {
  }

  lemma UnpackAdvances(name: seq<bytes>, saved: nat, buf: bytes, off: nat, start: nat, nl: nat)
    requires off < |buf| && 0 < buf[off] < 0x40 && nl + buf[off] as int + 1 <= MAX_NAME
    ensures var n := buf[off] as int;
            After(name, saved, UnpackLabels(buf, off, start, nl)) ==
            After(name + [Slice(buf, off + 1, off + 1 + n)], saved, UnpackLabels(buf, off + 1 + n, start, nl + n + 1))
  {
    var n := buf[off] as int;
    var piece := Slice(buf, off + 1, off + 1 + n);
    var rest := UnpackLabels(buf, off + 1 + n, start, nl + n + 1);
    if rest.Ok? {
      assert name + ([piece] + rest.value.labels) == name + [piece] + rest.value.labels;
    }
  }

  /** unpack_name: follows labels and back pointers; terminates on every buffer and offset. */
  method Unpack(buf: bytes, start: nat) returns (r: Result<(bytes, nat)>)
    ensures r == UnpackName(buf, start)
  {
    var off: nat, startOff: nat, savedOff: nat, nameLength: nat := start, start, 0, 0;
    var name: seq<bytes> := [];
    hide UnpackLabels, After, UnpackName, PointerAt, Slice, Join;
    AfterStart(buf, start);
    UnpackNameIs(buf, start);
    ghost var whole := UnpackLabels(buf, start, start, 0);
    while true
      invariant nameLength <= MAX_NAME
      invariant whole == After(name, savedOff, UnpackLabels(buf, off, startOff, nameLength))
      decreases startOff, |buf| - off
    {
      if off >= |buf| {
        UnpackFails(name, savedOff, buf, off, startOff, nameLength);
        return Err(NeedData);
      }
      var n := buf[off] as int;
      if n == 0 {
        UnpackEnds(name, savedOff, buf, off, startOff, nameLength);
        off := off + 1;
        break;
      } else if n >= 0xc0 {
        if off + 2 > |buf| || PointerAt(buf, off) >= startOff {
          UnpackFails(name, savedOff, buf, off, startOff, nameLength);
          return Err(UnpackError);
        }
        UnpackJumps(name, savedOff, buf, off, startOff, nameLength);
        if savedOff == 0 {
          savedOff := off + 2;
        }
        off := PointerAt(buf, off);
        startOff := off;
      } else if n < 0x40 && nameLength + n + 1 <= MAX_NAME {
        UnpackAdvances(name, savedOff, buf, off, startOff, nameLength);
        name := name + [Slice(buf, off + 1, off + 1 + n)];
        off, nameLength := off + 1 + n, nameLength + n + 1;
      } else {
        UnpackFails(name, savedOff, buf, off, startOff, nameLength);
        return Err(UnpackError);
      }
    }
    if savedOff == 0 {
      savedOff := off;
    }
    return Ok((Join(name), savedOff));
  }
}
