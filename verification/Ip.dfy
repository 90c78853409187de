/** IPv4 packets: length, header checksum and the transport checksum over the pseudo-header. */
module Ip {
  import opened Bytes
  import opened InetChecksum

  const TCP: byte := 6
  const UDP: byte := 17

  /** A transport segment: the bytes before and after its checksum field, which is at an even offset. */
  class Segment {
    const head: bytes
    const tail: bytes
    var sum: u16

    constructor (head: bytes, sum: u16, tail: bytes)
      ensures this.head == head && this.tail == tail && this.sum == sum
    {
      this.head, this.sum, this.tail := head, sum, tail;
    }

    function Contents(): (b: bytes)
      reads this
      ensures |b| == |head| + 2 + |tail|
    {
      WithField(head, sum, tail)
    }
  }

  datatype Payload = Raw(data: bytes) | Parsed(segment: Segment)

  class Packet {
    var vhl: byte
    var tos: byte
    var len: nat
    var id: u16
    var flagsOffset: u16
    var ttl: byte
    var p: byte
    var sum: u16
    var src: bytes
    var dst: bytes
    var opts: bytes
    const data: Payload

    constructor (vhl: byte, tos: byte, len: nat, id: u16, flagsOffset: u16, ttl: byte, p: byte, sum: u16,
                 src: bytes, dst: bytes, opts: bytes, data: Payload)
      ensures this.vhl == vhl && this.tos == tos && this.len == len && this.id == id && this.flagsOffset == flagsOffset
      ensures this.ttl == ttl && this.p == p && this.sum == sum && this.src == src && this.dst == dst
      ensures this.opts == opts && this.data == data
    {
      this.vhl, this.tos, this.len, this.id, this.flagsOffset := vhl, tos, len, id, flagsOffset;
      this.ttl, this.p, this.sum, this.src, this.dst := ttl, p, sum, src, dst;
      this.opts, this.data := opts, data;
    }

    /** The parts of the object that bytes() may rewrite. */
    ghost function Repr(): set<object>
      reads this
    {
      if data.Parsed? then {this, data.segment} else {this}
    }

    function DataBytes(): bytes
      reads this, Repr()
    {
      match data
      case Raw(b) => b
      case Parsed(s) => s.Contents()
    }

    /** The header fields before the checksum, for a length that fits its field. */
    function HeaderFront(): (h: bytes)
      reads this
      requires len < 0x1_0000
      ensures |h| == 10
    {
      [vhl, tos] + BE(len, 2) + BE(id, 2) + BE(flagsOffset, 2) + [ttl, p]
    }

    /** pack_hdr. */
    function Header(): (h: bytes)
      reads this
      requires len < 0x1_0000
    {
      WithField(HeaderFront(), sum, src + dst)
    }

    function TotalLength(): nat
      reads this, Repr()
    {
      20 + |opts| + |DataBytes()|
    }

    /** Non-fragmented TCP or UDP data whose checksum is still zero. */
    predicate NeedsTransportSum()
      reads this, Repr()
    {
      && (p == TCP || p == UDP) && flagsOffset % 0x4000 == 0
      && data.Parsed? && data.segment.sum == 0
    }

    /** The pseudo-header of RFC 768 and RFC 793 in front of a segment of n bytes. */
    function PseudoHeader(n: nat): (h: bytes)
      reads this
    {
      src + dst + [0, p] + BE(n, 2)
    }

    /** __bytes__. */
    method ToBytes() returns (r: Result<bytes>)
      requires |src| == 4 && |dst| == 4
      requires data.Parsed? ==> |data.segment.head| % 2 == 0
      modifies this`len, this`sum, if data.Parsed? then {data.segment} else {}
      ensures DataBytes() == (if data.Raw? then data.data
                              else WithField(data.segment.head, data.segment.sum, data.segment.tail))
      ensures r.Ok? <==> len < 0x1_0000
      ensures r.Err? ==> r.error == PackError
      ensures r.Ok? ==> r.value == Header() + opts + DataBytes()
      ensures old(sum) == 0 ==> len == old(TotalLength())
      ensures old(sum) != 0 ==> len == old(len) && sum == old(sum)
      ensures old(sum) == 0 && r.Ok? ==>
                sum == Cksum(WithField(HeaderFront(), 0, src + dst) + opts) && Cksum(Header() + opts) == 0
      ensures old(sum) == 0 && r.Ok? && old(NeedsTransportSum()) ==>
                && Cksum(PseudoHeader(|DataBytes()|) + DataBytes()) == 0
                && (p == UDP ==> data.segment.sum != 0)
                && (var c := Cksum(PseudoHeader(|DataBytes()|) + WithField(data.segment.head, 0, data.segment.tail));
                    data.segment.sum == if p == UDP && c == 0 then 0xffff else c)
      ensures data.Parsed? && !(old(sum) == 0 && r.Ok? && old(NeedsTransportSum())) ==>
                data.segment.sum == old(data.segment.sum)
    {
      hide Cksum, SumLE, SumBE, BE;
      if sum == 0 {
        len := TotalLength();
        if len >= 0x1_0000 {
          return Err(PackError);
        }
        ghost var front := HeaderFront();
        sum := Cksum(Header() + opts);
        assert HeaderFront() == front;
        HeaderVerifies(front, src, dst, opts, sum);
        if NeedsTransportSum() {
          var t := data.segment;
          var bytes := t.Contents();
          var s := CksumAdd(0, PseudoHeader(|bytes|));
          s := CksumAdd(s, bytes);
          PseudoIsOneSum(src, dst, p, t.head, t.tail);
          t.sum := CksumDone(s);
          if p == UDP && t.sum == 0 {
            t.sum := 0xffff;
          }
          SegmentVerifies(src, dst, p, t.head, t.sum, t.tail);
        }
      } else if len >= 0x1_0000 {
        return Err(PackError);
      }
      return Ok(Header() + opts + DataBytes());
    }
  }

  lemma HeaderVerifies(front: bytes, src: bytes, dst: bytes, opts: bytes, sum: u16)
    requires |front| == 10 && |src| == |dst| == 4 && |opts| < 0x1_0000
    requires sum == Cksum(WithField(front, 0, src + dst) + opts)
    ensures Cksum(WithField(front, sum, src + dst) + opts) == 0
  {
    hide Cksum, BE;
    assert WithField(front, 0, src + dst) + opts == WithField(front, 0, src + dst + opts);
    assert WithField(front, sum, src + dst) + opts == WithField(front, sum, src + dst + opts);
    FieldVerifies(front, sum, src + dst + opts);
  }

  function Pseudo(src: bytes, dst: bytes, p: byte, n: nat): bytes {
    src + dst + [0, p] + BE(n, 2)
  }

  /** Adding the pseudo-header and then the segment is one sum, because the pseudo-header has even length. */
  lemma PseudoIsOneSum(src: bytes, dst: bytes, p: byte, head: bytes, tail: bytes)
    requires |src| == |dst| == 4
    ensures var seg := WithField(head, 0, tail);
            var pre := Pseudo(src, dst, p, |seg|);
            CksumDone(CksumAdd(CksumAdd(0, pre), seg)) == Cksum(pre + seg) &&
            pre + seg == WithField(pre + head, 0, tail)
  {
    hide CksumDone, SumLE, SumBE, BE;
    var seg := WithField(head, 0, tail);
    var pre := Pseudo(src, dst, p, |seg|);
    SumConcat(pre, seg);
    assert pre + seg == WithField(pre + head, 0, tail);
    assert CksumAdd(0, pre + seg) == CksumAdd(CksumAdd(0, pre), seg);
  }

  lemma SegmentVerifies(src: bytes, dst: bytes, p: byte, head: bytes, sum: u16, tail: bytes)
    requires |src| == |dst| == 4 && |head| % 2 == 0 && |head| + 2 + |tail| < 0x1_0000
    requires var pre := Pseudo(src, dst, p, |head| + 2 + |tail|);
             var c := Cksum(WithField(pre + head, 0, tail));
             sum == c || (c == 0 && sum == 0xffff)
    ensures Cksum(Pseudo(src, dst, p, |head| + 2 + |tail|) + WithField(head, sum, tail)) == 0
  {
    hide Cksum, BE;
    var pre := Pseudo(src, dst, p, |head| + 2 + |tail|);
    assert pre + WithField(head, sum, tail) == WithField(pre + head, sum, tail);
    FieldVerifies(pre + head, sum, tail);
  }
}
