/** BGP UPDATE bodies (section 4.3 of RFC 4271): nested length-delimited parsing, and printing back. */
module Bgp {
  import opened Bytes
  import opened Sections

  // ---------- words ----------

  function ParseWord(k: nat, x: bytes): Result<nat> {
    if |x| < k then Err(UnpackError) else Ok(UnBE(x[..k]))
  }

  function WordSize(k: nat, x: bytes): nat { if |x| < k then 0 else k }

  /** Big-endian integers of k bytes. */
  function Words(k: nat): Codec<nat> {
    Codec(x => ParseWord(k, x), v => BE(v, k), _ => k, x => WordSize(k, x))
  }

  lemma WordExact(k: nat, x: bytes, rest: bytes)
    requires Fits(Words(k), x)
    ensures Exact(Words(k), x, rest)
  {
    assert (x + rest)[..k] == x[..k];
    UnBERoundTrip(x[..k]);
  }

  lemma WordsLawful(k: nat)
    ensures LawfulAlone(Words(k))
  {
    forall x: bytes | Fits(Words(k), x) ensures Exact(Words(k), x, []) {
      WordExact(k, x, []);
    }
  }

  lemma {:induction false} WordsTimesFit(k: nat, x: bytes, n: nat)
    requires k > 0 && k * n <= |x|
    ensures TimesFit(Words(k), x, n) && Span(Words(k), x, n) == k * n
    decreases n
  {
    if n > 0 {
      assert k * n == k + k * (n - 1);
      MulMonotone(k, 0, n - 1);
      WordsTimesFit(k, x[k..], n - 1);
    }
  }

  // ---------- routes ----------

  datatype Route =
    | V4(len: byte, prefix: bytes)
    | Extended(pathId: nat, extLen: byte, extPrefix: bytes)
    | V6(len6: byte, prefix6: bytes)
    | Evpn(kind: byte, evpnLen: byte, routeData: bytes)
    | Generic(genLen: byte, genPrefix: bytes)

  datatype RouteKind = PlainV4 | AddPath | PlainV6 | L2vpn | Other

  /** The bytes that a prefix of the given bit length needs. */
  function Octets(len: byte): nat { (len as int + 7) / 8 }

  function Pad(b: bytes, width: nat): (p: bytes)
    ensures b <= p
  {
    b + seq(if |b| < width then width - |b| else 0, _ => 0)
  }

  /** RouteEVPN.unpack indexes two optional length bytes, which must be there. */
  predicate EvpnOk(kind: byte, d: bytes) {
    var b1 := From(d, 8);
    var b2 := if kind != 3 then From(b1, 10) else b1;
    var b3 := if kind != 4 then From(b2, 4) else b2;
    (kind == 2 ==> |b3| > 0) &&
    var b4 := if kind == 2 && |b3| > 0 then From(b3, if b3[0] == 48 then 7 else 1) else b3;
    kind != 1 ==> |b4| > 0
  }

  function HeaderLen(k: RouteKind): nat {
    if k.AddPath? then 5 else if k.L2vpn? then 2 else 1
  }

  function ParseRoute(k: RouteKind, x: bytes): Result<Route> {
    var h := HeaderLen(k);
    if |x| < h then Err(NeedData)
    else
      var len := x[h - 1];
      match k
      case PlainV4 => Ok(V4(len, Pad(Slice(x, h, h + Octets(len)), 4)))
      case AddPath => Ok(Extended(UnBE(x[..4]), len, Pad(Slice(x, h, h + Octets(len)), 4)))
      case PlainV6 => Ok(V6(len, Pad(Slice(x, h, h + Octets(len)), 16)))
      case L2vpn =>
        var d := Slice(x, h, h + len as int);
        if EvpnOk(x[0], d) then Ok(Evpn(x[0], len, d)) else Err(ValueError)
      case Other => Ok(Generic(len, Slice(x, h, h + Octets(len))))
  }

  function ShowRoute(r: Route): bytes {
    match r
    case V4(len, p) => [len] + Slice(p, 0, Octets(len))
    case Extended(id, len, p) => BE(id, 4) + [len] + Slice(p, 0, Octets(len))
    case V6(len, p) => [len] + Slice(p, 0, Octets(len))
    case Evpn(kind, len, d) => [kind, len] + d
    case Generic(len, p) => [len] + p
  }

  function RouteLen(r: Route): nat {
    match r
    case V4(len, _) => 1 + Octets(len)
    case Extended(_, len, _) => 5 + Octets(len)
    case V6(len, _) => 1 + Octets(len)
    case Evpn(_, len, _) => 2 + len as int
    case Generic(_, p) => 1 + |p|
  }

  /** The extent of a whole, untruncated route. */
  function RouteSize(k: RouteKind, x: bytes): nat {
    var h := HeaderLen(k);
    if |x| < h then 0
    else
      var n := h + if k.L2vpn? then x[h - 1] as int else Octets(x[h - 1]);
      if n <= |x| && (k.L2vpn? ==> EvpnOk(x[0], x[2..n])) then n else 0
  }

  function Routes(k: RouteKind): Codec<Route> {
    Codec(x => ParseRoute(k, x), ShowRoute, RouteLen, x => RouteSize(k, x))
  }

  lemma SliceFront(x: bytes, rest: bytes, lo: nat, hi: nat, width: nat)
    requires lo <= hi <= |x|
    ensures Slice(x + rest, lo, hi) == x[lo..hi]
    ensures Slice(Pad(x[lo..hi], width), 0, hi - lo) == x[lo..hi]
  {
    assert (x + rest)[lo..hi] == x[lo..hi];
  }

  lemma RouteExact(k: RouteKind, x: bytes, rest: bytes)
    requires 0 < RouteSize(k, x) <= |x|
    ensures var r := ParseRoute(k, x + rest);
            r.Ok? && ShowRoute(r.value) == x[..RouteSize(k, x)] && RouteLen(r.value) == RouteSize(k, x)
  {
    hide EvpnOk, Pad, BE, UnBE, Octets;
    var h, n := HeaderLen(k), RouteSize(k, x);
    var width := if k.PlainV6? then 16 else 4;
    SliceFront(x, rest, h, n, width);
    assert (x + rest)[h - 1] == x[h - 1] && (x + rest)[0] == x[0];
    assert x[..n] == x[..h] + x[h..n];
    if k.AddPath? {
      assert (x + rest)[..4] == x[..4];
      UnBERoundTrip(x[..4]);
      assert x[..5] == x[..4] + [x[4]];
    } else if k.L2vpn? {
      assert x[..2] == [x[0], x[1]];
    } else {
      assert x[..1] == [x[0]];
    }
  }

  lemma RoutesLawful(k: RouteKind)
    ensures Lawful(Routes(k))
  {
    hide ParseRoute, ShowRoute, RouteLen, RouteSize;
    forall x: bytes, rest: bytes | Fits(Routes(k), x) ensures Exact(Routes(k), x, rest) {
      RouteExact(k, x, rest);
    }
  }

  /** The Add-Path guess for announced routes: nine divides what is left. */
  function GuessKind(x: bytes): RouteKind {
    if |x| % 9 == 0 then AddPath else PlainV4
  }

  function Announced(): Codec<Route> {
    Codec(x => ParseRoute(GuessKind(x), x), ShowRoute, RouteLen, x => RouteSize(GuessKind(x), x))
  }

  lemma AnnouncedLawful()
    ensures LawfulAlone(Announced())
  {
    hide ParseRoute, ShowRoute, RouteLen, RouteSize;
    forall x: bytes | Fits(Announced(), x) ensures Exact(Announced(), x, []) {
      assert x + [] == x;
      RouteExact(GuessKind(x), x, []);
    }
  }

  lemma AnnouncedTight()
    ensures Tight(Announced())
  {
    hide Pad, UnBE, Slice;
  }

  /** No remainder at which a plain route starts has a length that nine divides. */
  predicate NeverNine(a: bytes)
    requires AllFit(Routes(PlainV4), a)
    decreases |a|
  {
    |a| == 0 || (|a| % 9 != 0 && NeverNine(a[RouteSize(PlainV4, a)..]))
  }

  /** Plain routes are parsed as plain routes if and only if the guess never sees a multiple of nine. */
  lemma {:induction false} GuessExact(a: bytes)
    requires AllFit(Routes(PlainV4), a)
    ensures ParseAll(Announced(), a) == ParseAll(Routes(PlainV4), a) <==> NeverNine(a)
    decreases |a|
  {
    if |a| > 0 {
      var c := Routes(PlainV4);
      RoutesLawful(PlainV4);
      LawfulImpliesAlone(c);
      AllExact(c, a);
      FirstElement(c, a);
      hide LawfulAlone, ParseRoute, ShowRoute, RouteLen, RouteSize;
      var left := a[c.size(a)..];
      GuessExact(left);
      GuessedHead(a);
      var plain, guessed := ParseAll(c, a), ParseAll(Announced(), a);
      if |a| % 9 != 0 {
        assert guessed.Ok? <==> ParseAll(Announced(), left).Ok?;
        assert plain.value[1..] == ParseAll(c, left).value;
        if guessed.Ok? {
          assert guessed.value[1..] == ParseAll(Announced(), left).value;
        }
      }
    }
  }

  /** The first announced route is plain unless nine divides the length. */
  lemma GuessedHead(a: bytes)
    requires |a| > 0
    ensures Announced().parse(a) == ParseRoute(GuessKind(a), a) && Announced().len == Routes(PlainV4).len
    ensures var all := ParseAll(Announced(), a);
            all.Ok? ==> |all.value| > 0 && (all.value[0].Extended? <==> |a| % 9 == 0)
    ensures var all := ParseAll(Routes(PlainV4), a); all.Ok? ==> |all.value| > 0 && all.value[0].V4?
  {
    hide Pad, UnBE, Slice, RouteLen;
  }

  // ---------- AS path segments ----------

  datatype Segment = Segment(kind: byte, len: byte, path: seq<nat>, width: nat)

  /** How many AS numbers a segment takes: two-octet ones as declared, four-octet ones while they last. */
  function PathCount(width: nat, len: nat, avail: nat): nat {
    if width == 4 && avail / 4 < len then avail / 4 else len
  }

  function ParseSegment(width: nat, x: bytes): Result<Segment> {
    if |x| < 2 then Err(NeedData)
    else
      var (path, _) :- ParseTimes(Words(width), x[2..], PathCount(width, x[1] as int, |x| - 2));
      Ok(Segment(x[0], x[1], path, width))
  }

  function ShowSegment(s: Segment): bytes {
    [s.kind, s.len] + PrintAll(Words(s.width), s.path)
  }

  function SegmentLen(s: Segment): nat { 2 + s.width * |s.path| }

  function SegmentSize(width: nat, x: bytes): nat {
    if |x| < 2 then 0
    else
      var n := 2 + width * PathCount(width, x[1] as int, |x| - 2);
      if n <= |x| then n else 0
  }

  function Segments(width: nat): Codec<Segment> {
    Codec(x => ParseSegment(width, x), ShowSegment, SegmentLen, x => SegmentSize(width, x))
  }

  lemma SegmentExact(width: nat, x: bytes)
    requires width > 0 && 0 < SegmentSize(width, x) <= |x|
    ensures var r := ParseSegment(width, x);
            r.Ok? && ShowSegment(r.value) == x[..SegmentSize(width, x)] && SegmentLen(r.value) == SegmentSize(width, x)
  {
    hide ParseTimes, PrintAll, TimesFit, Span, TotalLen, PathCount;
    var n := PathCount(width, x[1] as int, |x| - 2);
    WordsLawful(width);
    WordsTimesFit(width, x[2..], n);
    TimesExact(Words(width), x[2..], n);
    var k := width * n;
    assert x[..2 + k] == [x[0], x[1]] + x[2..][..k];
  }

  lemma SegmentsLawful(width: nat)
    requires width > 0
    ensures LawfulAlone(Segments(width))
  {
    hide ParseSegment, ShowSegment, SegmentLen, SegmentSize;
    forall x: bytes | Fits(Segments(width), x) ensures Exact(Segments(width), x, []) {
      assert x + [] == x;
      SegmentExact(width, x);
    }
  }

  /** Six bytes always cut into four-octet segments, so the guess never loses them. */
  lemma SixBytesFit(d: bytes)
    requires |d| == 6
    ensures AllFit(Segments(4), d)
  {
    var c := Segments(4);
    assert c.size(d) == 6 || c.size(d) == 2;
    if c.size(d) == 2 {
      var e := d[2..];
      assert c.size(e) == 2;
      var f := e[2..];
      assert c.size(f) == 2;
      assert f[2..] == [];
      assert AllFit(c, f[2..]);
      assert AllFit(c, f);
      assert AllFit(c, e);
    } else {
      assert d[6..] == [];
      assert AllFit(c, d[6..]);
    }
  }

  // ---------- communities ----------

  datatype Community = Reserved(value: nat) | Plain(asn: nat, local: nat)

  function ParseCommunity(x: bytes): Result<Community> {
    if |x| < 4 then Err(UnpackError)
    else
      var val := UnBE(x[..4]);
      if val <= 0xffff || val >= 0xffff0000 then Ok(Reserved(val)) else Ok(Plain(UnBE(x[..2]), UnBE(x[2..4])))
  }

  function ShowCommunity(c: Community): bytes {
    match c
    case Reserved(v) => BE(v, 4)
    case Plain(asn, local) => BE(asn, 2) + BE(local, 2)
  }

  function Communities(): Codec<Community> {
    Codec(ParseCommunity, ShowCommunity, _ => 4, x => WordSize(4, x))
  }

  lemma CommunitiesLawful()
    ensures LawfulAlone(Communities())
  {
    forall x: bytes | Fits(Communities(), x) ensures Exact(Communities(), x, []) {
      CommunityExact(x);
    }
  }

  lemma CommunityExact(x: bytes)
    requires |x| >= 4
    ensures ParseCommunity(x + []).Ok? && ShowCommunity(ParseCommunity(x + []).value) == x[..4]
  {
    hide BE, UnBE;
    assert x + [] == x;
    UnBERoundTrip(x[..4]);
    UnBERoundTrip(x[..2]);
    UnBERoundTrip(x[2..4]);
    assert x[..4] == x[..2] + x[2..4];
  }

  // ---------- multiprotocol reachability ----------

  datatype Snpa = Snpa(len: byte, data: bytes)

  function ParseSnpa(x: bytes): Result<Snpa> {
    if |x| < 1 then Err(NeedData) else Ok(Snpa(x[0], Slice(x, 1, 1 + (x[0] as int + 1) / 2)))
  }

  /** What a sub-network point of attachment takes of its data: the last one may be cut short. */
  function SnpaSize(x: bytes): nat {
    if |x| < 1 then 0 else 1 + |Slice(x, 1, 1 + (x[0] as int + 1) / 2)|
  }

  function Snpas(): Codec<Snpa> {
    Codec(ParseSnpa, (s: Snpa) => [s.len] + s.data, (s: Snpa) => 1 + |s.data|, SnpaSize)
  }

  lemma SnpasLawful()
    ensures LawfulAlone(Snpas())
  {
    forall x: bytes | Fits(Snpas(), x) ensures Exact(Snpas(), x, []) {
      assert x + [] == x;
      assert x[..SnpaSize(x)] == [x[0]] + x[1..SnpaSize(x)];
    }
  }

  function KindOfAfi(afi: nat): RouteKind {
    if afi == 1 then PlainV4 else if afi == 2 then PlainV6 else if afi == 25 then L2vpn else Other
  }

  function HopLen(afi: nat): nat { if afi == 2 then 16 else 4 }

  /** The next-hop loop: whole hops are taken until the declared length is used up or overrun. */
  function Hops(d: bytes, n: int, h: nat): (seq<bytes>, bytes)
    requires h > 0
    decreases if n < 0 then 0 else n
  {
    if n <= 0 then ([], d)
    else
      var (rest, left) := Hops(From(d, h), n - h, h);
      ([Slice(d, 0, h)] + rest, left)
  }

  lemma {:induction false} HopsExact(d: bytes, n: nat, h: nat)
    requires h > 0 && n % h == 0 && n <= |d|
    ensures var (hops, left) := Hops(d, n, h); Flatten(hops) == d[..n] && left == d[n..]
    decreases n
  {
    if n > 0 {
      Divided(n, h);
      HopsExact(d[h..], n - h, h);
      CutTwice(d, h, n - h);
      var rest := Hops(d[h..], n - h, h).0;
      assert ([d[..h]] + rest)[1..] == rest;
      assert From(d, h) == d[h..];
    }
  }

  lemma Divided(n: nat, h: nat)
    requires 0 < h && 0 < n && n % h == 0
    ensures n >= h && (n - h) % h == 0
  {
    var q := n / h;
    assert n == h * q;
    assert q >= 1;
    assert n - h == h * (q - 1);
    DivUnique(n - h, h, q - 1, 0);
    assert (n - h) / h == q - 1;
  }

  // ---------- path attributes ----------

  datatype Payload =
    | Raw(raw: bytes)
    | Fixed(width: nat, value: nat, trailing: bytes)
    | AsPath(segments: seq<Segment>)
    | Atomic
    | CommunityList(communities: seq<Community>)
    | ClusterList(clusters: seq<nat>)
    | Reach(afi: nat, safi: byte, hops: seq<bytes>, snpas: seq<Snpa>, announced: seq<Route>)
    | Unreach(unreachAfi: nat, unreachSafi: byte, withdrawn: seq<Route>)

  /** Fixed header bytes of the simple attribute classes: origin, next hop, metrics, aggregator, originator. */
  function FixedWidth(kind: byte): nat {
    if kind == 1 then 1 else if kind == 3 || kind == 4 || kind == 5 || kind == 9 then 4 else if kind == 7 then 6 else 0
  }

  function AsWidth(d: bytes): nat { if |d| == 6 then 4 else 2 }

  function ParseReach(d: bytes): Result<Payload> {
    if |d| < 4 then Err(UnpackError)
    else
      var afi := UnBE(d[..2]);
      var (hops, d2) := Hops(d[4..], d[3] as int, HopLen(afi));
      if |d2| < 1 then Err(UnpackError)
      else
        var (snpas, d3) :- ParseTimes(Snpas(), d2[1..], d2[0] as int);
        var routes :- ParseAll(Routes(KindOfAfi(afi)), d3);
        Ok(Reach(afi, d[2], hops, snpas, routes))
  }

  function ParseUnreach(d: bytes): Result<Payload> {
    if |d| < 3 then Err(NeedData)
    else
      var afi := UnBE(d[..2]);
      var routes :- ParseAll(Routes(KindOfAfi(afi)), d[3..]);
      Ok(Unreach(afi, d[2], routes))
  }

  /** The class that Attribute.unpack selects by type. */
  function ParsePayload(kind: byte, d: bytes): Result<Payload> {
    var k := FixedWidth(kind);
    if k > 0 then
      if |d| < k then Err(NeedData) else Ok(Fixed(k, UnBE(d[..k]), d[k..]))
    else if kind == 2 then
      var segs :- ParseAll(Segments(AsWidth(d)), d);
      Ok(AsPath(segs))
    else if kind == 6 then Ok(Atomic)
    else if kind == 8 then
      var cs :- ParseAll(Communities(), d);
      Ok(CommunityList(cs))
    else if kind == 10 then
      var cs :- ParseAll(Words(4), d);
      Ok(ClusterList(cs))
    else if kind == 14 then ParseReach(d)
    else if kind == 15 then ParseUnreach(d)
    else Ok(Raw(d))
  }

  function ShowPayload(p: Payload): bytes {
    match p
    case Raw(b) => b
    case Fixed(k, v, rest) => BE(v, k) + rest
    case AsPath(segs) => PrintAll(Segments(2), segs)
    case Atomic => []
    case CommunityList(cs) => PrintAll(Communities(), cs)
    case ClusterList(cs) => PrintAll(Words(4), cs)
    case Reach(afi, safi, hops, snpas, routes) =>
      BE(afi, 2) + [safi] + BE(|Flatten(hops)|, 1) + Flatten(hops) + BE(|snpas|, 1) + PrintAll(Snpas(), snpas)
      + PrintAll(Routes(PlainV4), routes)
    case Unreach(afi, safi, routes) => BE(afi, 2) + [safi] + PrintAll(Routes(PlainV4), routes)
  }

  /** The length the payload's own class reports: sums over its parts, whether or not they were cut short. */
  function PayloadLen(p: Payload): nat {
    match p
    case Raw(b) => |b|
    case Fixed(k, _, rest) => k + |rest|
    case AsPath(segs) => TotalLen(Segments(2), segs)
    case Atomic => 0
    case CommunityList(cs) => TotalLen(Communities(), cs)
    case ClusterList(cs) => 4 * |cs|
    case Reach(_, _, hops, snpas, routes) =>
      3 + 1 + |Flatten(hops)| + 1 + TotalLen(Snpas(), snpas) + TotalLen(Routes(PlainV4), routes)
    case Unreach(_, _, routes) => 3 + TotalLen(Routes(PlainV4), routes)
  }

  /** Nothing in the payload is cut short, and its inner lengths end where they say. */
  predicate PayloadFits(kind: byte, d: bytes) {
    var k := FixedWidth(kind);
    if k > 0 then |d| >= k
    else if kind == 2 then AllFit(Segments(AsWidth(d)), d)
    else if kind == 6 then |d| == 0
    else if kind == 8 then AllFit(Communities(), d)
    else if kind == 10 then AllFit(Words(4), d)
    else if kind == 14 then ReachFits(d)
    else if kind == 15 then |d| >= 3 && AllFit(Routes(KindOfAfi(UnBE(d[..2]))), d[3..])
    else true
  }

  predicate ReachFits(d: bytes) {
    |d| >= 4 &&
    var afi, n := UnBE(d[..2]), d[3] as int;
    n % HopLen(afi) == 0 && 4 + n < |d| &&
    var d2 := d[4 + n..];
    TimesFit(Snpas(), d2[1..], d2[0] as int) &&
    AllFit(Routes(KindOfAfi(afi)), d2[1..][Span(Snpas(), d2[1..], d2[0] as int)..])
  }

  /** Printing and length do not depend on which parser class built an element. */
  lemma {:induction false} SameShow<T>(a: Codec<T>, b: Codec<T>, xs: seq<T>)
    requires a.show == b.show && a.len == b.len
    ensures PrintAll(a, xs) == PrintAll(b, xs) && TotalLen(a, xs) == TotalLen(b, xs)
  {
    if |xs| > 0 {
      SameShow(a, b, xs[1..]);
    }
  }

  lemma RoutesPrint(k: RouteKind, d: bytes)
    requires AllFit(Routes(k), d)
    ensures ParseAll(Routes(k), d).Ok? && PrintAll(Routes(PlainV4), ParseAll(Routes(k), d).value) == d
    ensures TotalLen(Routes(PlainV4), ParseAll(Routes(k), d).value) == |d|
  {
    RoutesLawful(k);
    LawfulImpliesAlone(Routes(k));
    AllExact(Routes(k), d);
    SameShow(Routes(k), Routes(PlainV4), ParseAll(Routes(k), d).value);
  }

  lemma OneByte(b: byte)
    ensures BE(b as int, 1) == [b]
  {
    assert BE(b as int, 1) == BE(0, 0) + [b];
  }

  lemma ReachExact(d: bytes)
    requires ReachFits(d)
    ensures ParseReach(d).Ok? && ShowPayload(ParseReach(d).value) == d && PayloadLen(ParseReach(d).value) == |d|
  {
    hide Hops, ParseTimes, ParseAll, PrintAll, TimesFit, AllFit, BE, UnBE, TotalLen, Flatten;
    var afi, n := UnBE(d[..2]), d[3] as int;
    HopsExact(d[4..], n, HopLen(afi));
    var hops := Hops(d[4..], n, HopLen(afi)).0;
    var d2 := d[4..][n..];
    assert d2 == d[4 + n..];
    var count := d2[0] as int;
    var k := Span(Snpas(), d2[1..], count);
    SnpasLawful();
    TimesExact(Snpas(), d2[1..], count);
    RoutesPrint(KindOfAfi(afi), d2[1..][k..]);
    UnBERoundTrip(d[..2]);
    OneByte(d[3]);
    OneByte(d2[0]);
    ReachLayout(d, n, k);
  }

  lemma ReachLayout(d: bytes, n: nat, k: nat)
    requires |d| >= 4 && 4 + n < |d| && 5 + n + k <= |d|
    ensures var d2 := d[4..][n..];
            d == d[..2] + [d[2]] + [d[3]] + d[4..][..n] + [d2[0]] + d2[1..][..k] + d2[1..][k..]
  {
    var e := d[4..];
    var d2 := e[n..];
    var t := d2[1..];
    Halves(d, 4);
    Halves(e, n);
    Halves(d2, 1);
    Halves(t, k);
    assert d[..4] == d[..2] + [d[2]] + [d[3]] && d2[..1] == [d2[0]];
    FiveParts(d[..4], e[..n], d2[..1], t[..k], t[k..]);
  }

  lemma Halves(s: bytes, k: nat)
    requires k <= |s|
    ensures s == s[..k] + s[k..]
  {
  }

  lemma FiveParts(a: bytes, b: bytes, c: bytes, x: bytes, y: bytes)
    ensures a + (b + (c + (x + y))) == a + b + c + x + y
  {
  }

  lemma UnreachExact(d: bytes)
    requires |d| >= 3 && AllFit(Routes(KindOfAfi(UnBE(d[..2]))), d[3..])
    ensures ParseUnreach(d).Ok? && ShowPayload(ParseUnreach(d).value) == d && PayloadLen(ParseUnreach(d).value) == |d|
  {
    hide ParseAll, PrintAll, AllFit, BE, UnBE;
    RoutesPrint(KindOfAfi(UnBE(d[..2])), d[3..]);
    UnBERoundTrip(d[..2]);
    assert d == d[..2] + [d[2]] + d[3..];
  }

  lemma AsPathExact(d: bytes)
    requires AllFit(Segments(AsWidth(d)), d)
    ensures ParseAll(Segments(AsWidth(d)), d).Ok?
    ensures PrintAll(Segments(2), ParseAll(Segments(AsWidth(d)), d).value) == d
    ensures TotalLen(Segments(2), ParseAll(Segments(AsWidth(d)), d).value) == |d|
  {
    var w := AsWidth(d);
    SegmentsLawful(w);
    AllExact(Segments(w), d);
    SameShow(Segments(w), Segments(2), ParseAll(Segments(w), d).value);
  }

  lemma {:induction false} WordsTotal(k: nat, vs: seq<nat>)
    ensures TotalLen(Words(k), vs) == k * |vs|
  {
    if |vs| > 0 {
      WordsTotal(k, vs[1..]);
      assert k * |vs| == k + k * (|vs| - 1);
    }
  }

  /** Every payload without truncation prints back to itself, and its class reports that many bytes. */
  lemma PayloadExact(kind: byte, d: bytes)
    requires PayloadFits(kind, d)
    ensures ParsePayload(kind, d).Ok? && ShowPayload(ParsePayload(kind, d).value) == d
    ensures PayloadLen(ParsePayload(kind, d).value) == |d|
  {
    hide ParseAll, PrintAll, AllFit, ParseReach, ParseUnreach, ReachFits, BE, UnBE, TotalLen;
    var k := FixedWidth(kind);
    if k > 0 {
      UnBERoundTrip(d[..k]);
      assert d == d[..k] + d[k..];
    } else if kind == 2 {
      AsPathExact(d);
    } else if kind == 8 {
      CommunitiesLawful();
      AllExact(Communities(), d);
    } else if kind == 10 {
      WordsLawful(4);
      AllExact(Words(4), d);
      WordsTotal(4, ParseAll(Words(4), d).value);
    } else if kind == 14 {
      ReachExact(d);
    } else if kind == 15 {
      UnreachExact(d);
    }
  }

  datatype Attribute = Attribute(flags: byte, kind: byte, len: nat, payload: Payload)

  predicate ExtendedLength(flags: byte) { flags / 16 % 2 == 1 }

  function LengthBytes(flags: byte): nat { if ExtendedLength(flags) then 2 else 1 }

  /** Attribute.unpack. */
  function ParseAttribute(x: bytes): Result<Attribute> {
    if |x| < 2 then Err(NeedData)
    else
      var l := LengthBytes(x[0]);
      if |x| < 2 + l then Err(UnpackError)
      else
        var len := UnBE(x[2..2 + l]);
        var payload :- ParsePayload(x[1], Slice(x, 2 + l, 2 + l + len));
        Ok(Attribute(x[0], x[1], len, payload))
  }

  function ShowAttribute(a: Attribute): bytes {
    [a.flags, a.kind] + BE(a.len, LengthBytes(a.flags)) + ShowPayload(a.payload)
  }

  function AttributeLen(a: Attribute): nat {
    2 + LengthBytes(a.flags) + PayloadLen(a.payload)
  }

  function AttributeSize(x: bytes): nat {
    if |x| < 2 then 0
    else
      var l := LengthBytes(x[0]);
      if |x| < 2 + l then 0
      else
        var n := 2 + l + UnBE(x[2..2 + l]);
        if n <= |x| && PayloadFits(x[1], x[2 + l..n]) then n else 0
  }

  function Attributes(): Codec<Attribute> {
    Codec(ParseAttribute, ShowAttribute, AttributeLen, AttributeSize)
  }

  lemma AttributeExact(x: bytes, rest: bytes)
    requires 0 < AttributeSize(x) <= |x|
    ensures var r := ParseAttribute(x + rest);
            r.Ok? && ShowAttribute(r.value) == x[..AttributeSize(x)] && AttributeLen(r.value) == AttributeSize(x)
  {
    hide PayloadFits, ParsePayload, ShowPayload, PayloadLen, BE, UnBE;
    var l := LengthBytes(x[0]);
    var n := AttributeSize(x);
    assert (x + rest)[2..2 + l] == x[2..2 + l] && (x + rest)[0] == x[0] && (x + rest)[1] == x[1];
    SliceExtend(x, rest, 2 + l, n);
    PayloadExact(x[1], x[2 + l..n]);
    UnBERoundTrip(x[2..2 + l]);
    assert x[..n] == [x[0], x[1]] + x[2..2 + l] + x[2 + l..n];
  }

  const CUT_ATTRIBUTE: bytes := [0x80, 15, 6, 0, 1, 1, 40, 7, 7]

  /** A route cut short counts in full, so an attribute of nine bytes reports twelve; eleven are printed. */
  lemma CutAttribute()
    ensures var r := ParseAttribute(CUT_ATTRIBUTE);
            r.Ok? && AttributeLen(r.value) == 12 && |ShowAttribute(r.value)| == 11
  {
    hide ParseAttribute, ParsePayload, PayloadLen, ShowPayload, LengthBytes, ExtendedLength, BE, UnBE, Slice;
    var x, d: bytes := CUT_ATTRIBUTE, [0, 1, 1, 40, 7, 7];
    CutPayload(d);
    CutParse(x, d);
  }

  lemma CutParse(x: bytes, d: bytes)
    requires x == CUT_ATTRIBUTE && d == [0, 1, 1, 40, 7, 7] && ParsePayload(15, d).Ok?
    ensures ParseAttribute(x) == Ok(Attribute(0x80, 15, 6, ParsePayload(15, d).value)) && LengthBytes(0x80) == 1
  {
    hide ParsePayload, UnBE;
    assert x[2..3] == [6] && Slice(x, 3, 9) == d;
    SmallNumbers();
  }

  lemma CutPayload(d: bytes)
    requires d == [0, 1, 1, 40, 7, 7]
    ensures var r := ParsePayload(15, d); r.Ok? && PayloadLen(r.value) == 9 && |ShowPayload(r.value)| == 8
  {
    hide ParseAll, PrintAll, TotalLen, BE, UnBE, Routes, FixedWidth;
    var tail: bytes := [40, 7, 7];
    var route := V4(40, [7, 7, 0, 0]);
    var c := Routes(PlainV4);
    assert d[3..] == tail && d[..2] == [0, 1];
    SmallNumbers();
    ParseFirst(c, tail);
    ParseFirst(c, []);
    CutRoute(tail);
    NotFixed();
    assert From(tail, 6) == [] && [route] + [] == [route];
    PrintNone(c);
    PrintCons(c, route, []);
  }

  lemma NotFixed()
    ensures FixedWidth(15) == 0
  {
  }

  lemma CutRoute(tail: bytes)
    requires tail == [40, 7, 7]
    ensures var c, route := Routes(PlainV4), V4(40, [7, 7, 0, 0]);
            c.parse(tail) == Ok(route) && c.len(route) == 6 && |c.show(route)| == 5
  {
    assert Slice(tail, 1, 6) == [7, 7];
    assert Pad([7, 7], 4) == [7, 7, 0, 0];
  }

  lemma SmallNumbers()
    ensures UnBE([6]) == 6 && UnBE([0, 1]) == 1
  {
    assert UnBE([]) == 0 && UnBE([0]) == 0;
  }

  lemma AttributesLawful()
    ensures Lawful(Attributes())
  {
    hide ParseAttribute, ShowAttribute, AttributeLen, AttributeSize;
    forall x: bytes, rest: bytes | Fits(Attributes(), x) ensures Exact(Attributes(), x, rest) {
      AttributeExact(x, rest);
    }
  }

  // ---------- the UPDATE body ----------

  datatype Update = Update(withdrawn: seq<Route>, attributes: seq<Attribute>, announced: seq<Route>)

  /** Update.unpack. */
  function Unpack(buf: bytes): Result<Update> {
    if |buf| < 2 then Err(UnpackError)
    else
      var (withdrawn, d1) :- ParseCounted(Routes(PlainV4), buf[2..], UnBE(buf[..2]));
      if |d1| < 2 then Err(UnpackError)
      else
        var (attributes, d2) :- ParseCounted(Attributes(), d1[2..], UnBE(d1[..2]));
        var announced :- ParseAll(Announced(), d2);
        Ok(Update(withdrawn, attributes, announced))
  }

  /** Update.__bytes__: both section lengths must fit sixteen bits. */
  function ToBytes(u: Update): Result<bytes> {
    var w, p := TotalLen(Routes(PlainV4), u.withdrawn), TotalLen(Attributes(), u.attributes);
    if w >= 0x1_0000 || p >= 0x1_0000 then Err(PackError)
    else
      Ok(BE(w, 2) + PrintAll(Routes(PlainV4), u.withdrawn) + BE(p, 2) + PrintAll(Attributes(), u.attributes)
         + PrintAll(Announced(), u.announced))
  }

  /** Update.__len__. */
  function UpdateLen(u: Update): nat {
    2 + TotalLen(Routes(PlainV4), u.withdrawn) + 2 + TotalLen(Attributes(), u.attributes)
    + TotalLen(Announced(), u.announced)
  }

  function Body(w: bytes, p: bytes, a: bytes): bytes {
    BE(|w|, 2) + w + BE(|p|, 2) + p + a
  }

  lemma BodyHead(w: bytes, p: bytes, a: bytes)
    requires |w| < 0x1_0000
    ensures var buf := Body(w, p, a);
            |buf| >= 2 && UnBE(buf[..2]) == |w| && buf[2..] == w + (BE(|p|, 2) + p + a)
  {
    hide BE, UnBE;
    Widths();
    BERoundTrip(|w|, 2);
    assert Body(w, p, a)[..2] == BE(|w|, 2);
  }

  lemma BodyMiddle(p: bytes, a: bytes)
    requires |p| < 0x1_0000
    ensures var d := BE(|p|, 2) + p + a; |d| >= 2 && UnBE(d[..2]) == |p| && d[2..] == p + a
  {
    hide BE, UnBE;
    Widths();
    BERoundTrip(|p|, 2);
    assert (BE(|p|, 2) + p + a)[..2] == BE(|p|, 2);
  }

  ghost predicate Reproduced(buf: bytes) {
    var r := Unpack(buf);
    r.Ok? && ToBytes(r.value) == Ok(buf) && UpdateLen(r.value) == |buf|
  }

  /**
   An UPDATE body whose withdrawn routes and attributes are whole and end on their declared lengths parses, prints
   back to the same bytes and reports their number if and only if its announced routes are whole as the Add-Path
   guess cuts them. The four-octet AS guess never matters.
   */
  lemma BodyRoundTrip(w: bytes, p: bytes, a: bytes)
    requires |w| < 0x1_0000 && |p| < 0x1_0000
    requires AllFit(Routes(PlainV4), w) && AllFit(Attributes(), p)
    ensures Reproduced(Body(w, p, a)) <==> AllFit(Announced(), a)
  {
    hide ParseCounted, ParseAll, PrintAll, TotalLen, AllFit, Routes, Attributes, Announced, BE, UnBE;
    RoutesLawful(PlainV4);
    AttributesLawful();
    AnnouncedLawful();
    BodyHead(w, p, a);
    BodyMiddle(p, a);
    CountedExact(Routes(PlainV4), w, BE(|p|, 2) + p + a);
    CountedExact(Attributes(), p, a);
    AnnouncedTight();
    FitsExact(Announced(), a);
    if AllFit(Announced(), a) {
      AllExact(Announced(), a);
    }
  }

  ghost predicate Announces(buf: bytes, routes: Result<seq<Route>>) {
    routes.Ok? && Unpack(buf).Ok? && Unpack(buf).value.announced == routes.value
  }

  /** Plain announced routes at which the guess never sees a multiple of nine are reproduced and stay plain. */
  lemma PlainRoundTrip(w: bytes, p: bytes, a: bytes)
    requires |w| < 0x1_0000 && |p| < 0x1_0000
    requires AllFit(Routes(PlainV4), w) && AllFit(Attributes(), p) && AllFit(Routes(PlainV4), a) && NeverNine(a)
    ensures Reproduced(Body(w, p, a)) && Announces(Body(w, p, a), ParseAll(Routes(PlainV4), a))
  {
    hide ParseCounted, ParseAll, PrintAll, TotalLen, AllFit, NeverNine, Routes, Attributes, Announced, BE, UnBE;
    PlainFits(a);
    BodyRoundTrip(w, p, a);
    GuessExact(a);
    RoutesLawful(PlainV4);
    AttributesLawful();
    BodyHead(w, p, a);
    BodyMiddle(p, a);
    CountedExact(Routes(PlainV4), w, BE(|p|, 2) + p + a);
    CountedExact(Attributes(), p, a);
  }

  lemma {:induction false} PlainFits(a: bytes)
    requires AllFit(Routes(PlainV4), a) && NeverNine(a)
    ensures AllFit(Announced(), a)
    decreases |a|
  {
    if |a| > 0 {
      PlainFits(a[RouteSize(PlainV4, a)..]);
    }
  }

  const THREE_ROUTES: bytes := [16, 1, 2, 16, 17, 4, 16, 5, 6]

  /**
   The routes 1.2/16, 17.4/16 and 5.6/16 take nine bytes, so they are read as one Add-Path route and a cut one,
   and the body comes out one byte longer than it went in.
   */
  lemma WrongGuess()
    ensures AllFit(Routes(PlainV4), THREE_ROUTES) && !NeverNine(THREE_ROUTES)
    ensures var buf := Body([], [], THREE_ROUTES);
            var r := Unpack(buf);
            r.Ok? && ToBytes(r.value).Ok? && ToBytes(r.value) != Ok(buf) && |buf| == 13 && UpdateLen(r.value) == 14
  {
    hide Unpack, PrintAll, TotalLen, Body, BE;
    PlainRoutes(THREE_ROUTES);
    CutRoutes();
    NoSections(THREE_ROUTES);
    UpdateSize([], [], ParseAll(Announced(), THREE_ROUTES).value);
  }

  lemma PlainRoutes(a: bytes)
    requires a == THREE_ROUTES
    ensures AllFit(Routes(PlainV4), a) && !NeverNine(a)
  {
    hide AllFit, RouteSize;
    var b, c := a[3..], a[6..];
    assert b == [16, 17, 4, 16, 5, 6] && c == [16, 5, 6] && c[3..] == [] && b[3..] == c;
    OneMore([]);
    OneMore(c);
    OneMore(b);
    OneMore(a);
  }

  lemma OneMore(x: bytes)
    requires |x| >= 3 && x[0] == 16 ==> AllFit(Routes(PlainV4), x[3..])
    requires |x| == 0 || (|x| >= 3 && x[0] == 16)
    ensures AllFit(Routes(PlainV4), x)
  {
  }

  /** Three bytes become the prefix of the one route, and a length byte is all that is left for the other. */
  lemma CutRoutes()
    ensures var r := ParseAll(Announced(), THREE_ROUTES);
            r.Ok? && TotalLen(Announced(), r.value) == 10 && |PrintAll(Announced(), r.value)| == 10
  {
    hide ParseAll, PrintAll, TotalLen, Pad, UnBE, BE, Slice;
    var a := THREE_ROUTES;
    var six: bytes := [6];
    assert From(a, 8) == six && From(six, 2) == [];
    var x := ParseRoute(AddPath, a).value;
    var y := ParseRoute(PlainV4, six).value;
    ParseFirst(Announced(), []);
    ParseFirst(Announced(), six);
    ParseFirst(Announced(), a);
    assert [y] + [] == [y];
    PrintNone(Announced());
    PrintCons(Announced(), y, []);
    PrintCons(Announced(), x, [y]);
    CutParts(a, six);
    ShownSizes(x, y);
  }

  lemma CutParts(a: bytes, six: bytes)
    requires a == THREE_ROUTES && six == [6]
    ensures var r := ParseRoute(AddPath, a);
            r.Ok? && r.value.Extended? && r.value.extLen == 17 && |r.value.extPrefix| >= 3
    ensures var r := ParseRoute(PlainV4, six); r.Ok? && r.value.V4? && r.value.len == 6 && |r.value.prefix| >= 1
  {
    hide UnBE;
  }

  lemma ParseFirst<T>(c: Codec<T>, data: bytes)
    ensures |data| == 0 ==> ParseAll(c, data) == Ok([])
    ensures |data| > 0 && c.parse(data).Ok? && c.len(c.parse(data).value) > 0 ==>
              var x := c.parse(data).value;
              var rest := ParseAll(c, From(data, c.len(x)));
              rest.Ok? ==> ParseAll(c, data) == Ok([x] + rest.value)
  {
  }

  lemma ShownSizes(x: Route, y: Route)
    requires x.Extended? && x.extLen == 17 && |x.extPrefix| >= 3 && y.V4? && y.len == 6 && |y.prefix| >= 1
    ensures |ShowRoute(x)| == RouteLen(x) == 8 && |ShowRoute(y)| == RouteLen(y) == 2
  {
    hide BE;
  }

  lemma UpdateSize(w: seq<Route>, p: seq<Attribute>, a: seq<Route>)
    requires w == [] && p == []
    ensures var u := Update(w, p, a);
            && UpdateLen(u) == 4 + TotalLen(Announced(), a)
            && ToBytes(u).Ok? && |ToBytes(u).value| == 4 + |PrintAll(Announced(), a)|
  {
    hide BE;
  }

  lemma NoSections(a: bytes)
    ensures var r := ParseAll(Announced(), a);
            r.Ok? ==> Unpack(Body([], [], a)) == Ok(Update([], [], r.value))
    ensures |Body([], [], a)| == 4 + |a|
  {
    hide ParseAll, BE, UnBE, Announced, Attributes, Routes;
    BodyHead([], [], a);
    BodyMiddle([], a);
    assert [] + (BE(0, 2) + [] + a) == BE(0, 2) + [] + a && [] + a == a;
  }

  // ---------- the program's own form ----------

  /** Update.unpack as its three loops. */
  method UnpackUpdate(buf: bytes) returns (r: Result<Update>)
    ensures r == Unpack(buf)
  {
    hide Routes, Attributes, Announced, ParseCounted, ParseAll, UnBE;
    if |buf| < 2 {
      return Err(UnpackError);
    }
    var first := UnpackCounted(Routes(PlainV4), buf[2..], UnBE(buf[..2]));
    if first.Err? {
      return Err(first.error);
    }
    var (withdrawn, d1) := first.value;
    if |d1| < 2 {
      return Err(UnpackError);
    }
    var second := UnpackCounted(Attributes(), d1[2..], UnBE(d1[..2]));
    if second.Err? {
      return Err(second.error);
    }
    var (attributes, d2) := second.value;
    var announced :- UnpackAll(Announced(), d2);
    return Ok(Update(withdrawn, attributes, announced));
  }

  /** The next-hop loop of MPReachNLRI.unpack. */
  method UnpackHops(whole: bytes, length: nat, h: nat) returns (hops: seq<bytes>, data: bytes)
    requires h > 0
    ensures (hops, data) == Hops(whole, length, h)
  {
    data, hops := whole, [];
    var n: int := length;
    assert [] + Hops(whole, length, h).0 == Hops(whole, length, h).0;
    while n > 0
      invariant Hops(whole, length, h) == (hops + Hops(data, n, h).0, Hops(data, n, h).1)
      decreases n
    {
      ghost var rest := Hops(From(data, h), n - h, h).0;
      assert hops + ([Slice(data, 0, h)] + rest) == hops + [Slice(data, 0, h)] + rest;
      hops := hops + [Slice(data, 0, h)];
      data := From(data, h);
      n := n - h;
    }
    assert hops + [] == hops;
  }
}
