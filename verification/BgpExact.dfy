/**
 Exactly which BGP UPDATE bodies are reproduced: parsed, printed back to the same bytes, and counted with their number.
 A route that is cut short by the end of its attribute is padded with zeros, so it is reproduced where zeros follow.
 */
module BgpExact {
  import opened Bytes
  import opened Sections
  import opened Bgp

  /** The bytes f begin with z zeros. */
  predicate ZerosAt(f: bytes, z: nat) {
    z <= |f| && forall i :: 0 <= i < z ==> f[i] == 0
  }

  function Zeros(z: nat): (b: bytes)
    ensures |b| == z && forall i :: 0 <= i < z ==> b[i] == 0
  {
    seq(z, _ => 0)
  }

  lemma ZerosAre(f: bytes, z: nat)
    requires z <= |f|
    ensures f[..z] == Zeros(z) <==> ZerosAt(f, z)
  {
    if ZerosAt(f, z) {
      assert f[..z] == Zeros(z);
    } else {
      var i :| 0 <= i < z && f[i] != 0;
      assert f[..z][i] != Zeros(z)[i];
    }
  }

  /** The elements print the very bytes at the front of s that they count. */
  ghost predicate Printed<T>(c: Codec<T>, xs: seq<T>, s: bytes) {
    TotalLen(c, xs) <= |s| && PrintAll(c, xs) == s[..TotalLen(c, xs)]
  }

  // ---------- routes ----------

  function Width(k: RouteKind): nat { if k.PlainV6? then 16 else 4 }

  /** The declared extent of the route at the front. */
  function Declared(k: RouteKind, r: bytes): (n: nat)
    requires |r| >= HeaderLen(k)
    ensures n >= HeaderLen(k)
  {
    HeaderLen(k) + if k.L2vpn? then r[1] as int else Octets(r[HeaderLen(k) - 1])
  }

  /**
   How many zero bytes must follow a list of routes for the last one to be complete; None where no bytes that follow
   could complete the list.
   */
  function Gap(k: RouteKind, r: bytes): Option<nat>
    decreases |r|
  {
    if |r| == 0 then Some(0)
    else if |r| < HeaderLen(k) then None
    else
      var n := Declared(k, r);
      if n <= |r| then if k.L2vpn? && !EvpnOk(r[0], r[2..n]) then None else Gap(k, r[n..])
      else if k.Other? then Some(0)
      else if k.L2vpn? || n - HeaderLen(k) > Width(k) then None
      else Some(n - |r|)
  }

  /** A route of which only a part is there. */
  lemma CutStands(k: RouteKind, r: bytes, f: bytes)
    requires !k.AddPath? && HeaderLen(k) <= |r| < Declared(k, r)
    requires ParseRoute(k, r).Ok?
    ensures var x := ParseRoute(k, r).value;
            && RouteLen(x) >= |r| && (RouteLen(x) == |r| <==> k.Other?)
            && (Gap(k, r).Some? ==> RouteLen(x) == |r| + Gap(k, r).value)
            && (RouteLen(x) <= |r| + |f| && ShowRoute(x) == (r + f)[..RouteLen(x)] <==>
                Gap(k, r).Some? && ZerosAt(f, Gap(k, r).value))
  {
    hide EvpnOk, ParseRoute, ShowRoute, RouteLen;
    var h, n := HeaderLen(k), Declared(k, r);
    if k.Other? || k.L2vpn? {
      CutVerbatim(k, r);
      assert (r + f)[..|r|] == r;
    } else {
      CutPrefix(k, r);
      ZerosFollow(r, f, n);
    }
  }

  /** A cut generic or EVPN route prints what is there, and only the generic one counts that. */
  lemma CutVerbatim(k: RouteKind, r: bytes)
    requires k.Other? || k.L2vpn?
    requires HeaderLen(k) <= |r| < Declared(k, r) && ParseRoute(k, r).Ok?
    ensures var x := ParseRoute(k, r).value;
            ShowRoute(x) == r && RouteLen(x) == if k.Other? then |r| else Declared(k, r)
  {
    hide EvpnOk;
    var h := HeaderLen(k);
    assert r == r[..h] + r[h..] && r[..h] == if k.L2vpn? then [r[0], r[1]] else [r[0]];
    assert Slice(r, h, Declared(k, r)) == r[h..];
  }

  /** A cut prefix is filled up with zeros as far as an address reaches. */
  lemma CutPrefix(k: RouteKind, r: bytes)
    requires k.PlainV4? || k.PlainV6?
    requires HeaderLen(k) <= |r| < Declared(k, r) && ParseRoute(k, r).Ok?
    ensures var x, n := ParseRoute(k, r).value, Declared(k, r);
            && RouteLen(x) == n
            && if n - 1 > Width(k) then |ShowRoute(x)| < n else ShowRoute(x) == r + Zeros(n - |r|)
  {
    var n := Declared(k, r);
    assert r == [r[0]] + r[1..] && Slice(r, 1, n) == r[1..];
    if n - 1 <= Width(k) {
      PaddedSlice(r[1..], Width(k), n - 1);
    }
  }

  lemma ZerosFollow(r: bytes, f: bytes, n: nat)
    requires |r| < n
    ensures n <= |r| + |f| && r + Zeros(n - |r|) == (r + f)[..n] <==> ZerosAt(f, n - |r|)
  {
    if n <= |r| + |f| {
      assert (r + f)[..n] == r + f[..n - |r|];
      ZerosAre(f, n - |r|);
      SameTail(r, Zeros(n - |r|), f[..n - |r|]);
    }
  }

  lemma SameTail(a: bytes, b: bytes, c: bytes)
    ensures a + b == a + c <==> b == c
  {
    assert (a + b)[|a|..] == b && (a + c)[|a|..] == c;
  }

  lemma PaddedSlice(b: bytes, width: nat, n: nat)
    requires |b| < n <= width
    ensures Slice(Pad(b, width), 0, n) == b + Zeros(n - |b|)
  {
  }

  /** A list of routes stands in front of f if and only if f fills its gap with zeros. */
  lemma {:induction false} RoutesStand(k: RouteKind, r: bytes, f: bytes)
    requires !k.AddPath?
    ensures var p := ParseAll(Routes(k), r);
            && (Gap(k, r).Some? ==> p.Ok? && TotalLen(Routes(k), p.value) == |r| + Gap(k, r).value)
            && (p.Ok? && Printed(Routes(k), p.value, r + f) <==> Gap(k, r).Some? && ZerosAt(f, Gap(k, r).value))
    decreases |r|
  {
    hide ParseRoute, ShowRoute, RouteLen, RouteSize, EvpnOk, PrintAll, TotalLen, Printed, ParseAll;
    var c := Routes(k);
    ParseFirst(c, r);
    if |r| == 0 {
      NothingPrinted(c, r + f);
    } else {
      RouteParses(k, r);
      if ParseRoute(k, r).Ok? {
        var x := ParseRoute(k, r).value;
        var n := Declared(k, r);
        if n <= |r| {
          WholeRoute(k, r);
          RoutesStand(k, r[n..], f);
          RestParses(c, r);
          if ParseAll(c, r[n..]).Ok? {
            PrintedCons(c, x, ParseAll(c, r[n..]).value, r, f);
          }
        } else {
          CutStands(k, r, f);
          ParseFirst(c, []);
          assert From(r, c.len(x)) == [] && [x] + [] == [x];
          OnePrinted(c, x, r + f);
        }
      } else {
        RestParses(c, r);
      }
    }
  }

  lemma NothingPrinted<T>(c: Codec<T>, s: bytes)
    ensures Printed(c, [], s) && TotalLen(c, []) == 0
  {
    PrintNone(c);
  }

  lemma OnePrinted<T>(c: Codec<T>, x: T, s: bytes)
    ensures TotalLen(c, [x]) == c.len(x)
    ensures Printed(c, [x], s) <==> c.len(x) <= |s| && c.show(x) == s[..c.len(x)]
  {
    PrintNone(c);
    PrintCons(c, x, []);
    assert [x] + [] == [x];
  }

  /** When the first route parses, in terms of its extent. */
  lemma RouteParses(k: RouteKind, r: bytes)
    requires |r| > 0
    ensures |r| < HeaderLen(k) ==> ParseRoute(k, r).Err?
    ensures |r| >= HeaderLen(k) && Declared(k, r) <= |r| ==>
              (ParseRoute(k, r).Ok? <==> !k.L2vpn? || EvpnOk(r[0], r[2..Declared(k, r)]))
    ensures |r| >= HeaderLen(k) && !k.L2vpn? ==> ParseRoute(k, r).Ok?
  {
    hide EvpnOk, Pad, UnBE;
  }

  lemma WholeRoute(k: RouteKind, r: bytes)
    requires |r| >= HeaderLen(k) && Declared(k, r) <= |r| && ParseRoute(k, r).Ok?
    ensures var x, n := ParseRoute(k, r).value, Declared(k, r);
            ShowRoute(x) == r[..n] && RouteLen(x) == n && From(r, n) == r[n..] && n > 0
  {
    RouteParses(k, r);
    hide EvpnOk, ParseRoute, ShowRoute, RouteLen;
    assert r + [] == r;
    RouteExact(k, r, []);
  }

  /** A list parses if and only if its first element and the rest do. */
  lemma RestParses<T>(c: Codec<T>, r: bytes)
    requires |r| > 0
    ensures c.parse(r).Err? ==> ParseAll(c, r).Err?
    ensures c.parse(r).Ok? && c.len(c.parse(r).value) > 0 ==>
              (ParseAll(c, r).Ok? <==> ParseAll(c, From(r, c.len(c.parse(r).value))).Ok?)
  {
  }

  lemma PrintedCons<T>(c: Codec<T>, x: T, xs: seq<T>, r: bytes, f: bytes)
    requires 0 < c.len(x) <= |r| && c.show(x) == r[..c.len(x)]
    ensures TotalLen(c, [x] + xs) == c.len(x) + TotalLen(c, xs)
    ensures Printed(c, [x] + xs, r + f) <==> Printed(c, xs, r[c.len(x)..] + f)
  {
    hide PrintAll, TotalLen;
    PrintCons(c, x, xs);
    var n, t := c.len(x), TotalLen(c, xs);
    var s := r[n..] + f;
    assert r + f == r[..n] + s;
    if t <= |s| {
      assert (r[..n] + s)[..n + t] == r[..n] + s[..t];
      SameTail(r[..n], PrintAll(c, xs), s[..t]);
    }
  }

  /** Without anything behind it, a list stands if it is whole, or if its routes may be cut. */
  lemma {:induction false} NoGap(k: RouteKind, r: bytes)
    requires !k.AddPath?
    ensures Gap(k, r) == Some(0) <==> (k.Other? || AllFit(Routes(k), r))
    decreases |r|
  {
    hide EvpnOk, Octets;
    if |r| >= HeaderLen(k) {
      var n := Declared(k, r);
      if n <= |r| {
        NoGap(k, r[n..]);
      }
    }
  }

  // ---------- attribute payloads ----------

  /** The zero bytes that must follow an attribute's payload for its last route to be complete, as for routes. */
  function PayloadGap(kind: byte, d: bytes): Option<nat> {
    if FixedWidth(kind) > 0 then if |d| >= FixedWidth(kind) then Some(0) else None
    else if kind == 2 then if AllFit(Segments(AsWidth(d)), d) then Some(0) else None
    else if kind == 8 then if AllFit(Communities(), d) then Some(0) else None
    else if kind == 10 then if AllFit(Words(4), d) then Some(0) else None
    else if kind == 14 then ReachGap(d)
    else if kind == 15 then if |d| >= 3 then Gap(KindOfAfi(UnBE(d[..2])), d[3..]) else None
    else Some(0)
  }

  function ReachGap(d: bytes): Option<nat> {
    if |d| < 4 then None
    else
      var afi, n := UnBE(d[..2]), d[3] as int;
      if n % HopLen(afi) != 0 || 4 + n >= |d| then None
      else
        var d2 := d[4 + n..];
        if !TimesFit(Snpas(), d2[1..], d2[0] as int) then None
        else Gap(KindOfAfi(afi), d2[1..][Span(Snpas(), d2[1..], d2[0] as int)..])
  }

  ghost predicate PayloadStands(kind: byte, d: bytes, f: bytes) {
    var r := ParsePayload(kind, d);
    r.Ok? && PayloadLen(r.value) <= |d| + |f| && ShowPayload(r.value) == (d + f)[..PayloadLen(r.value)]
  }

  lemma KindsOfAfi(afi: nat)
    ensures !KindOfAfi(afi).AddPath?
  {
  }

  /** What stands in front of a list is the same on both sides. */
  lemma FrontSame(a: bytes, b: bytes, p: bytes, f: bytes, t: nat)
    requires t <= |b| + |f|
    ensures a + p == (a + b + f)[..|a| + t] <==> p == (b + f)[..t]
  {
    assert (a + b + f)[..|a| + t] == a + (b + f)[..t];
    SameTail(a, p, (b + f)[..t]);
  }

  lemma UnreachStands(d: bytes, f: bytes)
    ensures var gap := PayloadGap(15, d);
            && (PayloadStands(15, d, f) <==> gap.Some? && ZerosAt(f, gap.value))
            && (gap.Some? ==> ParseUnreach(d).Ok? && PayloadLen(ParseUnreach(d).value) == |d| + gap.value)
  {
    hide ParseAll, PrintAll, TotalLen, BE, UnBE, Gap, ZerosAt, Routes;
    if |d| >= 3 {
      var k := KindOfAfi(UnBE(d[..2]));
      KindsOfAfi(UnBE(d[..2]));
      RoutesStand(k, d[3..], f);
      var p := ParseAll(Routes(k), d[3..]);
      if p.Ok? {
        RoutesAlike(k, p.value);
        UnBERoundTrip(d[..2]);
        assert d[..3] == d[..2] + [d[2]] && d == d[..3] + d[3..];
        if TotalLen(Routes(k), p.value) <= |d[3..]| + |f| {
          FrontSame(d[..3], d[3..], PrintAll(Routes(k), p.value), f, TotalLen(Routes(k), p.value));
        }
      }
    }
    UnreachIsPayload(d);
  }

  lemma RoutesAlike(k: RouteKind, routes: seq<Route>)
    ensures PrintAll(Routes(PlainV4), routes) == PrintAll(Routes(k), routes)
    ensures TotalLen(Routes(PlainV4), routes) == TotalLen(Routes(k), routes)
  {
    SameShow(Routes(k), Routes(PlainV4), routes);
  }

  lemma UnreachIsPayload(d: bytes)
    ensures ParsePayload(15, d) == ParseUnreach(d) && ParsePayload(14, d) == ParseReach(d)
    ensures FixedWidth(15) == 0 && FixedWidth(14) == 0
  {
    hide ParseUnreach, ParseReach;
  }

  /** Hops taken of a next-hop field: whole ones, and as many as declared if and only if the length is divided. */
  lemma {:induction false} HopsTotal(d: bytes, n: nat, h: nat)
    requires 0 < h && |Hops(d, n, h).1| > 0
    ensures var (hops, left) := Hops(d, n, h);
            var m := |Flatten(hops)|;
            && n <= m < n + h && m < |d| && Flatten(hops) == d[..m] && left == d[m..] && (m == n <==> n % h == 0)
    decreases n
  {
    if n > 0 {
      var rest := Hops(From(d, h), n - h, h);
      assert Hops(d, n, h) == ([Slice(d, 0, h)] + rest.0, rest.1);
      if n <= h {
        assert rest == ([], From(d, h));
        assert [Slice(d, 0, h)] + [] == [Slice(d, 0, h)];
        OneHop(d, n, h);
      } else {
        HopsTotal(From(d, h), n - h, h);
        assert |From(d, h)| > 0;
        MoreHops(d, h, rest.0);
        Modulo(n, h);
      }
    }
  }

  lemma OneHop(d: bytes, n: nat, h: nat)
    requires 0 < n <= h && |From(d, h)| > 0
    ensures Flatten([Slice(d, 0, h)]) == d[..h] && h < |d| && From(d, h) == d[h..] && (h == n <==> n % h == 0)
  {
    assert Flatten([Slice(d, 0, h)]) == Slice(d, 0, h) + Flatten([]);
  }

  lemma MoreHops(d: bytes, h: nat, hops: seq<bytes>)
    requires 0 < h < |d| && |Flatten(hops)| < |d[h..]| && Flatten(hops) == d[h..][..|Flatten(hops)|]
    ensures var m := |Flatten(hops)|;
            Flatten([Slice(d, 0, h)] + hops) == d[..h + m] && d[h..][m..] == d[h + m..]
  {
    var m := |Flatten(hops)|;
    assert ([Slice(d, 0, h)] + hops)[1..] == hops;
    CutTwice(d, h, m);
  }

  lemma Modulo(n: nat, h: nat)
    requires 0 < h < n
    ensures (n - h) % h == 0 <==> n % h == 0
  {
    var q, r := (n - h) / h, (n - h) % h;
    assert n == h * (q + 1) + r;
    DivUnique(n, h, q + 1, r);
  }

  /** A next-hop length that the hop size does not divide is printed as another one. */
  lemma WrongHops(d: bytes, f: bytes)
    requires |d| >= 4 && (d[3] as int % HopLen(UnBE(d[..2])) != 0 || 4 + d[3] as int >= |d|)
    ensures !PayloadStands(14, d, f)
  {
    hide ParseTimes, ParseAll, PrintAll, TotalLen, UnBE, Hops, Routes, Snpas, HopLen;
    UnreachIsPayload(d);
    var afi, n := UnBE(d[..2]), d[3] as int;
    HopLens(afi);
    if |Hops(d[4..], n, HopLen(afi)).1| > 0 {
      HopsTotal(d[4..], n, HopLen(afi));
      var m := |Flatten(Hops(d[4..], n, HopLen(afi)).0)|;
      CountByte(m);
      var r := ParseReach(d);
      if r.Ok? && PayloadLen(r.value) <= |d| + |f| {
        assert ShowPayload(r.value)[3] == BE(m, 1)[0];
        assert PayloadLen(r.value) > 3 ==> (d + f)[..PayloadLen(r.value)][3] == d[3];
      }
    }
  }

  lemma HopLens(afi: nat)
    ensures HopLen(afi) == 4 || HopLen(afi) == 16
  {
  }

  lemma CountByte(m: nat)
    ensures |BE(m, 1)| == 1 && BE(m, 1)[0] as int == m % 256
  {
    assert BE(m, 1) == BE(m / 256, 0) + [(m % 256) as byte];
  }

  lemma SnpasParsed(data: bytes, n: nat)
    requires ParseTimes(Snpas(), data, n).Ok?
    ensures TimesFit(Snpas(), data, n)
  {
    TimesParsed(Snpas(), data, n);
  }

  lemma ReachStands(d: bytes, f: bytes)
    ensures var gap := PayloadGap(14, d);
            && (PayloadStands(14, d, f) <==> gap.Some? && ZerosAt(f, gap.value))
            && (gap.Some? ==> ParseReach(d).Ok? && PayloadLen(ParseReach(d).value) == |d| + gap.value)
  {
    hide ParseReach, PayloadStands, UnBE, Gap, ZerosAt, HopLen, TimesFit, Span;
    UnreachIsPayload(d);
    if |d| >= 4 {
      HopLens(UnBE(d[..2]));
      if d[3] as int % HopLen(UnBE(d[..2])) == 0 && 4 + d[3] as int < |d| {
        ReachBody(d, f);
      } else {
        WrongHops(d, f);
      }
    } else {
      ShortReach(d, f);
    }
  }

  lemma ShortReach(d: bytes, f: bytes)
    requires |d| < 4
    ensures !PayloadStands(14, d, f)
  {
    UnreachIsPayload(d);
  }

  /** The part of an MP_REACH_NLRI payload in front of its routes prints back to itself. */
  lemma ReachFront(d: bytes, n: nat, k: nat)
    requires |d| >= 4 && n == d[3] as int && n % HopLen(UnBE(d[..2])) == 0 && 4 + n < |d|
    requires var d2 := d[4 + n..]; TimesFit(Snpas(), d2[1..], d2[0] as int) && k == Span(Snpas(), d2[1..], d2[0] as int)
    ensures 5 + n + k <= |d|
    ensures var afi := UnBE(d[..2]);
            var p := ParseAll(Routes(KindOfAfi(afi)), d[5 + n + k..]);
            var r := ParseReach(d);
            && r.Ok? == p.Ok?
            && (r.Ok? ==>
                  && ShowPayload(r.value) == d[..5 + n + k] + PrintAll(Routes(PlainV4), p.value)
                  && PayloadLen(r.value) == 5 + n + k + TotalLen(Routes(PlainV4), p.value))
  {
    hide Hops, ParseTimes, ParseAll, PrintAll, TimesFit, AllFit, BE, UnBE, TotalLen, Flatten, Span;
    var afi := UnBE(d[..2]);
    HopsExact(d[4..], n, HopLen(afi));
    var d2 := d[4..][n..];
    assert d2 == d[4 + n..];
    var count := d2[0] as int;
    SnpasLawful();
    TimesExact(Snpas(), d2[1..], count);
    var rest := d2[1..][k..];
    assert rest == d[5 + n + k..];
    UnBERoundTrip(d[..2]);
    OneByte(d[3]);
    OneByte(d2[0]);
    ReachLayout(d, n, k);
    assert d == d[..5 + n + k] + rest;
    SameTailOf(d[..2] + [d[2]] + [d[3]] + d[4..][..n] + [d2[0]] + d2[1..][..k], d[..5 + n + k], rest);
  }

  lemma SameTailOf(a: bytes, b: bytes, rest: bytes)
    requires a + rest == b + rest
    ensures a == b
  {
    assert |a| == |b|;
    assert (a + rest)[..|a|] == a && (b + rest)[..|b|] == b;
  }

  lemma ReachBody(d: bytes, f: bytes)
    requires |d| >= 4 && d[3] as int % HopLen(UnBE(d[..2])) == 0 && 4 + d[3] as int < |d|
    ensures var gap := PayloadGap(14, d);
            && (PayloadStands(14, d, f) <==> gap.Some? && ZerosAt(f, gap.value))
            && (gap.Some? ==> ParseReach(d).Ok? && PayloadLen(ParseReach(d).value) == |d| + gap.value)
  {
    hide ParseReach, ParseAll, PrintAll, TotalLen, UnBE, Gap, ZerosAt, HopLen, TimesFit, Span, ShowPayload, PayloadLen,
      Routes;
    UnreachIsPayload(d);
    var n := d[3] as int;
    var d2 := d[4 + n..];
    var k := KindOfAfi(UnBE(d[..2]));
    if TimesFit(Snpas(), d2[1..], d2[0] as int) {
      var s := Span(Snpas(), d2[1..], d2[0] as int);
      ReachFront(d, n, s);
      var rest := d[5 + n + s..];
      assert d2[1..][s..] == rest;
      KindsOfAfi(UnBE(d[..2]));
      RoutesStand(k, rest, f);
      var p := ParseAll(Routes(k), rest);
      if p.Ok? {
        RoutesAlike(k, p.value);
        assert d == d[..5 + n + s] + rest;
        if TotalLen(Routes(k), p.value) <= |rest| + |f| {
          FrontSame(d[..5 + n + s], rest, PrintAll(Routes(k), p.value), f, TotalLen(Routes(k), p.value));
        }
      }
    } else {
      NoSnpas(d, n);
    }
  }

  lemma NoSnpas(d: bytes, n: nat)
    requires |d| >= 4 && n == d[3] as int && n % HopLen(UnBE(d[..2])) == 0 && 4 + n < |d|
    requires var d2 := d[4 + n..]; !TimesFit(Snpas(), d2[1..], d2[0] as int)
    ensures ParseReach(d).Err?
  {
    hide Hops, ParseTimes, ParseAll, TimesFit, UnBE, Flatten;
    var afi := UnBE(d[..2]);
    HopsExact(d[4..], n, HopLen(afi));
    var d2 := d[4..][n..];
    assert d2 == d[4 + n..];
    if ParseTimes(Snpas(), d2[1..], d2[0] as int).Ok? {
      SnpasParsed(d2[1..], d2[0] as int);
    }
  }

  // ---------- lists without a gap ----------

  /** Elements that never reach past the data report exactly its length. */
  lemma {:induction false} NoOverrun<T>(c: Codec<T>, d: bytes)
    requires forall x: bytes :: c.parse(x).Ok? ==> c.len(c.parse(x).value) <= |x|
    requires ParseAll(c, d).Ok?
    ensures TotalLen(c, ParseAll(c, d).value) == |d|
    decreases |d|
  {
    hide PrintAll, TotalLen;
    PrintNone(c);
    if |d| > 0 {
      var x := c.parse(d).value;
      NoOverrun(c, From(d, c.len(x)));
      PrintCons(c, x, ParseAll(c, From(d, c.len(x))).value);
    }
  }

  /** Such a list parses if and only if it is cut into whole elements. */
  lemma ListExact<T(!new)>(c: Codec<T>, d: bytes)
    requires LawfulAlone(c) && Tight(c) && forall x: bytes :: c.parse(x).Ok? ==> c.len(c.parse(x).value) <= |x|
    ensures var p := ParseAll(c, d);
            (p.Ok? <==> AllFit(c, d)) && (p.Ok? ==> PrintAll(c, p.value) == d && TotalLen(c, p.value) == |d|)
  {
    if ParseAll(c, d).Ok? {
      NoOverrun(c, d);
    }
    FitsExact(c, d);
    if AllFit(c, d) {
      AllExact(c, d);
    }
  }

  lemma {:induction false} WordsParsed(k: nat, x: bytes, n: nat)
    requires ParseTimes(Words(k), x, n).Ok?
    ensures |ParseTimes(Words(k), x, n).value.0| == n && k * n <= |x|
    decreases n
  {
    hide UnBE;
    if n > 0 {
      assert |x| >= k && From(x, k) == x[k..];
      WordsParsed(k, x[k..], n - 1);
      assert k * n == k + k * (n - 1);
    }
  }

  lemma SegmentsTight(width: nat)
    requires width == 2 || width == 4
    ensures Tight(Segments(width))
    ensures forall x: bytes :: ParseSegment(width, x).Ok? ==> SegmentLen(ParseSegment(width, x).value) <= |x|
  {
    hide ParseTimes, UnBE, PathCount;
    forall x: bytes | ParseSegment(width, x).Ok?
      ensures SegmentLen(ParseSegment(width, x).value) == SegmentSize(width, x) <= |x|
    {
      WordsParsed(width, x[2..], PathCount(width, x[1] as int, |x| - 2));
    }
  }

  lemma FourTight()
    ensures Tight(Communities()) && Tight(Words(4))
  {
    hide UnBE;
  }

  lemma AsPathStands(d: bytes)
    ensures var p := ParseAll(Segments(AsWidth(d)), d);
            && (p.Ok? <==> AllFit(Segments(AsWidth(d)), d))
            && (p.Ok? ==> PrintAll(Segments(2), p.value) == d && TotalLen(Segments(2), p.value) == |d|)
  {
    var w := AsWidth(d);
    SegmentsTight(w);
    SegmentsLawful(w);
    hide ParseSegment, SegmentSize, ShowSegment, SegmentLen, LawfulAlone, Tight;
    ListExact(Segments(w), d);
    if ParseAll(Segments(w), d).Ok? {
      SameShow(Segments(w), Segments(2), ParseAll(Segments(w), d).value);
    }
  }

  lemma CommunitiesStand(d: bytes)
    ensures var p := ParseAll(Communities(), d);
            && (p.Ok? <==> AllFit(Communities(), d))
            && (p.Ok? ==> PrintAll(Communities(), p.value) == d && TotalLen(Communities(), p.value) == |d|)
  {
    CommunitiesLawful();
    FourTight();
    ListExact(Communities(), d);
  }

  lemma ClustersStand(d: bytes)
    ensures var p := ParseAll(Words(4), d);
            && (p.Ok? <==> AllFit(Words(4), d))
            && (p.Ok? ==> PrintAll(Words(4), p.value) == d && 4 * |p.value| == |d|)
  {
    WordsLawful(4);
    FourTight();
    ListExact(Words(4), d);
    if ParseAll(Words(4), d).Ok? {
      WordsTotal(4, ParseAll(Words(4), d).value);
    }
  }

  // ---------- payloads and attributes ----------

  /** A payload stands in front of f if and only if f fills its gap with zeros. */
  lemma PayloadSharp(kind: byte, d: bytes, f: bytes)
    requires kind != 6
    ensures var gap := PayloadGap(kind, d);
            && (PayloadStands(kind, d, f) <==> gap.Some? && ZerosAt(f, gap.value))
            && (gap.Some? ==> ParsePayload(kind, d).Ok? && PayloadLen(ParsePayload(kind, d).value) == |d| + gap.value)
  {
    if kind == 14 {
      ReachStands(d, f);
      UnreachIsPayload(d);
    } else if kind == 15 {
      UnreachStands(d, f);
      UnreachIsPayload(d);
    } else {
      SimplePayload(kind, d);
      hide ParsePayload, ShowPayload, PayloadLen, PayloadGap;
      assert (d + f)[..|d|] == d;
    }
  }

  /** The other payloads have no gap: if they parse at all they print and count what is there. */
  lemma SimplePayload(kind: byte, d: bytes)
    requires kind != 6 && kind != 14 && kind != 15
    ensures var r := ParsePayload(kind, d);
            && (PayloadGap(kind, d) == if r.Ok? then Some(0) else None)
            && (r.Ok? ==> ShowPayload(r.value) == d && PayloadLen(r.value) == |d|)
  {
    hide ParseAll, PrintAll, TotalLen, AllFit, BE, UnBE;
    var k := FixedWidth(kind);
    if k > 0 {
      if k <= |d| {
        UnBERoundTrip(d[..k]);
        assert d == d[..k] + d[k..];
      }
    } else if kind == 2 {
      AsPathStands(d);
    } else if kind == 8 {
      CommunitiesStand(d);
    } else if kind == 10 {
      ClustersStand(d);
    }
  }

  /** On its own a payload is reproduced if and only if it has no gap, or is an empty ATOMIC_AGGREGATE. */
  lemma PayloadReproduced(kind: byte, d: bytes)
    ensures var r := ParsePayload(kind, d);
            (r.Ok? && ShowPayload(r.value) == d && PayloadLen(r.value) == |d|) <==>
            (if kind == 6 then d == [] else PayloadGap(kind, d) == Some(0))
  {
    hide ParsePayload, ShowPayload, PayloadLen, PayloadGap;
    if kind == 6 {
      AtomicPayload(d);
    } else {
      PayloadSharp(kind, d, []);
      assert d + [] == d && d[..|d|] == d;
    }
  }

  lemma AtomicPayload(d: bytes)
    ensures ParsePayload(6, d) == Ok(Atomic) && ShowPayload(Atomic) == [] && PayloadLen(Atomic) == 0
  {
  }

  /** An MP_UNREACH_NLRI payload is reproduced if and only if its routes are whole, or of a kind that may be cut. */
  lemma UnreachReproduced(d: bytes)
    requires |d| >= 3
    ensures var r := ParseUnreach(d);
            var k := KindOfAfi(UnBE(d[..2]));
            (r.Ok? && ShowPayload(r.value) == d && PayloadLen(r.value) == |d|) <==>
            (k.Other? || AllFit(Routes(k), d[3..]))
  {
    hide ParsePayload, ParseUnreach, ShowPayload, PayloadLen, AllFit, Gap, Routes;
    PayloadReproduced(15, d);
    UnreachIsPayload(d);
    KindsOfAfi(UnBE(d[..2]));
    NoGap(KindOfAfi(UnBE(d[..2])), d[3..]);
  }

  /**
   The next hops end on their declared length, the attachment points are there, if need be with the last one cut, and
   the routes are whole, or of a kind that may be cut.
   */
  predicate ReachWhole(d: bytes)
    requires |d| >= 4
  {
    var afi, n := UnBE(d[..2]), d[3] as int;
    n % HopLen(afi) == 0 && 4 + n < |d| &&
    var d2 := d[4 + n..];
    TimesFit(Snpas(), d2[1..], d2[0] as int) &&
    var routes := d2[1..][Span(Snpas(), d2[1..], d2[0] as int)..];
    KindOfAfi(afi).Other? || AllFit(Routes(KindOfAfi(afi)), routes)
  }

  lemma ReachGapIs(d: bytes)
    requires |d| >= 4
    ensures ReachGap(d) == Some(0) <==> ReachWhole(d)
  {
    hide AllFit, Gap, Routes, TimesFit, Span, UnBE;
    var afi, n := UnBE(d[..2]), d[3] as int;
    KindsOfAfi(afi);
    if n % HopLen(afi) == 0 && 4 + n < |d| && TimesFit(Snpas(), d[4 + n..][1..], d[4 + n..][0] as int) {
      NoGap(KindOfAfi(afi), d[4 + n..][1..][Span(Snpas(), d[4 + n..][1..], d[4 + n..][0] as int)..]);
    }
  }

  /** An MP_REACH_NLRI payload is reproduced if and only if it is whole in that sense. */
  lemma ReachReproduced(d: bytes)
    requires |d| >= 4
    ensures var r := ParseReach(d);
            (r.Ok? && ShowPayload(r.value) == d && PayloadLen(r.value) == |d|) <==> ReachWhole(d)
  {
    hide ParsePayload, ParseReach, ShowPayload, PayloadLen, ReachGap, ReachWhole;
    PayloadReproduced(14, d);
    UnreachIsPayload(d);
    ReachGapIs(d);
  }

  /**
   The bytes an attribute takes where it is reproduced, and zero where it is not. Its declared length may reach past
   the end of the message, zeros may have to follow, and an ATOMIC_AGGREGATE never takes a payload.
   */
  function AttributeExtent(x: bytes): nat {
    if |x| < 2 || |x| < 2 + LengthBytes(x[0]) then 0
    else
      var h := 2 + LengthBytes(x[0]);
      var d := Slice(x, h, h + UnBE(x[2..h]));
      if x[1] == 6 then h
      else
        var gap := PayloadGap(x[1], d);
        if gap.Some? && ZerosAt(From(x, h + |d|), gap.value) then h + |d| + gap.value else 0
  }

  function Standing(): Codec<Attribute> {
    Codec(ParseAttribute, ShowAttribute, AttributeLen, AttributeExtent)
  }

  lemma AttributeSharp(x: bytes)
    ensures Stands(Standing(), x) <==> Fits(Standing(), x)
    ensures Stands(Standing(), x) ==> AttributeLen(ParseAttribute(x).value) == AttributeExtent(x)
  {
    hide ParseAttribute, ShowAttribute, AttributeLen, ParsePayload, ShowPayload, PayloadLen, PayloadGap, PayloadStands,
      Stands, ZerosAt, Slice, From, UnBE, LengthBytes;
    if |x| >= 2 && |x| >= 2 + LengthBytes(x[0]) {
      var h := 2 + LengthBytes(x[0]);
      var len := UnBE(x[2..h]);
      var d := Slice(x, h, h + len);
      var f := From(x, h + |d|);
      AttributeParts(x, h, len, d, f);
      if x[1] == 6 {
        AtomicStands(d, f);
      } else {
        PayloadSharp(x[1], d, f);
        ZerosFit(f);
      }
    } else {
      NoAttribute(x);
    }
  }

  lemma NoAttribute(x: bytes)
    requires |x| < 2 || |x| < 2 + LengthBytes(x[0])
    ensures !Stands(Standing(), x)
  {
    hide LengthBytes;
  }

  lemma AtomicStands(d: bytes, f: bytes)
    ensures PayloadStands(6, d, f) && ParsePayload(6, d).Ok? && PayloadLen(ParsePayload(6, d).value) == 0
  {
    AtomicPayload(d);
    hide ParsePayload, ShowPayload, PayloadLen;
    assert (d + f)[..0] == [];
  }

  lemma ZerosFit(f: bytes)
    ensures forall z: nat :: ZerosAt(f, z) ==> z <= |f|
  {
  }

  /** Header, payload and what follows, and when the attribute stands in terms of its payload. */
  lemma AttributeParts(x: bytes, h: nat, len: nat, d: bytes, f: bytes)
    requires |x| >= 2 && h == 2 + LengthBytes(x[0]) <= |x| && len == UnBE(x[2..h])
    requires d == Slice(x, h, h + len) && f == From(x, h + |d|)
    ensures |x| == h + |d| + |f| && ParseAttribute(x).Ok? == ParsePayload(x[1], d).Ok?
    ensures ParseAttribute(x).Ok? ==>
              AttributeLen(ParseAttribute(x).value) == h + PayloadLen(ParsePayload(x[1], d).value)
    ensures Stands(Standing(), x) <==> PayloadStands(x[1], d, f)
    ensures Stands(Standing(), x) ==> ParseAttribute(x).Ok?
  {
    hide ParsePayload, ShowPayload, PayloadLen, BE, UnBE, LengthBytes;
    assert d == x[h..h + |d|] && f == x[h + |d|..];
    assert x == x[..h] + d + f;
    UnBERoundTrip(x[2..h]);
    assert x[..h] == [x[0], x[1]] + x[2..h];
    if ParsePayload(x[1], d).Ok? {
      var p := ParsePayload(x[1], d).value;
      var a := Attribute(x[0], x[1], len, p);
      assert ParseAttribute(x) == Ok(a);
      assert ShowAttribute(a) == x[..h] + ShowPayload(p);
      if PayloadLen(p) <= |d| + |f| {
        FrontSame(x[..h], d, ShowPayload(p), f, PayloadLen(p));
      }
    }
  }

  /**
   An attribute with nothing behind its declared payload is reproduced if and only if its payload is: it may itself be
   cut short by the end of the message.
   */
  lemma AttributeReproduced(x: bytes)
    requires |x| >= 2 && 2 + LengthBytes(x[0]) <= |x|
    requires var h := 2 + LengthBytes(x[0]); |x| <= h + UnBE(x[2..h])
    ensures var r := ParseAttribute(x);
            var d := x[2 + LengthBytes(x[0])..];
            (r.Ok? && ShowAttribute(r.value) == x && AttributeLen(r.value) == |x|) <==>
            (if x[1] == 6 then d == [] else PayloadGap(x[1], d) == Some(0))
  {
    var h := 2 + LengthBytes(x[0]);
    var len := UnBE(x[2..h]);
    var d := x[h..];
    assert Slice(x, h, h + len) == d && From(x, h + |d|) == [];
    AttributeParts(x, h, len, d, []);
    PayloadReproduced(x[1], d);
    hide ParseAttribute, ShowAttribute, AttributeLen, ParsePayload, ShowPayload, PayloadLen, PayloadGap;
    assert x[..|x|] == x && d + [] == d && d[..|d|] == d;
  }

  // ---------- what is printed is bounded by what is counted ----------

  lemma RoutesBounded(k: RouteKind)
    ensures Bounded(Routes(k))
  {
    hide EvpnOk, BE, UnBE;
  }

  lemma {:induction false} SnpasBound(xs: seq<Snpa>)
    ensures |PrintAll(Snpas(), xs)| == TotalLen(Snpas(), xs)
  {
    if |xs| > 0 {
      SnpasBound(xs[1..]);
    }
  }

  lemma RouteListBound(k: RouteKind, d: bytes)
    requires ParseAll(Routes(k), d).Ok?
    ensures var rs := ParseAll(Routes(k), d).value; |PrintAll(Routes(PlainV4), rs)| <= TotalLen(Routes(PlainV4), rs)
  {
    RoutesBounded(k);
    hide Routes;
    AllBound(Routes(k), d);
    RoutesAlike(k, ParseAll(Routes(k), d).value);
  }

  lemma PayloadBound(kind: byte, d: bytes)
    requires ParsePayload(kind, d).Ok?
    ensures |ShowPayload(ParsePayload(kind, d).value)| <= PayloadLen(ParsePayload(kind, d).value)
  {
    UnreachIsPayload(d);
    if kind == 14 {
      ReachBound(d);
    } else if kind == 15 {
      hide ParseAll, PrintAll, TotalLen, BE, UnBE, Routes;
      RouteListBound(KindOfAfi(UnBE(d[..2])), d[3..]);
    } else if kind == 6 {
      AtomicPayload(d);
    } else {
      SimplePayload(kind, d);
    }
  }

  lemma ReachBound(d: bytes)
    requires ParseReach(d).Ok?
    ensures |ShowPayload(ParseReach(d).value)| <= PayloadLen(ParseReach(d).value)
  {
    hide Hops, ParseTimes, ParseAll, PrintAll, TotalLen, BE, UnBE, Routes, Snpas, Flatten;
    var afi := UnBE(d[..2]);
    var d2 := Hops(d[4..], d[3] as int, HopLen(afi)).1;
    var s := ParseTimes(Snpas(), d2[1..], d2[0] as int).value;
    SnpasBound(s.0);
    RouteListBound(KindOfAfi(afi), s.1);
  }

  lemma StandingBounded()
    ensures Bounded(Standing())
  {
    hide ParsePayload, ShowPayload, PayloadLen, BE, UnBE;
    forall x: bytes | ParseAttribute(x).Ok?
      ensures |ShowAttribute(ParseAttribute(x).value)| <= AttributeLen(ParseAttribute(x).value)
    {
      var h := 2 + LengthBytes(x[0]);
      PayloadBound(x[1], Slice(x, h, h + UnBE(x[2..h])));
    }
  }

  lemma StandingSharp()
    ensures Sharp(Standing())
  {
    hide AttributeExtent, ParseAttribute, ShowAttribute, AttributeLen;
    forall x: bytes
      ensures Stands(Standing(), x) <==> Fits(Standing(), x)
      ensures Stands(Standing(), x) ==> AttributeLen(ParseAttribute(x).value) == AttributeExtent(x)
    {
      AttributeSharp(x);
    }
  }

  lemma PlainSharp()
    ensures Sharp(Routes(PlainV4))
  {
    hide ParseRoute, ShowRoute, RouteLen, RouteSize;
    forall x: bytes
      ensures Stands(Routes(PlainV4), x) <==> Fits(Routes(PlainV4), x)
      ensures Stands(Routes(PlainV4), x) ==> RouteLen(ParseRoute(PlainV4, x).value) == RouteSize(PlainV4, x)
    {
      PlainRouteSharp(x);
    }
  }

  lemma PlainRouteSharp(x: bytes)
    ensures Stands(Routes(PlainV4), x) <==> Fits(Routes(PlainV4), x)
    ensures Stands(Routes(PlainV4), x) ==> RouteLen(ParseRoute(PlainV4, x).value) == RouteSize(PlainV4, x)
  {
    if |x| > 0 {
      if RouteSize(PlainV4, x) > 0 {
        RouteExact(PlainV4, x, []);
        assert x + [] == x;
      }
    }
  }

  // ---------- the UPDATE body ----------

  /**
   The withdrawn routes are whole and end on their declared length; the attributes stand, each where the one before
   ended, and end on theirs; the announced routes are whole as the Add-Path guess cuts them.
   */
  predicate Sound(buf: bytes) {
    |buf| >= 2 &&
    var n := UnBE(buf[..2]);
    2 + n <= |buf| && CountFits(Routes(PlainV4), buf[2..], n) &&
    var d1 := buf[2 + n..];
    |d1| >= 2 &&
    var m := UnBE(d1[..2]);
    2 + m <= |d1| && CountFits(Standing(), d1[2..], m) && AllFit(Announced(), d1[2 + m..])
  }

  /** The length field of a section, the section, and what follows. */
  ghost predicate SectionIs<T>(c: Codec<T>, d: bytes, n: nat, r: Result<(seq<T>, bytes)>) {
    && r.Ok? && 2 + n <= |d|
    && TotalLen(c, r.value.0) == n && PrintAll(c, r.value.0) == d[2..2 + n] && r.value.1 == d[2 + n..]
  }

  lemma SectionSharp<T(!new)>(c: Codec<T>, d: bytes, n: nat)
    requires Sharp(c) && Bounded(c) && |d| >= 2
    ensures var r := ParseCounted(c, d[2..], n);
            (2 + n <= |d| && CountFits(c, d[2..], n) <==> SectionIs(c, d, n, r)) &&
            (r.Ok? && 2 + n <= |d| && TotalLen(c, r.value.0) == n && PrintAll(c, r.value.0) == d[2..2 + n] ==>
               SectionIs(c, d, n, r))
  {
    hide ParseCounted, CountFits, PrintAll, TotalLen, Sharp, Bounded;
    CountedSharp(c, d[2..], n);
    if 2 + n <= |d| {
      assert d[2..][..n] == d[2..2 + n] && d[2..][n..] == d[2 + n..];
    }
  }

  /** Attributes are parsed, printed and counted the same by either codec. */
  lemma {:induction false} SameParse<T>(a: Codec<T>, b: Codec<T>, data: bytes, n: int)
    requires a.parse == b.parse && a.len == b.len
    ensures ParseCounted(a, data, n) == ParseCounted(b, data, n)
    decreases if n < 0 then 0 else n
  {
    if n > 0 {
      var x := a.parse(data);
      if x.Ok? && a.len(x.value) > 0 {
        SameParse(a, b, From(data, a.len(x.value)), n - a.len(x.value));
      }
    }
  }

  /** The parse and the printed parts, with the attributes read by the standing codec. */
  lemma UnpackParts(buf: bytes)
    requires |buf| >= 2
    ensures var first := ParseCounted(Routes(PlainV4), buf[2..], UnBE(buf[..2]));
            if first.Err? || |first.value.1| < 2 then Unpack(buf).Err?
            else
              var d1 := first.value.1;
              var second := ParseCounted(Standing(), d1[2..], UnBE(d1[..2]));
              if second.Err? then Unpack(buf).Err?
              else
                var third := ParseAll(Announced(), second.value.1);
                if third.Err? then Unpack(buf).Err?
                else Unpack(buf) == Ok(Update(first.value.0, second.value.0, third.value))
  {
    hide ParseCounted, ParseAll, UnBE, Routes, Announced;
    var first := ParseCounted(Routes(PlainV4), buf[2..], UnBE(buf[..2]));
    if first.Ok? && |first.value.1| >= 2 {
      SameParse(Attributes(), Standing(), first.value.1[2..], UnBE(first.value.1[..2]));
    }
  }

  lemma PrintedParts(u: Update)
    ensures UpdateLen(u) == 4 + TotalLen(Routes(PlainV4), u.withdrawn) + TotalLen(Standing(), u.attributes)
                            + TotalLen(Announced(), u.announced)
    ensures var n, m := TotalLen(Routes(PlainV4), u.withdrawn), TotalLen(Standing(), u.attributes);
            ToBytes(u) ==
            if n >= 0x1_0000 || m >= 0x1_0000 then Err(PackError)
            else Ok(BE(n, 2) + PrintAll(Routes(PlainV4), u.withdrawn) + BE(m, 2) + PrintAll(Standing(), u.attributes)
                    + PrintAll(Announced(), u.announced))
  {
    hide PrintAll, TotalLen, BE;
    SameShow(Attributes(), Standing(), u.attributes);
  }

  /** A sound body is reproduced. */
  lemma SoundIsReproduced(buf: bytes)
    requires Sound(buf)
    ensures Reproduced(buf)
  {
    hide ParseCounted, ParseAll, PrintAll, TotalLen, AllFit, CountFits, BE, UnBE, Routes, Standing, Announced, Unpack,
      ToBytes, UpdateLen, Sharp, Bounded, LawfulAlone, Tight;
    PlainSharp();
    RoutesBounded(PlainV4);
    StandingSharp();
    StandingBounded();
    AnnouncedLawful();
    AnnouncedTight();
    var n := UnBE(buf[..2]);
    SectionSharp(Routes(PlainV4), buf, n);
    var d1 := buf[2 + n..];
    var m := UnBE(d1[..2]);
    SectionSharp(Standing(), d1, m);
    var d2 := d1[2 + m..];
    AllExact(Announced(), d2);
    UnpackParts(buf);
    var u := Unpack(buf).value;
    PrintedParts(u);
    UnBERoundTrip(buf[..2]);
    UnBERoundTrip(d1[..2]);
    Widths();
    FourPieces(buf, n, m);
  }

  lemma FourPieces(buf: bytes, n: nat, m: nat)
    requires 4 + n + m <= |buf|
    ensures var d1 := buf[2 + n..];
            buf == buf[..2] + buf[2..2 + n] + d1[..2] + d1[2..2 + m] + d1[2 + m..]
  {
    var d1 := buf[2 + n..];
    assert d1 == d1[..2] + d1[2..2 + m] + d1[2 + m..];
    assert buf == buf[..2] + buf[2..2 + n] + d1;
  }

  lemma AnnouncedBounded()
    ensures Bounded(Announced())
  {
    hide EvpnOk, BE, UnBE;
  }

  lemma PiecesMatch(buf: bytes, x: bytes, w: bytes, y: bytes, p: bytes, a: bytes)
    requires buf == x + w + y + p + a && |x| == |y| == 2
    ensures buf[..2] == x && buf[2..2 + |w|] == w
    ensures var d1 := buf[2 + |w|..]; d1[..2] == y && d1[2..2 + |p|] == p && d1[2 + |p|..] == a
  {
    var d1 := buf[2 + |w|..];
    assert buf == x + w + (y + p + a);
    assert d1 == y + p + a;
  }

  /** A body that is reproduced is sound. */
  lemma ReproducedIsSound(buf: bytes)
    requires Reproduced(buf)
    ensures Sound(buf)
  {
    hide ParseCounted, ParseAll, PrintAll, TotalLen, AllFit, CountFits, BE, UnBE, Routes, Standing, Announced, ToBytes,
      UpdateLen, Sharp, Bounded, LawfulAlone, Tight;
    PlainSharp();
    RoutesBounded(PlainV4);
    StandingSharp();
    StandingBounded();
    AnnouncedLawful();
    AnnouncedTight();
    AnnouncedBounded();
    TooShort(buf);
    UnpackParts(buf);
    hide Unpack;
    var u := Unpack(buf).value;
    PrintedParts(u);
    Widths();
    var first := ParseCounted(Routes(PlainV4), buf[2..], UnBE(buf[..2])).value;
    var second := ParseCounted(Standing(), first.1[2..], UnBE(first.1[..2])).value;
    CountedBound(Routes(PlainV4), buf[2..], UnBE(buf[..2]));
    CountedBound(Standing(), first.1[2..], UnBE(first.1[..2]));
    AllBound(Announced(), second.1);
    var n, m := TotalLen(Routes(PlainV4), u.withdrawn), TotalLen(Standing(), u.attributes);
    var w, p, a := PrintAll(Routes(PlainV4), u.withdrawn), PrintAll(Standing(), u.attributes),
      PrintAll(Announced(), u.announced);
    assert |w| == n && |p| == m && |a| == TotalLen(Announced(), u.announced);
    PiecesMatch(buf, BE(n, 2), w, BE(m, 2), p, a);
    BERoundTrip(n, 2);
    BERoundTrip(m, 2);
    SectionSharp(Routes(PlainV4), buf, n);
    var d1 := buf[2 + n..];
    assert first.1 == d1;
    SectionSharp(Standing(), d1, m);
    FitsExact(Announced(), d1[2 + m..]);
  }

  lemma TooShort(buf: bytes)
    ensures Unpack(buf).Ok? ==> |buf| >= 2
  {
  }

  /**
   For every byte string: it is unpacked, printed back to itself and counted with its length if and only if it is a
   sound UPDATE body.
   */
  lemma UpdateRoundTrip(buf: bytes)
    ensures Reproduced(buf) <==> Sound(buf)
  {
    if Reproduced(buf) {
      ReproducedIsSound(buf);
    }
    if Sound(buf) {
      SoundIsReproduced(buf);
    }
  }

  /** Sections that are whole on their own are sound wherever they stand. */
  lemma WholeSections(w: bytes, p: bytes, a: bytes)
    requires |w| < 0x1_0000 && |p| < 0x1_0000
    requires AllFit(Routes(PlainV4), w) && AllFit(Attributes(), p)
    ensures Sound(Body(w, p, a)) <==> AllFit(Announced(), a)
  {
    hide AllFit, CountFits, BE, UnBE, Routes, Attributes, Standing, Announced, Sharp, Lawful;
    RoutesLawful(PlainV4);
    PlainSharp();
    AttributesLawful();
    StandingSharp();
    BodyHead(w, p, a);
    BodyMiddle(p, a);
    SameAttributes();
    var d1 := BE(|p|, 2) + p + a;
    WholeCounts(Routes(PlainV4), Routes(PlainV4), w, d1);
    WholeCounts(Attributes(), Standing(), p, a);
    var buf := Body(w, p, a);
    assert buf[2 + |w|..] == buf[2..][|w|..] == d1;
    assert d1[2 + |p|..] == d1[2..][|p|..] == a;
  }

  lemma SameAttributes()
    ensures Attributes().parse == Standing().parse && Attributes().show == Standing().show
    ensures Attributes().len == Standing().len
  {
  }

  const ZERO_FILLED: bytes := [0x80, 15, 5, 0, 1, 1, 16, 7]

  /** An attribute with a route cut by one byte stands in front of a zero, and of nothing else. */
  lemma ZeroFills(f: bytes)
    ensures Stands(Standing(), ZERO_FILLED + f) <==> |f| > 0 && f[0] == 0
  {
    var x := ZERO_FILLED + f;
    AttributeSharp(x);
    ZeroGap(x, f);
    hide Stands;
  }

  lemma ZeroGap(x: bytes, f: bytes)
    requires x == ZERO_FILLED + f
    ensures AttributeExtent(x) == if |f| > 0 && f[0] == 0 then 9 else 0
  {
    var d: bytes := [0, 1, 1, 16, 7];
    var r: bytes := [16, 7];
    hide UnBE, Octets;
    SmallFields();
    assert x[2..3] == [5] && Slice(x, 3, 8) == d && From(x, 8) == f && d[..2] == [0, 1] && d[3..] == r;
    assert Gap(PlainV4, r) == Some(1);
    NotFixed();
    assert PayloadGap(15, d) == Some(1);
  }

  lemma SmallFields()
    ensures UnBE([5]) == 5 && UnBE([0, 1]) == 1 && Octets(16) == 2 && LengthBytes(0x80) == 1
  {
    assert UnBE([]) == 0 && UnBE([0]) == 0;
  }
}
