/**
 Lists of length-delimited elements: parsed one after the other until the data, a declared byte count or a
 declared element count is used up, and printed by joining the elements.
 */
module Sections {
  import opened Bytes

  /**
   A packet class: its unpack, bytes() and len(). `size` is how many bytes at the front of a buffer one element
   occupies, and zero where no whole element stands.
   */
  datatype Codec<!T> = Codec(parse: bytes -> Result<T>, show: T -> bytes, len: T -> nat, size: bytes -> nat)

  predicate Fits<T>(c: Codec<T>, x: bytes) { 0 < c.size(x) <= |x| }

  /** The element in front of x is parsed alike whatever follows, prints to its own bytes and reports their number. */
  ghost predicate Exact<T>(c: Codec<T>, x: bytes, rest: bytes) {
    var r := c.parse(x + rest);
    r.Ok? && c.show(r.value) == x[..Min(c.size(x), |x|)] && c.len(r.value) == c.size(x)
  }

  ghost predicate Lawful<T(!new)>(c: Codec<T>) {
    forall x: bytes, rest: bytes {:trigger Exact(c, x, rest)} :: Fits(c, x) ==> Exact(c, x, rest)
  }

  /** The same where the element may look at everything that is left of its section. */
  ghost predicate LawfulAlone<T(!new)>(c: Codec<T>) {
    forall x: bytes {:trigger Fits(c, x)} :: Fits(c, x) ==> Exact(c, x, [])
  }

  lemma LawfulImpliesAlone<T(!new)>(c: Codec<T>)
    requires Lawful(c)
    ensures LawfulAlone(c)
  {
    forall x: bytes | Fits(c, x) ensures Exact(c, x, []) {
    }
  }

  function PrintAll<T>(c: Codec<T>, xs: seq<T>): bytes {
    if |xs| == 0 then [] else c.show(xs[0]) + PrintAll(c, xs[1..])
  }

  function TotalLen<T>(c: Codec<T>, xs: seq<T>): nat {
    if |xs| == 0 then 0 else c.len(xs[0]) + TotalLen(c, xs[1..])
  }

  /** `while data:` -- an element of length zero, which no class here has, would never end. */
  function ParseAll<T>(c: Codec<T>, data: bytes): Result<seq<T>>
    decreases |data|
  {
    if |data| == 0 then Ok([])
    else
      var x :- c.parse(data);
      if c.len(x) == 0 then Err(UnpackError)
      else
        var rest :- ParseAll(c, From(data, c.len(x)));
        Ok([x] + rest)
  }

  /** `while n > 0:` -- elements may reach past the declared byte count. */
  function ParseCounted<T>(c: Codec<T>, data: bytes, n: int): Result<(seq<T>, bytes)>
    decreases if n < 0 then 0 else n
  {
    if n <= 0 then Ok(([], data))
    else
      var x :- c.parse(data);
      if c.len(x) == 0 then Err(UnpackError)
      else
        var (rest, left) :- ParseCounted(c, From(data, c.len(x)), n - c.len(x));
        Ok(([x] + rest, left))
  }

  /** `for i in range(n):`. */
  function ParseTimes<T>(c: Codec<T>, data: bytes, n: nat): Result<(seq<T>, bytes)>
    decreases n
  {
    if n == 0 then Ok(([], data))
    else
      var x :- c.parse(data);
      var (rest, left) :- ParseTimes(c, From(data, c.len(x)), n - 1);
      Ok(([x] + rest, left))
  }

  /** The data is cut into whole elements without remainder. */
  predicate AllFit<T>(c: Codec<T>, data: bytes)
    decreases |data|
  {
    |data| == 0 || (Fits(c, data) && AllFit(c, data[c.size(data)..]))
  }

  /** At least n whole elements stand at the front. */
  predicate TimesFit<T>(c: Codec<T>, data: bytes, n: nat)
    decreases n
  {
    n == 0 || (Fits(c, data) && TimesFit(c, data[c.size(data)..], n - 1))
  }

  /** The bytes that n elements take. */
  function Span<T>(c: Codec<T>, data: bytes, n: nat): (k: nat)
    requires TimesFit(c, data, n)
    ensures k <= |data|
    decreases n
  {
    if n == 0 then 0 else c.size(data) + Span(c, data[c.size(data)..], n - 1)
  }

  lemma Cut(data: bytes, rest: bytes, k: nat)
    requires k <= |data|
    ensures From(data + rest, k) == data[k..] + rest && data[..k] + data[k..] == data
  {
  }

  /** Data that is cut into whole elements prints back to itself. */
  lemma {:induction false} AllExact<T(!new)>(c: Codec<T>, data: bytes)
    requires LawfulAlone(c) && AllFit(c, data)
    ensures var r := ParseAll(c, data);
            r.Ok? && PrintAll(c, r.value) == data && TotalLen(c, r.value) == |data|
    decreases |data|
  {
    if |data| > 0 {
      var none: bytes := [];
      assert Fits(c, data) && Exact(c, data, none);
      assert data + none == data;
      Cut(data, none, c.size(data));
      AllExact(c, data[c.size(data)..]);
      assert data[c.size(data)..] + none == data[c.size(data)..];
      var x, rest := c.parse(data).value, ParseAll(c, data[c.size(data)..]).value;
      assert ([x] + rest)[1..] == rest;
    }
  }

  /** An element that parses and does not reach past the data is a whole element of the size it reports. */
  ghost predicate Tight<T(!new)>(c: Codec<T>) {
    forall x: bytes {:trigger c.parse(x)} ::
      c.parse(x).Ok? && 0 < c.len(c.parse(x).value) <= |x| ==> c.size(x) == c.len(c.parse(x).value)
  }

  /** What the elements report is never less than the data they were cut from. */
  lemma {:induction false} TotalCovers<T>(c: Codec<T>, data: bytes)
    requires ParseAll(c, data).Ok?
    ensures TotalLen(c, ParseAll(c, data).value) >= |data|
    decreases |data|
  {
    hide PrintAll, TotalLen;
    PrintNone(c);
    if |data| > 0 {
      var x := c.parse(data).value;
      var rest := ParseAll(c, From(data, c.len(x))).value;
      TotalCovers(c, From(data, c.len(x)));
      PrintCons(c, x, rest);
    }
  }

  /** The elements report exactly the length of the data if and only if it is cut into whole elements. */
  lemma {:induction false} FitsExact<T(!new)>(c: Codec<T>, data: bytes)
    requires LawfulAlone(c) && Tight(c)
    ensures ParseAll(c, data).Ok? && TotalLen(c, ParseAll(c, data).value) == |data| <==> AllFit(c, data)
    decreases |data|
  {
    if AllFit(c, data) {
      AllExact(c, data);
    } else if ParseAll(c, data).Ok? && TotalLen(c, ParseAll(c, data).value) == |data| {
      hide LawfulAlone, PrintAll, TotalLen;
      var x := c.parse(data).value;
      var left := From(data, c.len(x));
      PrintCons(c, x, ParseAll(c, left).value);
      TotalCovers(c, left);
      assert c.len(x) <= |data| && left == data[c.len(x)..];
      FitsExact(c, left);
    }
  }

  /** A section that ends on its declared byte count. */
  lemma {:induction false} CountedExact<T(!new)>(c: Codec<T>, data: bytes, after: bytes)
    requires Lawful(c) && AllFit(c, data)
    ensures var r := ParseCounted(c, data + after, |data|);
            r.Ok? && r.value.1 == after && PrintAll(c, r.value.0) == data && TotalLen(c, r.value.0) == |data|
    decreases |data|
  {
    if |data| == 0 {
      assert data + after == after;
    } else {
      assert Exact(c, data, after);
      Cut(data, after, c.size(data));
      CountedExact(c, data[c.size(data)..], after);
      var x := c.parse(data + after).value;
      var rest := ParseCounted(c, data[c.size(data)..] + after, |data| - c.size(data)).value.0;
      assert ([x] + rest)[1..] == rest;
    }
  }

  /** A section of a declared number of elements. */
  lemma {:induction false} TimesExact<T(!new)>(c: Codec<T>, data: bytes, n: nat)
    requires LawfulAlone(c) && TimesFit(c, data, n)
    ensures var r := ParseTimes(c, data, n);
            var k := Span(c, data, n);
            r.Ok? && |r.value.0| == n && r.value.1 == data[k..]
            && PrintAll(c, r.value.0) == data[..k] && TotalLen(c, r.value.0) == k
    decreases n
  {
    hide LawfulAlone, PrintAll, TotalLen, From;
    PrintNone(c);
    if n > 0 {
      var m := c.size(data);
      FirstElement(c, data);
      TimesExact(c, data[m..], n - 1);
      PrintCons(c, c.parse(data).value, ParseTimes(c, data[m..], n - 1).value.0);
      CutTwice(data, m, Span(c, data[m..], n - 1));
    }
  }

  lemma FirstElement<T(!new)>(c: Codec<T>, data: bytes)
    requires LawfulAlone(c) && Fits(c, data)
    ensures var x := c.parse(data);
            var m := c.size(data);
            x.Ok? && c.show(x.value) == data[..m] && c.len(x.value) == m && From(data, m) == data[m..]
  {
    assert data + [] == data && Exact(c, data, []);
  }

  lemma PrintNone<T>(c: Codec<T>)
    ensures PrintAll(c, []) == [] && TotalLen(c, []) == 0
  {
  }

  lemma PrintCons<T>(c: Codec<T>, x: T, rest: seq<T>)
    ensures PrintAll(c, [x] + rest) == c.show(x) + PrintAll(c, rest)
    ensures TotalLen(c, [x] + rest) == c.len(x) + TotalLen(c, rest)
  {
    assert ([x] + rest)[1..] == rest;
  }

  lemma CutTwice(data: bytes, m: nat, k: nat)
    requires m + k <= |data|
    ensures data[..m] + data[m..][..k] == data[..m + k] && data[m..][k..] == data[m + k..]
  {
  }

  // ---------- the loops themselves ----------

  method UnpackAll<T>(c: Codec<T>, whole: bytes) returns (r: Result<seq<T>>)
    ensures r == ParseAll(c, whole)
  {
    var data, list := whole, [];
    ghost var goal := ParseAll(c, whole);
    assert goal.Ok? ==> [] + goal.value == goal.value;
    while |data| > 0
      invariant var rest := ParseAll(c, data); goal == if rest.Ok? then Ok(list + rest.value) else rest
      decreases |data|
    {
      AllStep(c, list, data);
      var x :- c.parse(data);
      if c.len(x) == 0 {
        return Err(UnpackError);
      }
      list := list + [x];
      data := From(data, c.len(x));
    }
    assert list + [] == list;
    return Ok(list);
  }

  lemma AllStep<T>(c: Codec<T>, list: seq<T>, data: bytes)
    requires |data| > 0
    ensures var all := ParseAll(c, data);
            var x := c.parse(data);
            if x.Err? then all == Err(x.error)
            else if c.len(x.value) == 0 then all == Err(UnpackError)
            else
              var rest := ParseAll(c, From(data, c.len(x.value)));
              if rest.Err? then all == rest else all.Ok? && list + all.value == list + [x.value] + rest.value
  {
    var x := c.parse(data);
    if x.Ok? && c.len(x.value) > 0 {
      var rest := ParseAll(c, From(data, c.len(x.value)));
      if rest.Ok? {
        assert list + ([x.value] + rest.value) == list + [x.value] + rest.value;
      }
    }
  }

  method UnpackCounted<T>(c: Codec<T>, whole: bytes, length: nat) returns (r: Result<(seq<T>, bytes)>)
    ensures r == ParseCounted(c, whole, length)
  {
    var data, list := whole, [];
    var n: int := length;
    ghost var goal := ParseCounted(c, whole, length);
    assert goal.Ok? ==> [] + goal.value.0 == goal.value.0;
    while n > 0
      invariant var rest := ParseCounted(c, data, n);
                goal == if rest.Ok? then Ok((list + rest.value.0, rest.value.1)) else rest
      decreases n
    {
      CountedStep(c, list, data, n);
      var x :- c.parse(data);
      if c.len(x) == 0 {
        return Err(UnpackError);
      }
      list := list + [x];
      data := From(data, c.len(x));
      n := n - c.len(x);
    }
    assert list + [] == list;
    return Ok((list, data));
  }

  lemma CountedStep<T>(c: Codec<T>, list: seq<T>, data: bytes, n: int)
    requires n > 0
    ensures var all := ParseCounted(c, data, n);
            var x := c.parse(data);
            if x.Err? then all == Err(x.error)
            else if c.len(x.value) == 0 then all == Err(UnpackError)
            else
              var rest := ParseCounted(c, From(data, c.len(x.value)), n - c.len(x.value));
              if rest.Err? then all == rest
              else all.Ok? && list + all.value.0 == list + [x.value] + rest.value.0 && all.value.1 == rest.value.1
  {
    var x := c.parse(data);
    if x.Ok? && c.len(x.value) > 0 {
      var rest := ParseCounted(c, From(data, c.len(x.value)), n - c.len(x.value));
      if rest.Ok? {
        assert list + ([x.value] + rest.value.0) == list + [x.value] + rest.value.0;
      }
    }
  }

  /** `for i in range(n):` as its loop. */
  method UnpackTimes<T>(c: Codec<T>, whole: bytes, count: nat) returns (r: Result<(seq<T>, bytes)>)
    ensures r == ParseTimes(c, whole, count)
  {
    var data, list := whole, [];
    ghost var goal := ParseTimes(c, whole, count);
    assert goal.Ok? ==> [] + goal.value.0 == goal.value.0;
    for i := 0 to count
      invariant var rest := ParseTimes(c, data, count - i);
                goal == if rest.Ok? then Ok((list + rest.value.0, rest.value.1)) else rest
    {
      TimesStep(c, list, data, count - i);
      var x :- c.parse(data);
      list := list + [x];
      data := From(data, c.len(x));
    }
    assert list + [] == list;
    return Ok((list, data));
  }

  lemma TimesStep<T>(c: Codec<T>, list: seq<T>, data: bytes, n: nat)
    requires n > 0
    ensures var all := ParseTimes(c, data, n);
            var x := c.parse(data);
            if x.Err? then all == Err(x.error)
            else
              var rest := ParseTimes(c, From(data, c.len(x.value)), n - 1);
              if rest.Err? then all == rest
              else all.Ok? && list + all.value.0 == list + [x.value] + rest.value.0 && all.value.1 == rest.value.1
  {
    var x := c.parse(data);
    if x.Ok? {
      var rest := ParseTimes(c, From(data, c.len(x.value)), n - 1);
      if rest.Ok? {
        assert list + ([x.value] + rest.value.0) == list + [x.value] + rest.value.0;
      }
    }
  }

  // ---------- exactly which counted sections are reproduced ----------

  /** The element parsed here prints the very bytes that the loop advances over. */
  ghost predicate Stands<T>(c: Codec<T>, x: bytes) {
    var r := c.parse(x);
    r.Ok? && 0 < c.len(r.value) <= |x| && c.show(r.value) == x[..c.len(r.value)]
  }

  /** `size` says where elements stand, and how long they are. */
  ghost predicate Sharp<T(!new)>(c: Codec<T>) {
    forall x: bytes {:trigger c.size(x)} ::
      (Stands(c, x) <==> Fits(c, x)) && (Stands(c, x) ==> c.len(c.parse(x).value) == c.size(x))
  }

  /** No element prints more bytes than it reports. */
  ghost predicate Bounded<T(!new)>(c: Codec<T>) {
    forall x: bytes {:trigger c.parse(x)} :: c.parse(x).Ok? ==> |c.show(c.parse(x).value)| <= c.len(c.parse(x).value)
  }

  /** The first n bytes are cut into standing elements without remainder. */
  predicate CountFits<T>(c: Codec<T>, data: bytes, n: nat)
    decreases n
  {
    n == 0 || (Fits(c, data) && c.size(data) <= n && CountFits(c, data[c.size(data)..], n - c.size(data)))
  }

  lemma {:induction false} CountedBound<T(!new)>(c: Codec<T>, data: bytes, n: int)
    requires Bounded(c) && ParseCounted(c, data, n).Ok?
    ensures |PrintAll(c, ParseCounted(c, data, n).value.0)| <= TotalLen(c, ParseCounted(c, data, n).value.0)
    decreases if n < 0 then 0 else n
  {
    hide PrintAll, TotalLen;
    PrintNone(c);
    if n > 0 {
      var x := c.parse(data).value;
      CountedBound(c, From(data, c.len(x)), n - c.len(x));
      PrintCons(c, x, ParseCounted(c, From(data, c.len(x)), n - c.len(x)).value.0);
    }
  }

  lemma {:induction false} AllBound<T(!new)>(c: Codec<T>, data: bytes)
    requires Bounded(c) && ParseAll(c, data).Ok?
    ensures |PrintAll(c, ParseAll(c, data).value)| <= TotalLen(c, ParseAll(c, data).value)
    decreases |data|
  {
    hide PrintAll, TotalLen;
    PrintNone(c);
    if |data| > 0 {
      var x := c.parse(data).value;
      AllBound(c, From(data, c.len(x)));
      PrintCons(c, x, ParseAll(c, From(data, c.len(x))).value);
    }
  }

  /** What a section of n bytes in front of other data is parsed to prints and counts as those bytes. */
  ghost predicate CountStands<T>(c: Codec<T>, data: bytes, n: nat) {
    var r := ParseCounted(c, data, n);
    r.Ok? && n <= |data| && TotalLen(c, r.value.0) == n && PrintAll(c, r.value.0) == data[..n]
  }

  lemma FirstStands<T(!new)>(c: Codec<T>, data: bytes, n: nat)
    requires Bounded(c) && n > 0 && CountStands(c, data, n)
    ensures Stands(c, data) && c.len(c.parse(data).value) <= n
    ensures var m := c.len(c.parse(data).value); CountStands(c, data[m..], n - m)
  {
    var x := c.parse(data).value;
    var m := c.len(x);
    hide PrintAll, TotalLen, Bounded;
    var xs := ParseCounted(c, From(data, m), n - m).value.0;
    PrintCons(c, x, xs);
    ShowBound(c, data);
    CountedBound(c, From(data, m), n - m);
    CountedCovers(c, From(data, m), n - m);
    assert m <= n && From(data, m) == data[m..];
    var p := PrintAll(c, xs);
    assert |c.show(x)| == m && |p| == n - m;
    assert data[..n][..m] == data[..m] && (c.show(x) + p)[..m] == c.show(x);
    assert data[..n][m..] == data[m..][..n - m] && (c.show(x) + p)[m..] == p;
  }

  lemma ShowBound<T(!new)>(c: Codec<T>, x: bytes)
    requires Bounded(c) && c.parse(x).Ok?
    ensures |c.show(c.parse(x).value)| <= c.len(c.parse(x).value)
  {
  }

  /** The elements of a section report at least the bytes it declares. */
  lemma {:induction false} CountedCovers<T>(c: Codec<T>, data: bytes, n: int)
    requires ParseCounted(c, data, n).Ok?
    ensures TotalLen(c, ParseCounted(c, data, n).value.0) >= n
    decreases if n < 0 then 0 else n
  {
    hide PrintAll, TotalLen;
    PrintNone(c);
    if n > 0 {
      var x := c.parse(data).value;
      CountedCovers(c, From(data, c.len(x)), n - c.len(x));
      PrintCons(c, x, ParseCounted(c, From(data, c.len(x)), n - c.len(x)).value.0);
    }
  }

  /** A counted section is reproduced if and only if it is cut into standing elements without remainder. */
  lemma {:induction false} CountedSharp<T(!new)>(c: Codec<T>, data: bytes, n: nat)
    requires Sharp(c) && Bounded(c)
    ensures CountStands(c, data, n) <==> CountFits(c, data, n)
    ensures CountFits(c, data, n) ==> n <= |data| && ParseCounted(c, data, n).value.1 == data[n..]
    decreases n
  {
    hide PrintAll, TotalLen, Bounded, Sharp;
    PrintNone(c);
    if n > 0 {
      SharpAt(c, data);
      if CountStands(c, data, n) {
        FirstStands(c, data, n);
      }
      if Stands(c, data) && c.size(data) <= n {
        var m := c.size(data);
        CountedSharp(c, data[m..], n - m);
        if CountFits(c, data, n) {
          var xs := ParseCounted(c, data[m..], n - m).value.0;
          PrintCons(c, c.parse(data).value, xs);
          CutTwice(data, m, n - m);
        }
      }
    }
  }

  lemma SharpAt<T(!new)>(c: Codec<T>, x: bytes)
    requires Sharp(c)
    ensures Stands(c, x) <==> Fits(c, x)
    ensures Stands(c, x) ==> c.len(c.parse(x).value) == c.size(x)
  {
    var n := c.size(x);
  }

  /** A section of elements that are whole on their own is cut the same whatever follows it. */
  lemma {:induction false} WholeCounts<T(!new)>(whole: Codec<T>, c: Codec<T>, data: bytes, after: bytes)
    requires whole.parse == c.parse && whole.show == c.show && whole.len == c.len
    requires Lawful(whole) && Sharp(c) && AllFit(whole, data)
    ensures CountFits(c, data + after, |data|)
    decreases |data|
  {
    hide Sharp;
    if |data| > 0 {
      var m := whole.size(data);
      assert Exact(whole, data, after);
      assert (data + after)[..m] == data[..m];
      SharpAt(c, data + after);
      WholeCounts(whole, c, data[m..], after);
      Cut(data, after, m);
      assert (data + after)[m..] == data[m..] + after;
    }
  }

  /** Where every parsed element is of the size it reports, elements that parse at all are there. */
  lemma {:induction false} TimesParsed<T>(c: Codec<T>, data: bytes, n: nat)
    requires forall x: bytes :: c.parse(x).Ok? ==> Fits(c, x) && c.len(c.parse(x).value) == c.size(x)
    requires ParseTimes(c, data, n).Ok?
    ensures TimesFit(c, data, n)
    decreases n
  {
    if n > 0 {
      var m := c.size(data);
      assert From(data, m) == data[m..];
      TimesParsed(c, data[m..], n - 1);
    }
  }
}
