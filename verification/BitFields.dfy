/** Bit fields of a packet header: sub-fields of one integer placeholder, named from the most significant bit down. */
module BitFields {
  import opened Bytes

  function Pow2(n: nat): (p: nat)
    ensures p > 0
  {
    if n == 0 then 1 else 2 * Pow2(n - 1)
  }

  /** The operators of unbounded integers, negative ones read as infinite two's complement. */
  function Shr(x: int, n: nat): int
    decreases n
  {
    if n == 0 then x else Shr(x / 2, n - 1)
  }

  function Shl(x: int, n: nat): int {
    if n == 0 then x else 2 * Shl(x, n - 1)
  }

  function And(x: int, m: nat): nat
    decreases m
  {
    if m == 0 then 0 else 2 * And(x / 2, m / 2) + if x % 2 == 1 && m % 2 == 1 then 1 else 0
  }

  function Or(x: int, y: nat): int
    decreases y
  {
    if y == 0 then x else 2 * Or(x / 2, y / 2) + if x % 2 == 1 || y % 2 == 1 then 1 else 0
  }

  /** Bit k of x. */
  predicate Bit(x: int, k: nat)
    decreases k
  {
    if k == 0 then x % 2 == 1 else Bit(x / 2, k - 1)
  }

  function Sum(sizes: seq<nat>): nat {
    if |sizes| == 0 then 0 else sizes[0] + Sum(sizes[1..])
  }

  /** How far a field lies above the lowest bit: the sizes of the fields behind it. */
  function Shift(sizes: seq<nat>, i: nat): nat
    requires i < |sizes|
  {
    Sum(sizes[i + 1..])
  }

  function Mask(size: nat, shift: nat): int {
    Shl(Pow2(size) - 1, shift)
  }

  /** The getter: `(ph & mask) >> shift`. */
  function Get(ph: int, size: nat, shift: nat): int
    requires Mask(size, shift) >= 0
  {
    Shr(And(ph, Mask(size, shift)), shift)
  }

  /** The setter: `(v << shift) | (ph & mask_inv)`. */
  function Set(ph: int, size: nat, shift: nat, total: nat, v: int): int
    requires Mask(size, shift) < Pow2(total)
  {
    Or(Shl(v, shift), And(ph, Pow2(total) - 1 - Mask(size, shift)))
  }

  // ---------- what the operators do, bit by bit ----------

  lemma {:induction false} BitShr(x: int, n: nat, k: nat)
    ensures Bit(Shr(x, n), k) == Bit(x, n + k)
    decreases n
  {
    if n > 0 {
      BitShr(x / 2, n - 1, k);
    }
  }

  lemma {:induction false} BitShl(x: int, n: nat, k: nat)
    ensures Bit(Shl(x, n), k) == (n <= k && Bit(x, k - n))
    decreases k
  {
    if n > 0 && k > 0 {
      BitShl(x, n - 1, k - 1);
    }
  }

  lemma {:induction false} BitAnd(x: int, m: nat, k: nat)
    ensures Bit(And(x, m), k) == (Bit(x, k) && Bit(m, k))
    decreases k
  {
    ZeroBit(k);
    if m > 0 && k > 0 {
      BitAnd(x / 2, m / 2, k - 1);
    }
  }

  lemma {:induction false} BitOr(x: int, y: nat, k: nat)
    ensures Bit(Or(x, y), k) == (Bit(x, k) || Bit(y, k))
    decreases k
  {
    ZeroBit(k);
    if y > 0 && k > 0 {
      BitOr(x / 2, y / 2, k - 1);
    }
  }

  lemma {:induction false} ZeroBit(k: nat)
    ensures !Bit(0, k)
  {
    if k > 0 {
      ZeroBit(k - 1);
    }
  }

  /** Subtracting from all ones flips the low n bits. */
  lemma {:induction false} BitFlip(n: nat, x: nat, k: nat)
    requires x < Pow2(n)
    ensures Bit(Pow2(n) - 1 - x, k) == (k < n && !Bit(x, k))
    decreases n
  {
    ZeroBit(k);
    if n > 0 && k > 0 {
      BitFlip(n - 1, x / 2, k - 1);
      assert (Pow2(n) - 1 - x) / 2 == Pow2(n - 1) - 1 - x / 2;
    }
  }

  lemma {:induction false} BitMask(size: nat, shift: nat, k: nat)
    ensures Bit(Mask(size, shift), k) == (shift <= k < shift + size)
  {
    BitShl(Pow2(size) - 1, shift, k);
    if shift <= k {
      BitFlip(size, 0, k - shift);
      ZeroBit(k - shift);
    }
  }

  /** A number below 2^n has no bit from n on, and conversely. */
  lemma {:induction false} HighBitsClear(x: nat, n: nat, k: nat)
    requires x < Pow2(n) && n <= k
    ensures !Bit(x, k)
    decreases n
  {
    if n == 0 {
      ZeroBit(k);
    } else {
      HighBitsClear(x / 2, n - 1, k - 1);
    }
  }

  lemma {:induction false} SmallByBits(x: nat, n: nat)
    requires forall k: nat :: n <= k ==> !Bit(x, k)
    ensures x < Pow2(n)
    decreases x
  {
    if x > 0 {
      var n' := if n == 0 then 0 else n - 1;
      forall k: nat | n' <= k
        ensures !Bit(x / 2, k)
      {
        assert Bit(x / 2, k) == Bit(x, k + 1);
      }
      SmallByBits(x / 2, n');
      assert n == 0 ==> !Bit(x, 0);
    }
  }

  lemma {:induction false} SameBits(x: nat, y: nat)
    requires forall k: nat :: Bit(x, k) == Bit(y, k)
    ensures x == y
    decreases x + y
  {
    assert Bit(x, 0) == Bit(y, 0);
    if x > 0 || y > 0 {
      forall k: nat
        ensures Bit(x / 2, k) == Bit(y / 2, k)
      {
        assert Bit(x, k + 1) == Bit(x / 2, k) && Bit(y, k + 1) == Bit(y / 2, k);
      }
      SameBits(x / 2, y / 2);
    }
  }

  // ---------- where a field lies ----------

  lemma {:induction false} MaskFits(size: nat, shift: nat, total: nat)
    requires size + shift <= total
    ensures 0 <= Mask(size, shift) < Pow2(total)
    decreases total
  {
    if shift > 0 {
      MaskFits(size, shift - 1, total - 1);
    } else if size < total {
      MaskFits(size, 0, total - 1);
    }
  }

  lemma {:induction false} FieldInside(sizes: seq<nat>, i: nat)
    requires i < |sizes|
    ensures Shift(sizes, i) + sizes[i] <= Sum(sizes)
    ensures 0 <= Mask(sizes[i], Shift(sizes, i)) < Pow2(Sum(sizes))
    decreases |sizes|
  {
    if i > 0 {
      assert sizes[i + 1..] == sizes[1..][i..];
      FieldInside(sizes[1..], i - 1);
    }
    MaskFits(sizes[i], Shift(sizes, i), Sum(sizes));
  }

  /** A later field ends at or before the start of an earlier one. */
  lemma {:induction false} FieldsApart(sizes: seq<nat>, i: nat, j: nat)
    requires i < j < |sizes|
    ensures Shift(sizes, j) + sizes[j] <= Shift(sizes, i)
  {
    var tail := sizes[i + 1..];
    assert tail[j - i..] == sizes[j + 1..];
    FieldInside(tail, j - i - 1);
  }

  /** Every bit of the placeholder belongs to a field. */
  lemma {:induction false} FieldOfBit(sizes: seq<nat>, k: nat) returns (i: nat)
    requires k < Sum(sizes)
    ensures i < |sizes| && Shift(sizes, i) <= k < Shift(sizes, i) + sizes[i]
    decreases |sizes|
  {
    if Sum(sizes[1..]) <= k {
      i := 0;
    } else {
      i := FieldOfBit(sizes[1..], k);
      i := i + 1;
      assert sizes[i + 1..] == sizes[1..][i..];
    }
  }

  // ---------- getters and setters ----------

  /** The getter of the i-th field. */
  function GetAt(ph: int, sizes: seq<nat>, i: nat): int
    requires i < |sizes|
  {
    FieldInside(sizes, i);
    Get(ph, sizes[i], Shift(sizes, i))
  }

  function SetAt(ph: int, sizes: seq<nat>, i: nat, v: int): int
    requires i < |sizes|
  {
    FieldInside(sizes, i);
    Set(ph, sizes[i], Shift(sizes, i), Sum(sizes), v)
  }

  function Fields(ph: int, sizes: seq<nat>): seq<int> {
    seq(|sizes|, i requires 0 <= i < |sizes| => GetAt(ph, sizes, i))
  }

  /** Setters applied in order to every field. */
  function SetAll(ph: int, sizes: seq<nat>, vs: seq<int>): int
    requires |vs| <= |sizes|
  {
    if |vs| == 0 then ph else SetAt(SetAll(ph, sizes, vs[..|vs| - 1]), sizes, |vs| - 1, vs[|vs| - 1])
  }

  lemma {:induction false} ShrNat(x: nat, n: nat)
    ensures Shr(x, n) >= 0
    decreases n
  {
    if n > 0 {
      ShrNat(x / 2, n - 1);
    }
  }

  /** A getter's bits are the field's bits of the placeholder, and its value always fits the field. */
  lemma GetBits(ph: int, size: nat, shift: nat)
    requires Mask(size, shift) >= 0
    ensures 0 <= Get(ph, size, shift) < Pow2(size)
    ensures forall k: nat :: Bit(Get(ph, size, shift), k) == (k < size && Bit(ph, shift + k))
  {
    hide Shl, Shr, And, Mask, Pow2, Bit;
    var m := Mask(size, shift);
    ShrNat(And(ph, m), shift);
    forall k: nat
      ensures Bit(Get(ph, size, shift), k) == (k < size && Bit(ph, shift + k))
    {
      BitShr(And(ph, m), shift, k);
      BitAnd(ph, m, shift + k);
      BitMask(size, shift, shift + k);
    }
    SmallByBits(Get(ph, size, shift), size);
  }

  /** A setter's bits are the value's inside the field, and the old ones below the total elsewhere. */
  lemma SetBits(ph: int, size: nat, shift: nat, total: nat, v: nat, k: nat)
    requires 0 <= Mask(size, shift) < Pow2(total) && size + shift <= total && v < Pow2(size)
    ensures Bit(Set(ph, size, shift, total, v), k) ==
            if shift <= k < shift + size then Bit(v, k - shift) else k < total && Bit(ph, k)
  {
    hide Shl, Shr, And, Or, Mask, Pow2, Bit;
    var m := Mask(size, shift);
    BitOr(Shl(v, shift), And(ph, Pow2(total) - 1 - m), k);
    BitShl(v, shift, k);
    if shift + size <= k {
      HighBitsClear(v, size, k - shift);
    }
    BitAnd(ph, Pow2(total) - 1 - m, k);
    BitFlip(total, m, k);
    BitMask(size, shift, k);
  }

  lemma {:induction false} SignKept(x: int, n: nat, y: nat)
    ensures Shl(x, n) >= 0 <==> x >= 0
    ensures Or(x, y) >= 0 <==> x >= 0
    decreases n + y
  {
    if n > 0 {
      SignKept(x, n - 1, 0);
    }
    if y > 0 {
      SignKept(x / 2, 0, y / 2);
    }
  }

  /**
   The setter passes negative values; the placeholder stays within its width if and only if the value is not negative.
   */
  lemma SetInRange(ph: int, sizes: seq<nat>, i: nat, v: int)
    requires i < |sizes| && v < Pow2(sizes[i])
    ensures 0 <= SetAt(ph, sizes, i, v) < Pow2(Sum(sizes)) <==> v >= 0
  {
    hide Shl, And, Or, Mask, Pow2, Bit, Shift, Sum;
    FieldInside(sizes, i);
    var size, shift, total := sizes[i], Shift(sizes, i), Sum(sizes);
    var x := SetAt(ph, sizes, i, v);
    SignKept(v, shift, 0);
    SignKept(Shl(v, shift), 0, And(ph, Pow2(total) - 1 - Mask(size, shift)));
    if v >= 0 {
      forall k: nat | total <= k
        ensures !Bit(x, k)
      {
        SetBits(ph, size, shift, total, v, k);
      }
      SmallByBits(x, total);
    }
  }

  /** Setting a field in range changes that field to the value and leaves every other field alone. */
  lemma SetThenGet(ph: int, sizes: seq<nat>, i: nat, v: nat, j: nat)
    requires i < |sizes| && j < |sizes| && v < Pow2(sizes[i])
    ensures GetAt(SetAt(ph, sizes, i, v), sizes, j) == if i == j then v else GetAt(ph, sizes, j)
  {
    hide Shl, And, Or, Get, Set, Mask, Pow2, Bit, Shift, Sum;
    FieldInside(sizes, i);
    FieldInside(sizes, j);
    if i < j {
      FieldsApart(sizes, i, j);
    } else if j < i {
      FieldsApart(sizes, j, i);
    }
    var size, shift := sizes[j], Shift(sizes, j);
    var after := SetAt(ph, sizes, i, v);
    GetBits(ph, size, shift);
    GetBits(after, size, shift);
    var want := if i == j then v else GetAt(ph, sizes, j);
    forall k: nat
      ensures Bit(GetAt(after, sizes, j), k) == Bit(want, k)
    {
      SetBits(ph, sizes[i], Shift(sizes, i), Sum(sizes), v, shift + k);
      if i == j && size <= k {
        HighBitsClear(v, size, k);
      }
    }
    SameBits(GetAt(after, sizes, j), want);
  }

  lemma SetIsUpdate(ph: int, sizes: seq<nat>, i: nat, v: nat)
    requires i < |sizes| && v < Pow2(sizes[i])
    ensures Fields(SetAt(ph, sizes, i, v), sizes) == Fields(ph, sizes)[i := v]
  {
    hide SetAt, GetAt, Pow2;
    forall j: nat | j < |sizes|
      ensures Fields(SetAt(ph, sizes, i, v), sizes)[j] == Fields(ph, sizes)[i := v][j]
    {
      SetThenGet(ph, sizes, i, v, j);
    }
  }

  /** A placeholder within its width is determined by its fields. */
  lemma FieldsInjective(a: nat, b: nat, sizes: seq<nat>)
    requires a < Pow2(Sum(sizes)) && b < Pow2(Sum(sizes)) && Fields(a, sizes) == Fields(b, sizes)
    ensures a == b
  {
    hide Pow2, Bit, Get, Mask, Shift, Sum;
    forall k: nat
      ensures Bit(a, k) == Bit(b, k)
    {
      if k < Sum(sizes) {
        var i := FieldOfBit(sizes, k);
        FieldInside(sizes, i);
        GetBits(a, sizes[i], Shift(sizes, i));
        GetBits(b, sizes[i], Shift(sizes, i));
        assert Fields(a, sizes)[i] == Fields(b, sizes)[i];
        var at := k - Shift(sizes, i);
        assert Bit(GetAt(a, sizes, i), at) == Bit(a, Shift(sizes, i) + at);
      } else {
        HighBitsClear(a, Sum(sizes), k);
        HighBitsClear(b, Sum(sizes), k);
      }
    }
    SameBits(a, b);
  }

  ghost predicate InRange(vs: seq<int>, sizes: seq<nat>) {
    |vs| == |sizes| && forall i :: 0 <= i < |vs| ==> 0 <= vs[i] < Pow2(sizes[i])
  }

  /** Setting every field reads back as the given values; setting them to what they are changes nothing. */
  lemma SetAllFields(ph: int, sizes: seq<nat>, vs: seq<int>)
    requires InRange(vs, sizes)
    ensures Fields(SetAll(ph, sizes, vs), sizes) == vs
  {
    hide SetAt, GetAt, Pow2;
    SetPrefix(ph, sizes, vs, |vs|);
    assert vs[..|vs|] == vs;
  }

  lemma {:induction false} SetPrefix(ph: int, sizes: seq<nat>, vs: seq<int>, n: nat)
    requires InRange(vs, sizes) && n <= |vs|
    ensures forall i :: 0 <= i < n ==> Fields(SetAll(ph, sizes, vs[..n]), sizes)[i] == vs[i]
    decreases n
  {
    hide SetAt, GetAt, Pow2;
    if n > 0 {
      SetPrefix(ph, sizes, vs, n - 1);
      assert vs[..n][..n - 1] == vs[..n - 1];
      SetIsUpdate(SetAll(ph, sizes, vs[..n - 1]), sizes, n - 1, vs[n - 1]);
    }
  }

  lemma {:induction false} SetAllInRange(ph: nat, sizes: seq<nat>, vs: seq<int>)
    requires |vs| <= |sizes| && ph < Pow2(Sum(sizes))
    requires forall i :: 0 <= i < |vs| ==> 0 <= vs[i] < Pow2(sizes[i])
    ensures 0 <= SetAll(ph, sizes, vs) < Pow2(Sum(sizes))
    decreases |vs|
  {
    hide SetAt, Pow2;
    if |vs| > 0 {
      SetAllInRange(ph, sizes, vs[..|vs| - 1]);
      SetInRange(SetAll(ph, sizes, vs[..|vs| - 1]), sizes, |vs| - 1, vs[|vs| - 1]);
    }
  }

  lemma FieldsInRange(ph: int, sizes: seq<nat>)
    ensures InRange(Fields(ph, sizes), sizes)
  {
    hide Get, Mask, Pow2;
    forall i: nat | i < |sizes|
      ensures 0 <= Fields(ph, sizes)[i] < Pow2(sizes[i])
    {
      FieldInside(sizes, i);
      GetBits(ph, sizes[i], Shift(sizes, i));
    }
  }

  /** Copying every field of one placeholder onto another reproduces the first. */
  lemma CopyFields(from: nat, onto: nat, sizes: seq<nat>)
    requires from < Pow2(Sum(sizes)) && onto < Pow2(Sum(sizes))
    ensures SetAll(onto, sizes, Fields(from, sizes)) == from
  {
    hide SetAll, GetAt, Pow2;
    var vs := Fields(from, sizes);
    FieldsInRange(from, sizes);
    SetAllFields(onto, sizes, vs);
    SetAllInRange(onto, sizes, vs);
    FieldsInjective(SetAll(onto, sizes, vs), from, sizes);
  }

  // ---------- the generated accessors ----------

  /** The loop of the class generator: shifts from the running count of used bits. */
  method Shifts(sizes: seq<nat>) returns (shifts: seq<nat>)
    ensures |shifts| == |sizes| && forall i :: 0 <= i < |sizes| ==> shifts[i] == Shift(sizes, i)
  {
    var total := Sum(sizes);
    var used, i := 0, 0;
    shifts := [];
    assert sizes[0..] == sizes;
    while i < |sizes|
      invariant 0 <= i <= |sizes| && |shifts| == i
      invariant used + Sum(sizes[i..]) == total
      invariant forall k :: 0 <= k < i ==> shifts[k] == Shift(sizes, k)
    {
      assert sizes[i..][1..] == sizes[i + 1..];
      shifts := shifts + [total - used - sizes[i]];
      used := used + sizes[i];
      i := i + 1;
    }
  }

  /** A packet with one placeholder field. */
  class Header {
    const sizes: seq<nat>
    const initial: nat
    var placeholder: int

    ghost predicate Valid()
      reads this
    {
      initial < Pow2(Sum(sizes)) && 0 <= placeholder < Pow2(Sum(sizes))
    }

    ghost function Values(): seq<int>
      reads this
    {
      Fields(placeholder, sizes)
    }

    constructor (sizes: seq<nat>, initial: nat)
      requires initial < Pow2(Sum(sizes))
      ensures Valid() && this.sizes == sizes && this.initial == initial && Values() == Fields(initial, sizes)
    {
      this.sizes, this.initial, placeholder := sizes, initial, initial;
    }

    method GetField(i: nat) returns (v: int)
      requires i < |sizes|
      ensures v == Values()[i] && 0 <= v < Pow2(sizes[i])
    {
      FieldsInRange(placeholder, sizes);
      v := GetAt(placeholder, sizes, i);
    }

    /** Only a value that is too large is refused; a negative one is taken and leaves the placeholder negative. */
    method SetField(i: nat, v: int) returns (r: Result<()>)
      requires Valid() && i < |sizes|
      modifies this`placeholder
      ensures r == if v < Pow2(sizes[i]) then Ok(()) else Err(ValueError)
      ensures r.Err? ==> placeholder == old(placeholder)
      ensures r.Ok? ==> (Valid() <==> v >= 0)
      ensures r.Ok? && v >= 0 ==> Values() == old(Values())[i := v]
    {
      hide SetAt, GetAt, Pow2, Sum;
      if v >= Pow2(sizes[i]) {
        return Err(ValueError);
      }
      SetInRange(placeholder, sizes, i, v);
      if v >= 0 {
        SetIsUpdate(placeholder, sizes, i, v);
      }
      placeholder := SetAt(placeholder, sizes, i, v);
      return Ok(());
    }

    /** Deleting a field sets it back to its value in the default placeholder. */
    method DeleteField(i: nat)
      requires Valid() && i < |sizes|
      modifies this`placeholder
      ensures Valid() && Values() == old(Values())[i := Fields(initial, sizes)[i]]
    {
      hide SetAt, GetAt, Pow2, Sum;
      FieldsInRange(initial, sizes);
      var r := SetField(i, GetAt(initial, sizes, i));
    }
  }
}
