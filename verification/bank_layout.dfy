/**
 * Address arithmetic of register banks with any number of dimensions, outermost
 * first: element (i0, i1, ...) starts at i0 * s0 + i1 * s1 + ... bytes.
 */
module BankLayout {
  import opened Arithmetic
  import opened Basics

  /** Bytes from the first to the last element, both included. */
  function Span(counts: seq<nat>, strides: seq<nat>, elem: nat): (r: int)
    requires |counts| == |strides|
  {
    if counts == [] then elem
    else (counts[0] - 1) * strides[0] + Span(counts[1..], strides[1..], elem)
  }

  /** What the constructor insists on: every stride covers the span of the dimensions inside it. */
  ghost predicate LayoutOk(counts: seq<nat>, strides: seq<nat>, elem: nat) {
    && elem >= 1
    && |counts| == |strides|
    && (counts != [] ==>
          counts[0] >= 1 && strides[0] >= Span(counts[1..], strides[1..], elem) &&
            LayoutOk(counts[1..], strides[1..], elem))
  }

  function Count(counts: seq<nat>): nat { if counts == [] then 1 else counts[0] * Count(counts[1..]) }

  ghost predicate IndicesOk(counts: seq<nat>, indices: seq<nat>) {
    |indices| == |counts| && forall k :: 0 <= k < |counts| ==> indices[k] < counts[k]
  }

  function Offset(strides: seq<nat>, indices: seq<nat>): nat
    requires |strides| == |indices|
  {
    if strides == [] then 0 else indices[0] * strides[0] + Offset(strides[1..], indices[1..])
  }

  /** Row-major number of an element. */
  function Flat(counts: seq<nat>, indices: seq<nat>): nat
    requires |counts| == |indices|
  {
    if counts == [] then 0 else indices[0] * Count(counts[1..]) + Flat(counts[1..], indices[1..])
  }

  ghost predicate Positive(xs: seq<nat>) { forall k :: 0 <= k < |xs| ==> xs[k] >= 1 }

  lemma CountPositive(counts: seq<nat>)
    requires Positive(counts)
    ensures Count(counts) >= 1
  {
    if counts != [] {
      CountPositive(counts[1..]);
      assert counts[0] * Count(counts[1..]) >= 1;
    }
  }

  /** Indices of the element with row-major number flat. */
  function Unflatten(counts: seq<nat>, flat: nat): (r: seq<nat>)
    requires Positive(counts)
    ensures |r| == |counts|
  {
    if counts == [] then []
    else
      CountPositive(counts[1..]);
      [flat / Count(counts[1..])] + Unflatten(counts[1..], flat % Count(counts[1..]))
  }

  /** Indices obtained by dividing an offset by the strides, outermost first. */
  function Divided(strides: seq<nat>, offset: nat): (r: seq<nat>)
    requires Positive(strides)
    ensures |r| == |strides|
  {
    if strides == [] then [] else [offset / strides[0]] + Divided(strides[1..], offset % strides[0])
  }

  function Remainder(strides: seq<nat>, offset: nat): nat
    requires Positive(strides)
  {
    if strides == [] then offset else Remainder(strides[1..], offset % strides[0])
  }

  lemma LayoutFacts(counts: seq<nat>, strides: seq<nat>, elem: nat)
    requires LayoutOk(counts, strides, elem)
    ensures Positive(counts) && Positive(strides) && Span(counts, strides, elem) >= elem
  {
    if counts != [] {
      LayoutFacts(counts[1..], strides[1..], elem);
      assert (counts[0] - 1) * strides[0] >= 0;
      forall k | 0 <= k < |counts| ensures counts[k] >= 1 && strides[k] >= 1 {
        if k > 0 { assert counts[k] == counts[1..][k - 1] && strides[k] == strides[1..][k - 1]; }
      }
    }
  }

  /** An element lies inside the span. */
  lemma {:induction false} OffsetInSpan(counts: seq<nat>, strides: seq<nat>, elem: nat, indices: seq<nat>)
    requires LayoutOk(counts, strides, elem) && IndicesOk(counts, indices)
    ensures Offset(strides, indices) + elem <= Span(counts, strides, elem)
    decreases |counts|
  {
    if counts != [] {
      OffsetInSpan(counts[1..], strides[1..], elem, indices[1..]);
      MulLe(indices[0], counts[0] - 1, strides[0]);
    }
  }

  /** Dividing the address of any byte of an element gives back its indices and the byte. */
  lemma {:induction false} DecodeInvertsOffset(counts: seq<nat>, strides: seq<nat>, elem: nat, indices: seq<nat>,
                                               d: nat)
    requires LayoutOk(counts, strides, elem) && IndicesOk(counts, indices) && d < elem
    ensures Positive(strides)
    ensures Divided(strides, Offset(strides, indices) + d) == indices
    ensures Remainder(strides, Offset(strides, indices) + d) == d
    decreases |counts|
  {
    LayoutFacts(counts, strides, elem);
    if counts != [] {
      var rest := Offset(strides[1..], indices[1..]) + d;
      OffsetInSpan(counts[1..], strides[1..], elem, indices[1..]);
      DivMod(indices[0], strides[0], rest);
      DecodeInvertsOffset(counts[1..], strides[1..], elem, indices[1..], d);
      assert Offset(strides, indices) + d == indices[0] * strides[0] + rest;
      assert indices == [indices[0]] + indices[1..];
    }
  }

  /** Conversely, an offset that decodes to valid indices and a byte below elem is that byte of that element. */
  lemma {:induction false} OffsetInvertsDecode(strides: seq<nat>, offset: nat)
    requires Positive(strides)
    ensures Offset(strides, Divided(strides, offset)) + Remainder(strides, offset) == offset
    decreases |strides|
  {
    if strides != [] {
      var r := Divided(strides, offset);
      assert r[1..] == Divided(strides[1..], offset % strides[0]);
      OffsetInvertsDecode(strides[1..], offset % strides[0]);
      assert offset == (offset / strides[0]) * strides[0] + offset % strides[0];
    }
  }

  lemma {:induction false} FlatInRange(counts: seq<nat>, indices: seq<nat>)
    requires IndicesOk(counts, indices)
    ensures Flat(counts, indices) < Count(counts)
    decreases |counts|
  {
    if counts != [] {
      FlatInRange(counts[1..], indices[1..]);
      MulLe(indices[0], counts[0] - 1, Count(counts[1..]));
      assert counts[0] * Count(counts[1..]) == (counts[0] - 1) * Count(counts[1..]) + Count(counts[1..]);
    }
  }

  lemma {:induction false} UnflattenInvertsFlat(counts: seq<nat>, indices: seq<nat>)
    requires Positive(counts) && IndicesOk(counts, indices)
    ensures Unflatten(counts, Flat(counts, indices)) == indices
    decreases |counts|
  {
    if counts != [] {
      FlatInRange(counts[1..], indices[1..]);
      DivMod(indices[0], Count(counts[1..]), Flat(counts[1..], indices[1..]));
      UnflattenInvertsFlat(counts[1..], indices[1..]);
      assert indices == [indices[0]] + indices[1..];
    }
  }

  lemma {:induction false} FlatInvertsUnflatten(counts: seq<nat>, flat: nat)
    requires Positive(counts) && flat < Count(counts)
    ensures IndicesOk(counts, Unflatten(counts, flat)) && Flat(counts, Unflatten(counts, flat)) == flat
    decreases |counts|
  {
    if counts != [] {
      CountPositive(counts[1..]);
      var c := Count(counts[1..]);
      var r := Unflatten(counts, flat);
      assert r[1..] == Unflatten(counts[1..], flat % c);
      QuotientBelow(flat, c, counts[0]);
      FlatInvertsUnflatten(counts[1..], flat % c);
      forall k | 0 <= k < |counts| ensures r[k] < counts[k] {
        if k > 0 { assert r[k] == r[1..][k - 1] && counts[k] == counts[1..][k - 1]; }
      }
    }
  }

  // ---- Elements and bytes ------------------------------------------------------------------------

  function ElementOffset(counts: seq<nat>, strides: seq<nat>, flat: nat): nat
    requires |counts| == |strides| && Positive(counts)
  {
    Offset(strides, Unflatten(counts, flat))
  }

  /**
   * Addressing round trip, for any number of dimensions: byte d of element flat
   * lies inside the span and decodes to exactly that element, its indices and
   * that byte.
   */
  lemma AddressRoundTrip(counts: seq<nat>, strides: seq<nat>, elem: nat, flat: nat, d: nat)
    requires LayoutOk(counts, strides, elem) && flat < Count(counts) && d < elem
    ensures Positive(counts) && Positive(strides)
    ensures var b := ElementOffset(counts, strides, flat) + d;
      && b < Span(counts, strides, elem)
      && Divided(strides, b) == Unflatten(counts, flat)
      && IndicesOk(counts, Divided(strides, b))
      && Flat(counts, Divided(strides, b)) == flat
      && Remainder(strides, b) == d
  {
    LayoutFacts(counts, strides, elem);
    FlatInvertsUnflatten(counts, flat);
    OffsetInSpan(counts, strides, elem, Unflatten(counts, flat));
    DecodeInvertsOffset(counts, strides, elem, Unflatten(counts, flat), d);
  }

  /** Distinct elements share no byte. */
  lemma ElementsDisjoint(counts: seq<nat>, strides: seq<nat>, elem: nat, f: nat, g: nat, d: nat, e: nat)
    requires LayoutOk(counts, strides, elem) && f < Count(counts) && g < Count(counts) && d < elem && e < elem
    ensures Positive(counts)
    ensures ElementOffset(counts, strides, f) + d == ElementOffset(counts, strides, g) + e ==> f == g && d == e
  {
    AddressRoundTrip(counts, strides, elem, f, d);
    AddressRoundTrip(counts, strides, elem, g, e);
  }

  /** Where an element starts, from its outermost index and its place inside that. */
  lemma OuterAndInner(counts: seq<nat>, strides: seq<nat>, elem: nat, flat: nat)
    requires LayoutOk(counts, strides, elem) && counts != [] && flat < Count(counts)
    ensures Positive(counts) && Count(counts[1..]) >= 1
    ensures var c := Count(counts[1..]);
      && flat / c < counts[0] && flat % c < c && flat == (flat / c) * c + flat % c
      && ElementOffset(counts, strides, flat) ==
         (flat / c) * strides[0] + ElementOffset(counts[1..], strides[1..], flat % c)
      && ElementOffset(counts[1..], strides[1..], flat % c) + elem <= strides[0]
  {
    LayoutFacts(counts, strides, elem);
    CountPositive(counts[1..]);
    var c := Count(counts[1..]);
    QuotientBelow(flat, c, counts[0]);
    AddressRoundTrip(counts[1..], strides[1..], elem, flat % c, elem - 1);
    assert Unflatten(counts, flat)[1..] == Unflatten(counts[1..], flat % c);
  }

  /** Elements lie in memory in the order of their row-major numbers, none before the end of the one before. */
  lemma {:induction false} OffsetsIncrease(counts: seq<nat>, strides: seq<nat>, elem: nat, f: nat, g: nat)
    requires LayoutOk(counts, strides, elem) && f < g < Count(counts)
    ensures Positive(counts) && ElementOffset(counts, strides, f) + elem <= ElementOffset(counts, strides, g)
    decreases |counts|
  {
    OuterAndInner(counts, strides, elem, f);
    OuterAndInner(counts, strides, elem, g);
    var c := Count(counts[1..]);
    var i, j, a, b := f / c, g / c, f % c, g % c;
    OuterOrder(i, j, a, b, c);
    if i == j {
      OffsetsIncrease(counts[1..], strides[1..], elem, a, b);
    } else {
      OuterBelow(i, j, strides[0], ElementOffset(counts[1..], strides[1..], a) + elem);
    }
  }

  lemma OuterOrder(i: nat, j: nat, a: nat, b: nat, c: nat)
    requires a < c && b < c && i * c + a < j * c + b
    ensures i < j || (i == j && a < b)
  {
    if i > j { MulLe(j + 1, i, c); }
  }

  lemma OuterBelow(i: nat, j: nat, stride: nat, inner: nat)
    requires i < j && inner <= stride
    ensures i * stride + inner <= j * stride
  {
    MulLe(i + 1, j, stride);
    MulLe(i, j, stride);
  }

  /** The span is exact: the first element starts at 0 and the last one ends there. */
  lemma {:induction false} SpanIsExact(counts: seq<nat>, strides: seq<nat>, elem: nat)
    requires LayoutOk(counts, strides, elem)
    ensures Positive(counts) && Count(counts) >= 1 && ElementOffset(counts, strides, 0) == 0
    ensures ElementOffset(counts, strides, Count(counts) - 1) + elem == Span(counts, strides, elem)
    decreases |counts|
  {
    LayoutFacts(counts, strides, elem);
    CountPositive(counts);
    if counts != [] {
      var c := Count(counts[1..]);
      SpanIsExact(counts[1..], strides[1..], elem);
      OuterAndInner(counts, strides, elem, 0);
      OuterAndInner(counts, strides, elem, Count(counts) - 1);
      DivMod(0, c, 0);
      DivMod(counts[0] - 1, c, c - 1);
      assert Count(counts) - 1 == (counts[0] - 1) * c + (c - 1);
    }
  }

  /** Does the byte at this offset belong to element flat? */
  ghost predicate InElement(counts: seq<nat>, strides: seq<nat>, elem: nat, flat: nat, b: nat)
    requires |counts| == |strides| && Positive(counts)
  {
    flat < Count(counts) && ElementOffset(counts, strides, flat) <= b < ElementOffset(counts, strides, flat) + elem
  }

  /** Does it belong to any? */
  ghost predicate IsElementByte(counts: seq<nat>, strides: seq<nat>, elem: nat, b: nat)
    requires |counts| == |strides| && Positive(counts)
  {
    exists flat: nat :: InElement(counts, strides, elem, flat, b)
  }

  /** The bytes of elements are those that decode in range with a small remainder. */
  lemma ElementByteIff(counts: seq<nat>, strides: seq<nat>, elem: nat, b: nat)
    requires LayoutOk(counts, strides, elem)
    ensures Positive(counts) && Positive(strides)
    ensures IsElementByte(counts, strides, elem, b) <==>
      IndicesOk(counts, Divided(strides, b)) && Remainder(strides, b) < elem
    ensures IsElementByte(counts, strides, elem, b) ==> b < Span(counts, strides, elem)
  {
    LayoutFacts(counts, strides, elem);
    if IsElementByte(counts, strides, elem, b) {
      var flat: nat :| InElement(counts, strides, elem, flat, b);
      AddressRoundTrip(counts, strides, elem, flat, b - ElementOffset(counts, strides, flat));
    }
    DecodedElement(counts, strides, elem, b);
  }

  lemma {:induction false} CountWithinSpan(counts: seq<nat>, strides: seq<nat>, elem: nat)
    requires LayoutOk(counts, strides, elem)
    ensures Count(counts) <= Span(counts, strides, elem)
    decreases |counts|
  {
    if counts != [] {
      CountWithinSpan(counts[1..], strides[1..], elem);
      var c, s := Count(counts[1..]), strides[0];
      assert counts[0] * c == (counts[0] - 1) * c + c;
      assert (counts[0] - 1) * c <= (counts[0] - 1) * s by { MulLe(c, s, counts[0] - 1); }
    }
  }

  lemma {:induction false} TailSpan(counts: seq<nat>, strides: seq<nat>, elem: nat, k: nat)
    requires LayoutOk(counts, strides, elem) && k <= |counts|
    ensures LayoutOk(counts[k..], strides[k..], elem)
    ensures Span(counts[k..], strides[k..], elem) <= Span(counts, strides, elem)
    decreases k
  {
    if k == 0 {
      assert counts[0..] == counts && strides[0..] == strides;
    } else {
      TailSpan(counts[1..], strides[1..], elem, k - 1);
      assert counts[1..][k - 1..] == counts[k..] && strides[1..][k - 1..] == strides[k..];
      MulLe(0, counts[0] - 1, strides[0]);
    }
  }

  /**
   * The span bounds everything the address arithmetic computes: the number of
   * elements, every divisor, and the end of every element. When the span fits in
   * 64 bits, so do they.
   */
  lemma NothingExceedsSpan(counts: seq<nat>, strides: seq<nat>, elem: nat, div: seq<nat>)
    requires LayoutOk(counts, strides, elem) && RowMajor(counts, div)
    ensures Positive(counts) && Count(counts) <= Span(counts, strides, elem)
    ensures forall k :: 0 <= k < |div| ==> div[k] <= Span(counts, strides, elem)
    ensures forall flat: nat :: flat < Count(counts) ==>
      ElementOffset(counts, strides, flat) + elem <= Span(counts, strides, elem)
  {
    CountWithinSpan(counts, strides, elem);
    LayoutFacts(counts, strides, elem);
    forall k | 0 <= k < |div| ensures div[k] <= Span(counts, strides, elem) {
      TailSpan(counts, strides, elem, k + 1);
      CountWithinSpan(counts[k + 1..], strides[k + 1..], elem);
    }
    forall flat: nat | flat < Count(counts)
      ensures ElementOffset(counts, strides, flat) + elem <= Span(counts, strides, elem)
    {
      AddressRoundTrip(counts, strides, elem, flat, elem - 1);
    }
  }

  // ---- The loops of the source -----------------------------------------------------------------------

  lemma Tail<T>(xs: seq<T>, k: nat)
    requires k < |xs|
    ensures xs[k..][0] == xs[k] && xs[k..][1..] == xs[k + 1..]
  {
  }

  /** Divisors used to number elements: entry k is the number of elements of the dimensions inside k. */
  ghost predicate RowMajor(counts: seq<nat>, div: seq<nat>) {
    |div| == |counts| && forall k :: 0 <= k < |counts| ==> div[k] == Count(counts[k + 1..])
  }

  method RowMajorDiv(counts: seq<nat>) returns (div: seq<nat>)
    requires counts != []
    ensures RowMajor(counts, div)
  {
    div := seq(|counts|, _ => 1);
    var k := |counts|;
    while k > 1
      invariant |div| == |counts| && 1 <= k <= |counts|
      invariant forall j :: k - 1 <= j < |counts| ==> div[j] == Count(counts[j + 1..])
      decreases k
    {
      k := k - 1;
      Tail(counts, k);
      div := div[k - 1 := div[k] * counts[k]];
    }
  }

  /** Zero for a bank without elements or with mismatched dimensions. */
  method ComputeTotalSpan(counts: seq<nat>, strides: seq<nat>, elem: nat) returns (span: nat)
    ensures counts == [] || |counts| != |strides| || 0 in counts ==> span == 0
    ensures counts != [] && |counts| == |strides| && 0 !in counts ==> span == Span(counts, strides, elem)
  {
    if counts == [] || |counts| != |strides| { return 0; }
    span := 0;
    for k := 0 to |counts|
      invariant forall j :: 0 <= j < k ==> counts[j] != 0
      invariant span + Span(counts[k..], strides[k..], elem) == Span(counts, strides, elem)
    {
      if counts[k] == 0 { return 0; }
      Tail(counts, k);
      Tail(strides, k);
      MulLe(0, counts[k] - 1, strides[k]);
      span := span + (counts[k] - 1) * strides[k];
    }
    span := span + elem;
  }

  /** Each stride covers the span of what is inside it. */
  ghost predicate StridesCover(counts: seq<nat>, strides: seq<nat>, elem: nat)
    requires |counts| == |strides|
  {
    forall k :: 0 <= k < |counts| ==> strides[k] >= Span(counts[k + 1..], strides[k + 1..], elem)
  }

  /** The layout is sound exactly when each stride covers the span of what is inside it. */
  lemma {:induction false} LayoutOkIff(counts: seq<nat>, strides: seq<nat>, elem: nat)
    requires elem >= 1 && |counts| == |strides| && Positive(counts)
    ensures LayoutOk(counts, strides, elem) <==> StridesCover(counts, strides, elem)
    decreases |counts|
  {
    if counts != [] {
      var cs, ss := counts[1..], strides[1..];
      LayoutOkIff(cs, ss, elem);
      assert forall k :: 0 <= k < |cs| ==>
        cs[k + 1..] == counts[k + 2..] && ss[k + 1..] == strides[k + 2..] && ss[k] == strides[k + 1];
      if StridesCover(counts, strides, elem) {
        forall k | 0 <= k < |cs| ensures ss[k] >= Span(cs[k + 1..], ss[k + 1..], elem) {
          assert strides[k + 1] >= Span(counts[k + 1 + 1..], strides[k + 1 + 1..], elem);
        }
      }
      if LayoutOk(counts, strides, elem) {
        forall k | 0 <= k < |counts| ensures strides[k] >= Span(counts[k + 1..], strides[k + 1..], elem) {
          if k > 0 { assert ss[k - 1] >= Span(cs[k - 1 + 1..], ss[k - 1 + 1..], elem); }
        }
      }
    }
  }

  method InnerSpan(counts: seq<nat>, strides: seq<nat>, elem: nat, k: nat) returns (inner: int)
    requires |counts| == |strides| && k < |strides| && Positive(counts[k + 1..])
    ensures inner == Span(counts[k + 1..], strides[k + 1..], elem)
  {
    inner := 0;
    for j := k + 1 to |strides|
      invariant inner + Span(counts[j..], strides[j..], elem) == Span(counts[k + 1..], strides[k + 1..], elem)
    {
      Tail(counts, j);
      Tail(strides, j);
      inner := inner + (counts[j] - 1) * strides[j];
    }
    inner := inner + elem;
  }

  lemma PositiveTail(counts: seq<nat>, k: nat)
    requires k < |counts| && Positive(counts[1..])
    ensures Positive(counts[k + 1..])
  {
    assert counts[k + 1..] == counts[1..][k..];
  }

  /** The stride checks both constructors make. */
  method CheckLayout(counts: seq<nat>, strides: seq<nat>, elem: nat) returns (ok: bool)
    requires elem >= 1 && |counts| == |strides| && counts != [] && Positive(counts[1..])
    ensures ok <==> StridesCover(counts, strides, elem)
  {
    for k := 0 to |strides|
      invariant forall i :: 0 <= i < k ==> strides[i] >= Span(counts[i + 1..], strides[i + 1..], elem)
    {
      PositiveTail(counts, k);
      var inner := InnerSpan(counts, strides, elem, k);
      if strides[k] < inner { return false; }
    }
    ok := true;
  }

  /** The constructor for any number of dimensions accepts exactly the sound layouts. */
  method ConstructNd(counts: seq<nat>, strides: seq<nat>, elem: nat) returns (ok: bool)
    requires elem >= 1
    ensures ok <==> counts != [] && LayoutOk(counts, strides, elem)
  {
    if |counts| != |strides| || counts == [] { return false; }
    for k := 0 to |counts|
      invariant forall j :: 0 <= j < k ==> counts[j] >= 1
    {
      if counts[k] == 0 {
        if LayoutOk(counts, strides, elem) { LayoutFacts(counts, strides, elem); }
        return false;
      }
    }
    LayoutOkIff(counts, strides, elem);
    ok := CheckLayout(counts, strides, elem);
  }

  /** The one-dimensional constructor asks only that elements do not overlap; with elements, the layout is sound. */
  method Construct1d(count: nat, stride: nat, elem: nat) returns (ok: bool)
    requires elem >= 1
    ensures ok <==> stride >= elem
    ensures ok && count >= 1 ==> LayoutOk([count], [stride], elem)
  {
    ok := CheckLayout([count], [stride], elem);
    assert [count][1..] == [] && [stride][1..] == [] && Span([], [], elem) == elem;
    if stride >= elem {
      forall k | 0 <= k < 1 ensures [stride][k] >= Span([count][k + 1..], [stride][k + 1..], elem) { assert k == 0; }
    }
    if count >= 1 { LayoutOkIff([count], [stride], elem); }
  }

  method ByteOffsetFor(counts: seq<nat>, strides: seq<nat>, indices: seq<nat>) returns (r: Outcome<nat>)
    requires |counts| == |strides|
    ensures r.Ok? <==> IndicesOk(counts, indices)
    ensures r.Ok? ==> r.value == Offset(strides, indices)
  {
    if |indices| != |strides| { return Fatal; }
    var off := 0;
    for k := 0 to |indices|
      invariant off + Offset(strides[k..], indices[k..]) == Offset(strides, indices)
      invariant forall j :: 0 <= j < k ==> indices[j] < counts[j]
    {
      if indices[k] >= counts[k] { return Fatal; }
      Tail(strides, k);
      Tail(indices, k);
      off := off + indices[k] * strides[k];
    }
    r := Ok(off);
  }

  method ByteOffsetForFlat(counts: seq<nat>, strides: seq<nat>, div: seq<nat>, flat: nat) returns (r: Outcome<nat>)
    requires |counts| == |strides| && Positive(counts) && RowMajor(counts, div)
    ensures r.Ok? <==> flat < Count(counts)
    ensures r.Ok? ==> r.value == ElementOffset(counts, strides, flat)
  {
    if flat >= Count(counts) { return Fatal; }
    var off, remaining := 0, flat;
    for k := 0 to |counts|
      invariant Positive(counts[k..])
      invariant off + Offset(strides[k..], Unflatten(counts[k..], remaining)) == ElementOffset(counts, strides, flat)
    {
      Tail(counts, k);
      Tail(strides, k);
      CountPositive(counts[k + 1..]);
      var u := Unflatten(counts[k..], remaining);
      assert u[1..] == Unflatten(counts[k + 1..], remaining % div[k]);
      off := off + (remaining / div[k]) * strides[k];
      remaining := remaining % div[k];
    }
    r := Ok(off);
  }

  lemma DividedTail(strides: seq<nat>, k: nat, offset: nat)
    requires Positive(strides) && k < |strides|
    ensures Positive(strides[k..]) && Positive(strides[k + 1..])
    ensures Divided(strides[k..], offset) == [offset / strides[k]] + Divided(strides[k + 1..], offset % strides[k])
    ensures Remainder(strides[k..], offset) == Remainder(strides[k + 1..], offset % strides[k])
  {
    Tail(strides, k);
  }

  /** The dividing loop: the element number when every index is in range, and what remains. */
  method DivideAll(counts: seq<nat>, strides: seq<nat>, div: seq<nat>, offset: nat)
    returns (flat: Option<nat>, remaining: nat)
    requires |counts| == |strides| && Positive(strides) && RowMajor(counts, div)
    ensures flat.Some? <==> IndicesOk(counts, Divided(strides, offset))
    ensures flat.Some? ==>
      flat.value == Flat(counts, Divided(strides, offset)) && remaining == Remainder(strides, offset)
  {
    ghost var all := Divided(strides, offset);
    remaining := offset;
    var f := 0;
    for k := 0 to |strides|
      invariant Positive(strides[k..]) && |all| == |strides|
      invariant all[k..] == Divided(strides[k..], remaining)
      invariant Remainder(strides[k..], remaining) == Remainder(strides, offset)
      invariant forall j :: 0 <= j < k ==> all[j] < counts[j]
      invariant f + Flat(counts[k..], all[k..]) == Flat(counts, all)
    {
      DividedTail(strides, k, remaining);
      Tail(counts, k);
      Tail(all, k);
      var idx := remaining / strides[k];
      remaining := remaining % strides[k];
      assert all[k] == idx;
      if idx >= counts[k] { return None, remaining; }
      f := f + idx * div[k];
    }
    flat := Some(f);
  }

  /** try_flat_index_for_byte_offset: which element the byte belongs to, if any. */
  method TryFlatIndex(counts: seq<nat>, strides: seq<nat>, elem: nat, div: seq<nat>, offset: nat)
    returns (flat: Option<nat>)
    requires LayoutOk(counts, strides, elem) && RowMajor(counts, div)
    ensures Positive(counts)
    ensures flat.Some? <==> IsElementByte(counts, strides, elem, offset)
    ensures flat.Some? ==> InElement(counts, strides, elem, flat.value, offset)
  {
    LayoutFacts(counts, strides, elem);
    ElementByteIff(counts, strides, elem, offset);
    var f, remaining := DivideAll(counts, strides, div, offset);
    if f.None? || remaining >= elem { return None; }
    DecodedElement(counts, strides, elem, offset);
    flat := f;
  }

  lemma DecodedElement(counts: seq<nat>, strides: seq<nat>, elem: nat, b: nat)
    requires LayoutOk(counts, strides, elem)
    ensures Positive(counts) && Positive(strides)
    ensures IndicesOk(counts, Divided(strides, b)) && Remainder(strides, b) < elem ==>
      InElement(counts, strides, elem, Flat(counts, Divided(strides, b)), b)
  {
    LayoutFacts(counts, strides, elem);
    var indices := Divided(strides, b);
    if IndicesOk(counts, indices) && Remainder(strides, b) < elem {
      OffsetInvertsDecode(strides, b);
      UnflattenInvertsFlat(counts, indices);
      FlatInRange(counts, indices);
    }
  }

  // ---- The router's claim -----------------------------------------------------------------------------

  /** A target as the router sees it; `dims` empty selects the one-dimensional form. */
  datatype TargetInfo = TargetInfo(address: nat, size: nat, stride: nat, elemSize: nat, dimStrides: seq<nat>,
                                   dimCounts: seq<nat>)

  method Claims(t: TargetInfo, addr: nat) returns (claimed: bool)
    requires |t.dimStrides| == |t.dimCounts| && Positive(t.dimStrides)
    ensures claimed <==>
      && t.address <= addr < t.address + t.size
      && (if t.dimStrides != []
          then IndicesOk(t.dimCounts, Divided(t.dimStrides, addr - t.address)) &&
            Remainder(t.dimStrides, addr - t.address) < t.elemSize
          else t.stride == 0 || (addr - t.address) % t.stride < t.elemSize)
  {
    if addr < t.address || addr - t.address >= t.size { return false; }
    if t.dimStrides != [] {
      var r: nat := addr - t.address;
      ghost var all := Divided(t.dimStrides, r);
      for k := 0 to |t.dimStrides|
        invariant Positive(t.dimStrides[k..]) && |all| == |t.dimStrides|
        invariant all[k..] == Divided(t.dimStrides[k..], r)
        invariant Remainder(t.dimStrides[k..], r) == Remainder(t.dimStrides, addr - t.address)
        invariant forall j :: 0 <= j < k ==> all[j] < t.dimCounts[j]
      {
        Tail(t.dimStrides, k);
        Tail(all, k);
        var idx := r / t.dimStrides[k];
        assert all[k] == idx;
        if idx >= t.dimCounts[k] { return false; }
        r := r % t.dimStrides[k];
      }
      return r < t.elemSize;
    }
    if t.stride == 0 { return true; }
    return (addr - t.address) % t.stride < t.elemSize;
  }

  /** The router's view of a bank, N-dimensional or, for one dimension, by the one-dimensional fields. */
  function BankTarget(base: nat, counts: seq<nat>, strides: seq<nat>, elem: nat): TargetInfo
    requires LayoutOk(counts, strides, elem)
  {
    LayoutFacts(counts, strides, elem);
    TargetInfo(base, Span(counts, strides, elem), 0, elem, strides, counts)
  }

  function BankTarget1(base: nat, count: nat, stride: nat, elem: nat): TargetInfo
    requires LayoutOk([count], [stride], elem)
  {
    LayoutFacts([count], [stride], elem);
    TargetInfo(base, Span([count], [stride], elem), stride, elem, [], [])
  }

  /** The router claims exactly the bytes of elements, whichever of its two forms describes the bank. */
  method BankClaims(base: nat, counts: seq<nat>, strides: seq<nat>, elem: nat, addr: nat) returns (nd: bool, oneD: bool)
    requires LayoutOk(counts, strides, elem) && counts != []
    ensures Positive(counts)
    ensures nd <==> addr >= base && IsElementByte(counts, strides, elem, addr - base)
    ensures |counts| == 1 ==> oneD == nd
  {
    LayoutFacts(counts, strides, elem);
    nd := Claims(BankTarget(base, counts, strides, elem), addr);
    if addr >= base { ElementByteIff(counts, strides, elem, addr - base); }
    oneD := nd;
    if |counts| == 1 {
      assert counts == [counts[0]] && strides == [strides[0]];
      oneD := Claims(BankTarget1(base, counts[0], strides[0], elem), addr);
      if addr >= base { OneDimension(counts[0], strides[0], elem, addr - base); }
    }
  }

  lemma OneDimension(count: nat, stride: nat, elem: nat, b: nat)
    requires LayoutOk([count], [stride], elem)
    ensures stride >= 1
    ensures Divided([stride], b) == [b / stride] && Remainder([stride], b) == b % stride
    ensures b < Span([count], [stride], elem) && b % stride < elem ==> b / stride < count
  {
    LayoutFacts([count], [stride], elem);
    assert [stride][1..] == [] && [count][1..] == [];
    assert Divided([stride], b) == [b / stride] + Divided([], b % stride);
    assert Span([count], [stride], elem) == (count - 1) * stride + elem;
    assert b == (b / stride) * stride + b % stride;
    if b / stride >= count {
      MulLe(count, b / stride, stride);
      assert count * stride == (count - 1) * stride + stride;
      assert stride >= elem;
    }
  }
}
