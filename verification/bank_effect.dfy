/**
 * What writes to a bank do, bit by bit and without reference to how they are
 * computed: which bits of which bytes are new, which are kept, and exactly which
 * masked writes are accepted.
 */
module BankEffect {
  import opened Arithmetic
  import opened Basics
  import opened BankLayout
  import opened BankMask
  import opened BankSpec

  /** The stored byte has the new bits where the mask has ones, and the old ones where it has zeros. */
  predicate Bits(stored: Byte, new_: Byte, old_: Byte, mask: Byte) {
    stored & mask == new_ & mask && stored & !mask == old_ & !mask
  }

  lemma Merge1Bits(n: Byte, o: Byte, m: Byte)
    ensures Bits(Merge1(n, o, m), n, o, m)
  {
  }

  /** The bits decide the byte. */
  lemma BitsDecide(x: Byte, n: Byte, o: Byte, m: Byte)
    ensures Bits(x, n, o, m) <==> x == Merge1(n, o, m)
  {
    assert x == (x & m) | (x & !m);
  }

  /** The mask in force for byte d of element f. */
  ghost function MaskNamed(c: Config, f: nat, d: nat): Byte
    requires c.Ok() && d < c.elem
  {
    if f in c.elementMasks then c.elementMasks[f][d] else c.mask[d]
  }

  /** No bit is protected. */
  ghost predicate Plain(c: Config) { c.elementMasks == map[] && forall d :: 0 <= d < |c.mask| ==> c.mask[d] == 0xFF }

  lemma {:induction false} PlainIff(c: Config)
    requires c.Ok()
    ensures Plain(c) <==> c.Trivial()
  {
    if Plain(c) { assert c.mask == FullMask(c.elem); }
  }

  // ---- Bulk writes -----------------------------------------------------------------------------

  /**
   * Elements idx, ..., idx + |src| - 1 have taken the new bits under their masks,
   * or all of them when masks are not used, and no other byte has changed.
   */
  ghost predicate SetEffect(c: Config, was: seq<Byte>, now: seq<Byte>, idx: nat, src: seq<seq<Byte>>, useMask: bool)
    requires c.Ok() && SrcOk(c, src)
  {
    && |now| == |was|
    && (forall i: nat, d: nat :: i < |src| && d < c.elem ==> SetBits(c, was, now, idx, src, useMask, i, d))
    && (forall b :: 0 <= b < |was| && !InRow(c, idx, |src|, b) ==> now[b] == was[b])
  }

  ghost predicate SetBits(c: Config, was: seq<Byte>, now: seq<Byte>, idx: nat, src: seq<seq<Byte>>, useMask: bool,
                          i: nat, d: nat)
    requires c.Ok() && SrcOk(c, src) && i < |src| && d < c.elem && |now| == |was|
  {
    var b := c.Off(idx + i) + d;
    b < |was| && Bits(now[b], src[i][d], was[b], if useMask then MaskNamed(c, idx + i, d) else 0xFF)
  }

  /** Byte b belongs to one of n elements from idx on. */
  ghost predicate InRow(c: Config, idx: nat, n: nat, b: nat)
    requires c.Ok()
  {
    exists f: nat :: idx <= f < idx + n && c.Has(f, b)
  }

  lemma {:induction false} AfterSetIs(c: Config, was: seq<Byte>, idx: nat, src: seq<seq<Byte>>, useMask: bool)
    requires c.Ok() && SrcOk(c, src) && (src == [] || idx + |src| <= Count(c.counts))
    requires Span(c.counts, c.strides, c.elem) <= |was|
    ensures SetEffect(c, was, AfterSet(c, was, idx, src, |src|, useMask), idx, src, useMask)
  {
    var now := AfterSet(c, was, idx, src, |src|, useMask);
    forall i: nat, d: nat | i < |src| && d < c.elem ensures SetBits(c, was, now, idx, src, useMask, i, d) {
      AfterSetAt(c, was, idx, src, useMask, i, d);
    }
  }

  lemma {:induction false} AfterSetAt(c: Config, was: seq<Byte>, idx: nat, src: seq<seq<Byte>>, useMask: bool, i: nat,
                                      d: nat)
    requires c.Ok() && SrcOk(c, src) && idx + |src| <= Count(c.counts) && i < |src| && d < c.elem
    requires Span(c.counts, c.strides, c.elem) <= |was|
    ensures SetBits(c, was, AfterSet(c, was, idx, src, |src|, useMask), idx, src, useMask, i, d)
  {
    var f := idx + i;
    var b := c.Off(f) + d;
    ElementFits(c, f);
    ByteOfElement(c, f, b);
    Merge1Bits(src[i][d], was[b], MaskByte(c, f, d, useMask));
  }

  // ---- Bus writes -------------------------------------------------------------------------------

  /** The len bytes from off on are exactly those of n elements from f on; several only in a one-dimensional bank. */
  ghost predicate Covers(c: Config, off: nat, len: nat, f: nat, n: nat)
    requires c.Ok()
  {
    && 1 <= n && f + n <= Count(c.counts) && (n == 1 || |c.counts| == 1)
    && forall b: nat :: off <= b < off + len <==> InRow(c, f, n, b)
  }

  ghost predicate CoversWhole(c: Config, off: nat, len: nat)
    requires c.Ok()
  {
    exists f: nat, n: nat :: Covers(c, off, len, f, n)
  }

  /** Byte k of a maskable write belongs to element f + k / elem. */
  lemma {:induction false} MaskableByte(c: Config, off: nat, len: nat, f: nat, k: nat)
    requires c.Ok() && Maskable(c, off, len, f) && k < len
    ensures k / c.elem < len / c.elem
    ensures c.Has(f + k / c.elem, off + k) && off + k == c.Off(f + k / c.elem) + k % c.elem
  {
    var i := k / c.elem;
    ExactDivision(len, c.elem);
    QuotientBelow(k, c.elem, len / c.elem);
    MaskableElements(c, off, len, f, i);
    assert k == i * c.elem + k % c.elem;
  }

  lemma {:induction false} ElementInRow(c: Config, idx: nat, n: nat, f: nat, b: nat)
    requires c.Ok() && idx <= f < idx + n && c.Has(f, b)
    ensures InRow(c, idx, n, b)
  {
  }

  lemma {:induction false} RowInMaskable(c: Config, off: nat, len: nat, f: nat, i: nat, b: nat)
    requires c.Ok() && Maskable(c, off, len, f) && i < len / c.elem && c.Has(f + i, b)
    ensures off <= b < off + len
  {
    MaskableElements(c, off, len, f, i);
    var at := c.Off(f + i);
    assert at <= b < at + c.elem;
  }

  lemma {:induction false} MaskableWhere(c: Config, off: nat, len: nat, f: nat, k: nat) returns (i: nat)
    requires c.Ok() && Maskable(c, off, len, f) && k < len
    ensures i < len / c.elem && c.Has(f + i, off + k)
  {
    MaskableByte(c, off, len, f, k);
    i := k / c.elem;
  }

  lemma {:induction false} MaskableInRow(c: Config, off: nat, len: nat, f: nat, b: nat)
    requires c.Ok() && Maskable(c, off, len, f) && off <= b < off + len
    ensures InRow(c, f, len / c.elem, b)
  {
    var i := MaskableWhere(c, off, len, f, b - off);
    ElementInRow(c, f, len / c.elem, f + i, b);
  }

  lemma {:induction false} MaskableCovers(c: Config, off: nat, len: nat, f: nat)
    requires c.Ok() && Maskable(c, off, len, f)
    ensures Covers(c, off, len, f, len / c.elem)
  {
    ExactDivision(len, c.elem);
    MaskableElements(c, off, len, f, len / c.elem - 1);
    var n := len / c.elem;
    forall b: nat | off <= b < off + len ensures InRow(c, f, n, b) { MaskableInRow(c, off, len, f, b); }
    forall b: nat | InRow(c, f, n, b) ensures off <= b < off + len {
      var e: nat :| f <= e < f + n && c.Has(e, b);
      RowInMaskable(c, off, len, f, e - f, b);
    }
  }

  lemma {:induction false} RowOfOne(c: Config, off: nat, len: nat, f: nat)
    requires c.Ok() && Covers(c, off, len, f, 1)
    ensures off == c.Off(f) && len == c.elem
  {
    var at := c.Off(f);
    assert c.Has(f, at) && c.Has(f, at + c.elem - 1);
    assert InRow(c, f, 1, at) && InRow(c, f, 1, at + c.elem - 1);
    assert off <= off < off + len;
    assert InRow(c, f, 1, off) && InRow(c, f, 1, off + len - 1);
  }

  /** Where the elements of a one-dimensional bank start. */
  lemma {:induction false} ElementStarts(c: Config, f: nat, e: nat)
    requires c.Ok() && |c.counts| == 1 && f <= e < Count(c.counts)
    ensures c.strides[0] >= c.elem >= 1 && c.Off(e) == c.Off(f) + (e - f) * c.strides[0]
  {
    OneDimOffset(c, f);
    OneDimOffset(c, e);
    LayoutFacts(c.counts, c.strides, c.elem);
    assert c.strides[1..] == [] && c.counts[1..] == [];
    assert e * c.strides[0] == f * c.strides[0] + (e - f) * c.strides[0];
  }

  /** A gap between two elements would be a byte of the write that belongs to none. */
  lemma {:induction false} RowIsDense(c: Config, off: nat, len: nat, f: nat, n: nat)
    requires c.Ok() && Covers(c, off, len, f, n) && n >= 2
    ensures c.strides[0] == c.elem
  {
    var at, stride := c.Off(f), c.strides[0];
    ElementStarts(c, f, f + 1);
    assert c.Has(f, at) && c.Has(f + 1, at + stride);
    assert InRow(c, f, n, at) && InRow(c, f, n, at + stride);
    if stride > c.elem {
      var b := at + c.elem;
      assert InRow(c, f, n, b);
      var e: nat :| f <= e < f + n && c.Has(e, b);
      ElementStarts(c, f, e);
      if e > f { MulLe(1, e - f, stride); }
      assert false;
    }
  }

  lemma {:induction false} RowEnds(c: Config, off: nat, len: nat, f: nat, n: nat)
    requires c.Ok() && Covers(c, off, len, f, n) && n >= 2 && c.strides[0] == c.elem
    ensures off == c.Off(f) && len == n * c.elem
  {
    var at, end := c.Off(f), c.Off(f) + n * c.elem - 1;
    ElementStarts(c, f, f + n - 1);
    MulLe(n - 1, n, c.elem);
    assert c.Off(f + n - 1) + c.elem - 1 == end;
    assert c.Has(f, at) && c.Has(f + n - 1, end);
    assert InRow(c, f, n, at) && InRow(c, f, n, end);
    RowInside(c, f, n, off);
    RowInside(c, f, n, off + len - 1);
  }

  lemma {:induction false} PieceOfRow(start: nat, q: nat, n: nat, elem: nat, b: nat)
    requires q < n && start + q * elem <= b < start + q * elem + elem
    ensures start <= b < start + n * elem
  {
    MulLe(q, q + 1, elem);
    MulLe(q + 1, n, elem);
  }

  lemma {:induction false} RowInside(c: Config, f: nat, n: nat, b: nat)
    requires c.Ok() && n >= 2 && f + n <= Count(c.counts) && |c.counts| == 1 && c.strides[0] == c.elem
    requires InRow(c, f, n, b)
    ensures c.Off(f) <= b < c.Off(f) + n * c.elem
  {
    var e: nat :| f <= e < f + n && c.Has(e, b);
    ElementStarts(c, f, e);
    PieceOfRow(c.Off(f), e - f, n, c.elem, b);
  }

  lemma {:induction false} CoversIsMaskable(c: Config, off: nat, len: nat, f: nat, n: nat)
    requires c.Ok() && Covers(c, off, len, f, n)
    ensures Maskable(c, off, len, f)
  {
    if n == 1 {
      RowOfOne(c, off, len, f);
    } else {
      RowIsDense(c, off, len, f, n);
      RowEnds(c, off, len, f, n);
      DivMod(n, c.elem, 0);
    }
  }

  /** A masked write may go ahead exactly when it covers whole elements. */
  lemma {:induction false} MaskableIff(c: Config, off: nat, len: nat)
    requires c.Ok()
    ensures CoversWhole(c, off, len) <==> exists f: nat :: Maskable(c, off, len, f)
  {
    if f: nat :| Maskable(c, off, len, f) { MaskableCovers(c, off, len, f); }
    if CoversWhole(c, off, len) {
      var f: nat, n: nat :| Covers(c, off, len, f, n);
      CoversIsMaskable(c, off, len, f, n);
    }
  }

  /**
   * Every byte from off on that belongs to an element has the new bits under
   * that element's mask and the old ones elsewhere.
   */
  ghost predicate MaskedBits(c: Config, off: nat, stored: seq<Byte>, new_: seq<Byte>, old_: seq<Byte>)
    requires c.Ok() && |stored| == |new_| == |old_|
  {
    forall f: nat, d: nat :: f < Count(c.counts) && d < c.elem && off <= c.Off(f) + d < off + |new_| ==>
      var k := c.Off(f) + d - off;
      Bits(stored[k], new_[k], old_[k], MaskNamed(c, f, d))
  }

  lemma {:induction false} MergedBits(c: Config, off: nat, new_: seq<Byte>, old_: seq<Byte>, g: nat)
    requires c.Ok() && |new_| == |old_| && Maskable(c, off, |new_|, g)
    ensures MaskedBits(c, off, Merged(c, new_, old_, g), new_, old_)
  {
    forall f: nat, d: nat | f < Count(c.counts) && d < c.elem && off <= c.Off(f) + d < off + |new_|
      ensures var k := c.Off(f) + d - off;
        Bits(Merged(c, new_, old_, g)[k], new_[k], old_[k], MaskNamed(c, f, d))
    {
      var k := c.Off(f) + d - off;
      MaskableByte(c, off, |new_|, g, k);
      assert c.Has(f, off + k);
      HasUnique(c, f, g + k / c.elem, off + k);
      Merge1Bits(new_[k], old_[k], MaskAt(c, g, k));
    }
  }

  /**
   * A whole bus write. It is accepted exactly when nothing is protected or it
   * covers whole elements, and otherwise changes nothing. Accepted, it stores
   * what the transaction carries back, which is the data itself without
   * protected bits and their masked merge with them, and touches no other byte.
   */
  ghost predicate BusEffect(c: Config, was: seq<Byte>, now: seq<Byte>, off: nat, new_: seq<Byte>, back: seq<Byte>,
                            ok: bool)
    requires c.Ok() && off + |new_| <= |was|
  {
    && |now| == |was| && |back| == |new_|
    && (ok <==> Plain(c) || CoversWhole(c, off, |new_|))
    && (!ok ==> now == was && back == new_)
    && (ok ==> forall b :: 0 <= b < |was| ==> now[b] == if off <= b < off + |new_| then back[b - off] else was[b])
    && (ok && Plain(c) ==> back == new_)
    && (ok && !Plain(c) ==> MaskedBits(c, off, back, new_, was[off..off + |new_|]))
  }

  lemma {:induction false} BusEffectIs(c: Config, was: seq<Byte>, now: seq<Byte>, off: nat, new_: seq<Byte>,
                                       back: seq<Byte>, ok: bool)
    requires c.Ok() && off + |new_| <= |was| && |now| == |was| && |back| == |new_|
    requires c.Trivial() ==> ok && back == new_
    requires !c.Trivial() ==> (ok <==> exists f: nat :: Maskable(c, off, |new_|, f))
    requires !ok ==> now == was && back == new_
    requires !c.Trivial() ==> forall f: nat :: Maskable(c, off, |new_|, f) ==>
      back == Merged(c, new_, Bytes(was, off, |new_|), f)
    requires ok ==> now == Patched(was, off, back)
    ensures BusEffect(c, was, now, off, new_, back, ok)
  {
    PlainIff(c);
    MaskableIff(c, off, |new_|);
    assert Bytes(was, off, |new_|) == was[off..off + |new_|];
    if ok && !c.Trivial() {
      var f: nat :| Maskable(c, off, |new_|, f);
      MergedBits(c, off, new_, Bytes(was, off, |new_|), f);
    }
  }

  /** One element's worth of bytes at a raw offset, under the mask the offset selects. */
  ghost predicate RawBits(c: Config, was: seq<Byte>, now: seq<Byte>, off: nat, src: seq<Byte>, useMask: bool)
    requires c.Ok() && |src| == c.elem && off + c.elem <= |was|
  {
    && |now| == |was|
    && (forall b :: 0 <= b < |was| && !(off <= b < off + c.elem) ==> now[b] == was[b])
    && forall d: nat :: d < c.elem ==>
         if useMask then RawMasked(c, off, d, now[off + d], src[d], was[off + d]) else now[off + d] == src[d]
  }

  ghost predicate RawMasked(c: Config, off: nat, d: nat, stored: Byte, new_: Byte, old_: Byte)
    requires c.Ok() && d < c.elem
  {
    && (forall f: nat :: c.Has(f, off) ==> Bits(stored, new_, old_, MaskNamed(c, f, d)))
    && ((forall f: nat :: !c.Has(f, off)) ==> Bits(stored, new_, old_, c.mask[d]))
  }

  lemma {:induction false} RawMaskedIs(c: Config, off: nat, d: nat, new_: Byte, old_: Byte)
    requires c.Ok() && d < c.elem
    ensures RawMasked(c, off, d, Merge1(new_, old_, MaskFor(c, off)[d]), new_, old_)
  {
    Merge1Bits(new_, old_, MaskFor(c, off)[d]);
  }

  lemma {:induction false} RawBitsAre(c: Config, was: seq<Byte>, off: nat, src: seq<Byte>, useMask: bool)
    requires c.Ok() && |src| == c.elem && off + c.elem <= |was|
    ensures RawBits(c, was, RawWritten(c, was, off, src, useMask), off, src, useMask)
  {
    if useMask {
      forall d: nat | d < c.elem
        ensures RawMasked(c, off, d, Merge1(src[d], was[off + d], MaskFor(c, off)[d]), src[d], was[off + d])
      {
        RawMaskedIs(c, off, d, src[d], was[off + d]);
      }
    } else {
      MergeFull(src, Bytes(was, off, c.elem));
    }
  }
}
