/**
 * Masked writes to a register bank. Elements and masks are sequences of bytes,
 * as many as the element type has; bitwise operations act byte by byte.
 */
module BankMask {
  import opened Basics
  import opened BankLayout

  type Byte = bv8

  function Merge1(new_: Byte, old_: Byte, mask: Byte): Byte { (new_ & mask) | (old_ & !mask) }

  /** write_with_mask on one element. */
  function Merge(new_: seq<Byte>, old_: seq<Byte>, mask: seq<Byte>): (r: seq<Byte>)
    requires |new_| == |old_| == |mask|
    ensures |r| == |mask| && forall d :: 0 <= d < |r| ==> r[d] == Merge1(new_[d], old_[d], mask[d])
  {
    seq(|mask|, d requires 0 <= d < |mask| => Merge1(new_[d], old_[d], mask[d]))
  }

  function FullMask(elem: nat): (r: seq<Byte>)
    ensures |r| == elem && forall d :: 0 <= d < elem ==> r[d] == 0xFF
  {
    seq(elem, _ => 0xFF)
  }

  lemma MergeFull(new_: seq<Byte>, old_: seq<Byte>)
    requires |new_| == |old_|
    ensures Merge(new_, old_, FullMask(|new_|)) == new_
  {
    forall d | 0 <= d < |new_| ensures Merge1(new_[d], old_[d], 0xFF) == new_[d] { MergeFull1(new_[d], old_[d]); }
  }

  lemma MergeFull1(n: Byte, o: Byte)
    ensures Merge1(n, o, 0xFF) == n
  {
  }

  /** Configuration of a bank: its layout, its mask, and masks of single elements. */
  datatype Config = Config(counts: seq<nat>, strides: seq<nat>, elem: nat, mask: seq<Byte>,
                           elementMasks: map<nat, seq<Byte>>) {
    ghost predicate Ok() {
      && LayoutOk(counts, strides, elem) && Positive(counts) && counts != []
      && |mask| == elem
      && forall f :: f in elementMasks ==> |elementMasks[f]| == elem
    }

    ghost function Off(f: nat): nat
      requires Ok()
    {
      ElementOffset(counts, strides, f)
    }

    /** mask_for_element. */
    function MaskOf(f: nat): (m: seq<Byte>)
      requires Ok()
      ensures |m| == elem
    {
      if f in elementMasks then elementMasks[f] else mask
    }

    predicate Trivial() { elementMasks == map[] && mask == FullMask(elem) }

    ghost predicate Has(f: nat, b: nat)
      requires Ok()
    {
      InElement(counts, strides, elem, f, b)
    }
  }

  lemma HasUnique(c: Config, f: nat, g: nat, b: nat)
    requires c.Ok() && c.Has(f, b) && c.Has(g, b)
    ensures f == g
  {
    ElementsDisjoint(c.counts, c.strides, c.elem, f, g, b - c.Off(f), b - c.Off(g));
  }

  /** The element a byte belongs to, if any. */
  ghost function ElementAt(c: Config, b: nat): (r: Option<nat>)
    requires c.Ok()
    ensures r.Some? ==> c.Has(r.value, b)
    ensures forall f: nat :: c.Has(f, b) ==> r == Some(f)
  {
    if f: nat :| c.Has(f, b) then
      assert forall g: nat :: c.Has(g, b) ==> g == f by {
        forall g: nat | c.Has(g, b) ensures g == f { HasUnique(c, f, g, b); }
      }
      Some(f)
    else None
  }

  // ---- The effect of a write ------------------------------------------------------------------------

  ghost predicate SrcOk(c: Config, src: seq<seq<Byte>>) { forall i :: 0 <= i < |src| ==> |src[i]| == c.elem }

  ghost function MaskByte(c: Config, f: nat, d: nat, useMask: bool): Byte
    requires c.Ok() && d < c.elem
  {
    if useMask then c.MaskOf(f)[d] else 0xFF
  }

  /**
   * Byte b after elements idx, ..., idx + n - 1 have been set from src: a byte of
   * such an element is merged with the new value under its mask, any other is kept.
   */
  ghost function ByteAfter(c: Config, old_: seq<Byte>, idx: nat, src: seq<seq<Byte>>, n: nat, useMask: bool,
                           b: nat): Byte
    requires c.Ok() && SrcOk(c, src) && n <= |src| && b < |old_|
  {
    match ElementAt(c, b)
    case None => old_[b]
    case Some(f) =>
      if idx <= f < idx + n
      then Merge1(src[f - idx][b - c.Off(f)], old_[b], MaskByte(c, f, b - c.Off(f), useMask))
      else old_[b]
  }

  ghost function AfterSet(c: Config, old_: seq<Byte>, idx: nat, src: seq<seq<Byte>>, n: nat,
                          useMask: bool): (r: seq<Byte>)
    requires c.Ok() && SrcOk(c, src) && n <= |src|
    ensures |r| == |old_| && forall b :: 0 <= b < |r| ==> r[b] == ByteAfter(c, old_, idx, src, n, useMask, b)
  {
    seq(|old_|, b requires 0 <= b < |old_| => ByteAfter(c, old_, idx, src, n, useMask, b))
  }

  /** Memory with the bytes from at on replaced. */
  function Patched(mem: seq<Byte>, at: nat, v: seq<Byte>): (r: seq<Byte>)
    requires at + |v| <= |mem|
    ensures |r| == |mem|
    ensures forall b :: 0 <= b < |r| ==> r[b] == if at <= b < at + |v| then v[b - at] else mem[b]
  {
    seq(|mem|, b requires 0 <= b < |mem| => if at <= b < at + |v| then v[b - at] else mem[b])
  }

  /** n bytes of memory from at on. */
  function Bytes(mem: seq<Byte>, at: nat, n: nat): (r: seq<Byte>)
    requires at + n <= |mem|
    ensures |r| == n && forall d :: 0 <= d < n ==> r[d] == mem[at + d]
  {
    seq(n, d requires 0 <= d < n => mem[at + d])
  }

  ghost function MaskUsed(c: Config, f: nat, useMask: bool): (m: seq<Byte>)
    requires c.Ok()
    ensures |m| == c.elem && forall d :: 0 <= d < c.elem ==> m[d] == MaskByte(c, f, d, useMask)
  {
    if useMask then c.MaskOf(f) else FullMask(c.elem)
  }

  lemma ElementFits(c: Config, f: nat)
    requires c.Ok() && f < Count(c.counts)
    ensures c.Off(f) + c.elem <= Span(c.counts, c.strides, c.elem)
  {
    AddressRoundTrip(c.counts, c.strides, c.elem, f, c.elem - 1);
  }

  lemma ByteOfElement(c: Config, f: nat, b: nat)
    requires c.Ok() && f < Count(c.counts)
    ensures ElementAt(c, b) == Some(f) <==> c.Off(f) <= b < c.Off(f) + c.elem
  {
    if c.Off(f) <= b < c.Off(f) + c.elem { assert c.Has(f, b); }
  }

  /** One byte, one element further. */
  lemma ByteStep(c: Config, old_: seq<Byte>, idx: nat, src: seq<seq<Byte>>, n: nat, useMask: bool, b: nat)
    requires c.Ok() && SrcOk(c, src) && n < |src| && idx + n < Count(c.counts) && b < |old_|
    ensures var at := c.Off(idx + n);
      if at <= b < at + c.elem
      then
        && ByteAfter(c, old_, idx, src, n, useMask, b) == old_[b]
        && ByteAfter(c, old_, idx, src, n + 1, useMask, b) ==
           Merge1(src[n][b - at], old_[b], MaskByte(c, idx + n, b - at, useMask))
      else ByteAfter(c, old_, idx, src, n + 1, useMask, b) == ByteAfter(c, old_, idx, src, n, useMask, b)
  {
    var f, e := idx + n, ElementAt(c, b);
    ByteOfElement(c, f, b);
    if c.Off(f) <= b < c.Off(f) + c.elem {
      assert e == Some(f);
    } else {
      assert e != Some(f);
      assert e.Some? ==> (idx <= e.value < idx + n <==> idx <= e.value < idx + n + 1);
    }
  }

  /** Elements not set yet still hold their old bytes. */
  lemma NotYetSet(c: Config, old_: seq<Byte>, idx: nat, src: seq<seq<Byte>>, n: nat, useMask: bool, at: nat)
    requires c.Ok() && SrcOk(c, src) && n < |src| && idx + n < Count(c.counts)
    requires at == c.Off(idx + n) && at + c.elem <= |old_|
    ensures Bytes(AfterSet(c, old_, idx, src, n, useMask), at, c.elem) == Bytes(old_, at, c.elem)
  {
    var mid := AfterSet(c, old_, idx, src, n, useMask);
    forall b | at <= b < at + c.elem ensures mid[b] == old_[b] { ByteStep(c, old_, idx, src, n, useMask, b); }
  }

  /** Merging one more element into place extends the effect by that element. */
  lemma SetOneMore(c: Config, old_: seq<Byte>, idx: nat, src: seq<seq<Byte>>, n: nat, useMask: bool, at: nat,
                   mid: seq<Byte>, v: seq<Byte>)
    requires c.Ok() && SrcOk(c, src) && n < |src| && idx + n < Count(c.counts)
    requires at == c.Off(idx + n) && at + c.elem <= |old_|
    requires mid == AfterSet(c, old_, idx, src, n, useMask)
    requires v == Merge(src[n], Bytes(old_, at, c.elem), MaskUsed(c, idx + n, useMask))
    ensures Patched(mid, at, v) == AfterSet(c, old_, idx, src, n + 1, useMask)
  {
    var l, r := Patched(mid, at, v), AfterSet(c, old_, idx, src, n + 1, useMask);
    forall b: nat | b < |old_| ensures l[b] == r[b] { SetOneByte(c, old_, idx, src, n, useMask, at, mid, v, b); }
  }

  lemma SetOneByte(c: Config, old_: seq<Byte>, idx: nat, src: seq<seq<Byte>>, n: nat, useMask: bool, at: nat,
                   mid: seq<Byte>, v: seq<Byte>, b: nat)
    requires c.Ok() && SrcOk(c, src) && n < |src| && idx + n < Count(c.counts) && b < |old_|
    requires at == c.Off(idx + n) && at + c.elem <= |old_|
    requires mid == AfterSet(c, old_, idx, src, n, useMask)
    requires v == Merge(src[n], Bytes(old_, at, c.elem), MaskUsed(c, idx + n, useMask))
    ensures Patched(mid, at, v)[b] == AfterSet(c, old_, idx, src, n + 1, useMask)[b]
  {
    var after := ByteAfter(c, old_, idx, src, n + 1, useMask, b);
    assert AfterSet(c, old_, idx, src, n + 1, useMask)[b] == after;
    ByteStep(c, old_, idx, src, n, useMask, b);
    if at <= b < at + c.elem {
      MergedByte(src[n], old_, at, MaskUsed(c, idx + n, useMask), b);
      assert v[b - at] == after;
    } else {
      assert mid[b] == after;
    }
  }

  lemma MergedByte(new_: seq<Byte>, old_: seq<Byte>, at: nat, mask: seq<Byte>, b: nat)
    requires |new_| == |mask| && at + |new_| <= |old_| && at <= b < at + |new_|
    ensures Merge(new_, Bytes(old_, at, |new_|), mask)[b - at] == Merge1(new_[b - at], old_[b], mask[b - at])
  {
  }
}
