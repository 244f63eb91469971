/** What writes to a bank have to achieve, on the bytes the bus sees. */
module BankSpec {
  import opened Arithmetic
  import opened Basics
  import opened BankLayout
  import opened BankMask
  import opened BankTransfer

  /** May a masked write of len bytes at this offset go ahead, starting with element f? */
  ghost predicate Maskable(c: Config, off: nat, len: nat, f: nat)
    requires c.Ok()
  {
    && f < Count(c.counts) && off == c.Off(f)
    && len > 0 && len % c.elem == 0
    && (len == c.elem || (|c.counts| == 1 && c.strides[0] == c.elem && f + len / c.elem <= Count(c.counts)))
  }

  lemma OneDimOffset(c: Config, f: nat)
    requires c.Ok() && |c.counts| == 1 && f < Count(c.counts)
    ensures c.Off(f) == f * c.strides[0]
  {
    assert c.counts[1..] == [] && c.strides[1..] == [];
    assert Count(c.counts[1..]) == 1;
    assert f / 1 == f;
    var u := Unflatten(c.counts, f);
    assert u[0] == f / Count(c.counts[1..]) == f && u[1..] == [];
    assert c.strides == [c.strides[0]];
    assert Offset(c.strides[1..], u[1..]) == 0;
  }

  /** The elements of a maskable transaction follow one another from its offset on. */
  lemma MaskableElements(c: Config, off: nat, len: nat, f: nat, i: nat)
    requires c.Ok() && Maskable(c, off, len, f) && i < len / c.elem
    ensures len == (len / c.elem) * c.elem
    ensures f + i < Count(c.counts) && c.Off(f + i) == off + i * c.elem && i * c.elem + c.elem <= len
  {
    var n := len / c.elem;
    assert len == n * c.elem + len % c.elem;
    MulLe(i + 1, n, c.elem);
    MulLe(i, n, c.elem);
    if len == c.elem {
      DivMod(1, c.elem, 0);
    } else {
      OneDimOffset(c, f);
      OneDimOffset(c, f + i);
      assert (f + i) * c.elem == f * c.elem + i * c.elem;
    }
  }

  lemma SameStart(c: Config, off: nat, len: nat, f: nat, g: nat)
    requires c.Ok() && Maskable(c, off, len, f) && Maskable(c, off, len, g)
    ensures f == g
  {
    assert c.Has(f, off) && c.Has(g, off);
    HasUnique(c, f, g, off);
  }

  function MasksOf(c: Config, f: nat, n: nat): (r: seq<seq<Byte>>)
    requires c.Ok()
    ensures |r| == n && (forall i :: 0 <= i < n ==> r[i] == c.MaskOf(f + i)) && AllOf(r, c.elem)
  {
    seq(n, i requires 0 <= i < n => c.MaskOf(f + i))
  }

  /**
   * What a write of `new_` over `old_` stores from element f on: byte k merges
   * under its place in its element's mask.
   */
  ghost function Merged(c: Config, new_: seq<Byte>, old_: seq<Byte>, f: nat): (r: seq<Byte>)
    requires c.Ok() && |new_| == |old_|
    ensures |r| == |new_|
    ensures forall k :: 0 <= k < |r| ==> r[k] == Merge1(new_[k], old_[k], MaskAt(c, f, k))
  {
    seq(|new_|, k requires 0 <= k < |new_| => Merge1(new_[k], old_[k], MaskAt(c, f, k)))
  }

  /** The mask of byte k of a row of elements that starts with element f. */
  ghost function MaskAt(c: Config, f: nat, k: nat): Byte
    requires c.Ok()
  {
    c.MaskOf(f + k / c.elem)[k % c.elem]
  }

  lemma MaskableFits(c: Config, off: nat, len: nat, f: nat)
    requires c.Ok() && Maskable(c, off, len, f)
    ensures len == Times(len / c.elem, c.elem) && off + len <= Span(c.counts, c.strides, c.elem)
  {
    var n := len / c.elem;
    MaskableElements(c, off, len, f, n - 1);
    ElementFits(c, f + n - 1);
    assert (n - 1) * c.elem == n * c.elem - c.elem;
    TimesIs(n, c.elem);
  }

  lemma JoinedMask(c: Config, f: nat, n: nat, k: nat)
    requires c.Ok() && k < Times(n, c.elem)
    ensures Joined(MasksOf(c, f, n), c.elem)[k] == MaskAt(c, f, k)
  {
    var masks := MasksOf(c, f, n);
    JoinedDivMod(masks, c.elem, k);
    var i, d := k / c.elem, k % c.elem;
    OneMask(c, f, n, i);
    assert Joined(masks, c.elem)[k] == masks[i][d];
  }

  lemma OneMask(c: Config, f: nat, n: nat, i: nat)
    requires c.Ok() && i < n
    ensures MasksOf(c, f, n)[i] == c.MaskOf(f + i)
  {
  }

  lemma MergeSame(new_: seq<Byte>, old_: seq<Byte>, mask: seq<Byte>, r: seq<Byte>)
    requires |new_| == |old_| == |mask| == |r|
    requires forall k :: 0 <= k < |r| ==> r[k] == Merge1(new_[k], old_[k], mask[k])
    ensures r == Merge(new_, old_, mask)
  {
  }

  lemma MergedIs(c: Config, off: nat, new_: seq<Byte>, old_: seq<Byte>, f: nat)
    requires c.Ok() && |new_| == |old_| && Maskable(c, off, |new_|, f)
    ensures |new_| == Times(|new_| / c.elem, c.elem)
    ensures Merged(c, new_, old_, f) == Merge(new_, old_, Joined(MasksOf(c, f, |new_| / c.elem), c.elem))
  {
    MaskableFits(c, off, |new_|, f);
    var masks := MasksOf(c, f, |new_| / c.elem);
    forall k: nat | k < |new_|
      ensures Joined(masks, c.elem)[k] == MaskAt(c, f, k)
    {
      JoinedMask(c, f, |new_| / c.elem, k);
    }
    MergeSame(new_, old_, Joined(masks, c.elem), Merged(c, new_, old_, f));
  }

  lemma NothingSet(c: Config, mem: seq<Byte>, idx: nat, src: seq<seq<Byte>>, useMask: bool)
    requires c.Ok() && SrcOk(c, src)
    ensures AfterSet(c, mem, idx, src, 0, useMask) == mem
  {
  }

  lemma ContiguousAt(c: Config, count: nat, idx: nat, i: nat)
    requires c.Ok() && i < count && idx + count <= Count(c.counts)
    requires |c.counts| == 1 && (count == 1 || c.strides[0] == c.elem)
    ensures c.Off(idx + i) == c.Off(idx) + Times(i, c.elem)
    ensures c.Off(idx) + Times(i + 1, c.elem) <= Span(c.counts, c.strides, c.elem)
  {
    OneDimOffset(c, idx);
    OneDimOffset(c, idx + i);
    TimesIs(i, c.elem);
    if count > 1 { assert (idx + i) * c.elem == idx * c.elem + i * c.elem; }
    ElementFits(c, idx + i);
  }

  /** Writing the elements back to back equals setting them one after another. */
  lemma {:induction false} ContiguousIsSet(c: Config, mem: seq<Byte>, idx: nat, src: seq<seq<Byte>>, useMask: bool,
                                           off: nat)
    requires c.Ok() && SrcOk(c, src) && |src| >= 1 && idx + |src| <= Count(c.counts)
    requires |c.counts| == 1 && (|src| == 1 || c.strides[0] == c.elem)
    requires c.elementMasks == map[] && (c.mask == FullMask(c.elem) || !useMask)
    requires off == c.Off(idx) && Span(c.counts, c.strides, c.elem) <= |mem| && off + Times(|src|, c.elem) <= |mem|
    ensures Patched(mem, off, Joined(src, c.elem)) == AfterSet(c, mem, idx, src, |src|, useMask)
    decreases |src|
  {
    var n := |src| - 1;
    ContiguousAt(c, |src|, idx, n);
    var front, at := src[..n], c.Off(idx + n);
    var head := Joined(front, c.elem);
    if n > 0 {
      ContiguousIsSet(c, mem, idx, front, useMask, off);
      FrontSet(c, mem, idx, src, n, useMask);
    } else {
      NothingSet(c, mem, idx, src, useMask);
    }
    LastIsSet(c, mem, idx, src, useMask, at, Patched(mem, off, head));
    PatchedAppend(mem, off, head, src[n]);
  }

  lemma LastIsSet(c: Config, mem: seq<Byte>, idx: nat, src: seq<seq<Byte>>, useMask: bool, at: nat, mid: seq<Byte>)
    requires c.Ok() && SrcOk(c, src) && |src| >= 1 && idx + |src| <= Count(c.counts)
    requires c.elementMasks == map[] && (c.mask == FullMask(c.elem) || !useMask)
    requires at == c.Off(idx + |src| - 1) && at + c.elem <= |mem|
    requires mid == AfterSet(c, mem, idx, src, |src| - 1, useMask)
    ensures Patched(mid, at, src[|src| - 1]) == AfterSet(c, mem, idx, src, |src|, useMask)
  {
    var n := |src| - 1;
    var old_ := Bytes(mem, at, c.elem);
    MergeFull(src[n], old_);
    SetOneMore(c, mem, idx, src, n, useMask, at, mid, Merge(src[n], old_, MaskUsed(c, idx + n, useMask)));
  }

  lemma FrontSet(c: Config, mem: seq<Byte>, idx: nat, src: seq<seq<Byte>>, n: nat, useMask: bool)
    requires c.Ok() && SrcOk(c, src) && n <= |src|
    ensures AfterSet(c, mem, idx, src[..n], n, useMask) == AfterSet(c, mem, idx, src, n, useMask)
  {
    var l, r := AfterSet(c, mem, idx, src[..n], n, useMask), AfterSet(c, mem, idx, src, n, useMask);
    forall b | 0 <= b < |mem| ensures l[b] == r[b] {
      var e := ElementAt(c, b);
      if e.Some? && idx <= e.value < idx + n { assert src[..n][e.value - idx] == src[e.value - idx]; }
    }
  }

  /** The mask that a raw byte offset selects: its element's, or the bank's outside all elements. */
  ghost function MaskFor(c: Config, off: nat): (m: seq<Byte>)
    requires c.Ok()
    ensures |m| == c.elem
  {
    match ElementAt(c, off)
    case None => c.mask
    case Some(f) => c.MaskOf(f)
  }

  /** An element's worth of bytes stored at a raw offset. */
  ghost function RawWritten(c: Config, was: seq<Byte>, off: nat, src: seq<Byte>, useMask: bool): seq<Byte>
    requires c.Ok() && |src| == c.elem && off + c.elem <= |was|
  {
    Patched(was, off, Merge(src, Bytes(was, off, c.elem), if useMask then MaskFor(c, off) else FullMask(c.elem)))
  }

  lemma MaskForElement(c: Config, f: nat)
    requires c.Ok() && f < Count(c.counts)
    ensures MaskFor(c, c.Off(f)) == c.MaskOf(f)
  {
    ByteOfElement(c, f, c.Off(f));
  }

  /** What one round of a per-element path has to write, and where. */
  lemma StrideIsOffset(c: Config, window: seq<Byte>, src: seq<seq<Byte>>, idx: nat, n: nat, useMask: bool,
                       window0: seq<Byte>, at: int)
    requires c.Ok() && SrcOk(c, src) && n < |src| && idx + |src| <= Count(c.counts)
    requires |c.counts| == 1 && c.elementMasks == map[] && at == c.strides[0] * (idx + n)
    requires Span(c.counts, c.strides, c.elem) <= |window0| && window == AfterSet(c, window0, idx, src, n, useMask)
    ensures 0 <= at && at + c.elem <= |window|
    ensures var plain := !useMask || c.mask == FullMask(c.elem);
      Patched(window, at, if plain then src[n] else Merge(src[n], Bytes(window, at, c.elem), c.mask))
        == AfterSet(c, window0, idx, src, n + 1, useMask)
  {
    OneDimOffset(c, idx + n);
    ElementFits(c, idx + n);
    NotYetSet(c, window0, idx, src, n, useMask, at);
    var old_ := Bytes(window0, at, c.elem);
    MergeFull(src[n], old_);
    SetOneMore(c, window0, idx, src, n, useMask, at, window, Merge(src[n], old_, MaskUsed(c, idx + n, useMask)));
  }
}
