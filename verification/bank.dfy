/** The bank object: bulk access and the masking of bus transactions. */
module RegisterBank {
  import opened Arithmetic
  import opened Basics
  import opened BankLayout
  import opened BankMask
  import opened BankPort
  import opened BankEffect
  import opened BankSpec
  import opened BankTransfer

  datatype Status = Incomplete | OkResponse | BurstError

  /** Result of decoding an address; on an element when aligned and in range. */
  datatype Access = Access(index: nat, byteOffset: nat, indices: seq<nat>, aligned: bool, inRange: bool)

  class Bank {
    var cfg: Config
    const div: seq<nat>
    const port: Port
    var captured: seq<Byte>

    ghost predicate Valid()
      reads this, port
    {
      port.Valid() && cfg.Ok() && RowMajor(cfg.counts, div) && Span(cfg.counts, cfg.strides, cfg.elem) <= port.size
    }

    constructor (cfg: Config, port: Port)
      requires cfg.Ok() && port.Valid() && Span(cfg.counts, cfg.strides, cfg.elem) <= port.size
      ensures Valid() && this.cfg == cfg && this.port == port && captured == []
    {
      var d := RowMajorDiv(cfg.counts);
      this.cfg, this.port, div, captured := cfg, port, d, [];
    }

    method OffsetOf(flat: nat) returns (off: nat)
      requires Valid() && flat < Count(cfg.counts)
      ensures off == cfg.Off(flat) && off + cfg.elem <= Span(cfg.counts, cfg.strides, cfg.elem)
    {
      var r := ByteOffsetForFlat(cfg.counts, cfg.strides, div, flat);
      ElementFits(cfg, flat);
      off := r.value;
    }

    method MaskForByteOffset(off: nat) returns (m: seq<Byte>)
      requires Valid()
      ensures m == MaskFor(cfg, off)
    {
      var f := TryFlatIndex(cfg.counts, cfg.strides, cfg.elem, div, off);
      assert f.Some? ==> cfg.Has(f.value, off);
      m := if f.None? then cfg.mask else cfg.MaskOf(f.value);
    }

    /** An element at any raw offset, under the mask found there. */
    method SetBytes(src: seq<Byte>, off: nat, useMask: bool)
      requires Valid() && |src| == cfg.elem && off + cfg.elem <= port.size
      modifies port.ram
      ensures port.Window() == RawWritten(cfg, old(port.Window()), off, src, useMask)
      ensures RawBits(cfg, old(port.Window()), port.Window(), off, src, useMask)
      ensures port.Kept(old(port.ram[..]))
    {
      RawBitsAre(cfg, port.Window(), off, src, useMask);
      StoreMasked(src, off, useMask);
    }

    method StoreMasked(src: seq<Byte>, off: nat, useMask: bool)
      requires Valid() && |src| == cfg.elem && off + cfg.elem <= port.size
      modifies port.ram
      ensures port.Window() == RawWritten(cfg, old(port.Window()), off, src, useMask)
      ensures port.Kept(old(port.ram[..]))
    {
      var mask := MaskForByteOffset(off);
      if !useMask || mask == FullMask(cfg.elem) {
        MergeFull(src, Bytes(port.Window(), off, cfg.elem));
        port.Put(off, src);
      } else {
        var cur := port.Get(off, cfg.elem);
        port.Put(off, Merge(src, cur, mask));
      }
    }

    /** One step of a bulk write. */
    method SetElement(src: seq<seq<Byte>>, idx: nat, n: nat, useMask: bool, ghost window0: seq<Byte>)
      requires Valid() && SrcOk(cfg, src) && n < |src| && idx + n < Count(cfg.counts) && |window0| == port.size
      requires port.Window() == AfterSet(cfg, window0, idx, src, n, useMask)
      modifies port.ram
      ensures port.Window() == AfterSet(cfg, window0, idx, src, n + 1, useMask) && port.Kept(old(port.ram[..]))
    {
      var off := OffsetOf(idx + n);
      ghost var mid := port.Window();
      NotYetSet(cfg, window0, idx, src, n, useMask, off);
      MaskForElement(cfg, idx + n);
      ghost var v := Merge(src[n], Bytes(mid, off, cfg.elem), MaskUsed(cfg, idx + n, useMask));
      SetOneMore(cfg, window0, idx, src, n, useMask, off, mid, v);
      SetBytes(src[n], off, useMask);
    }

    /**
     * Bulk write of elements by row-major number: whatever the number of
     * dimensions, the masks and the way to memory, each addressed element is
     * merged with its new value under its own mask and no other byte changes. It
     * is Fatal exactly when it runs past the last element.
     */
    method Set(src: seq<seq<Byte>>, idx: nat, useMask: bool) returns (r: Outcome<nat>)
      requires Valid() && SrcOk(cfg, src)
      modifies port.ram
      ensures r.Ok? <==>
        idx + |src| <= Count(cfg.counts) || (|src| == 0 && !(|cfg.counts| == 1 && cfg.elementMasks == map[]))
      ensures r.Ok? ==> r.value == |src| && port.Window() == AfterSet(cfg, old(port.Window()), idx, src, |src|, useMask)
      ensures r.Ok? ==> SetEffect(cfg, old(port.Window()), port.Window(), idx, src, useMask)
      ensures port.Kept(old(port.ram[..]))
    {
      if |cfg.counts| == 1 && cfg.elementMasks == map[] {
        if idx + |src| > Count(cfg.counts) { return Fatal; }
        AfterSetIs(cfg, port.Window(), idx, src, useMask);
        SetOneDim(src, idx, useMask);
        return Ok(|src|);
      }
      ghost var window0 := port.Window();
      NothingSet(cfg, window0, idx, src, useMask);
      for i := 0 to |src|
        invariant port.Window() == AfterSet(cfg, window0, idx, src, i, useMask) && port.Kept(old(port.ram[..]))
        invariant i > 0 ==> idx + i <= Count(cfg.counts)
      {
        if idx + i >= Count(cfg.counts) { return Fatal; }
        SetElement(src, idx, i, useMask, window0);
      }
      AfterSetIs(cfg, window0, idx, src, useMask);
      r := Ok(|src|);
    }

    /**
     * The same for one dimension without element masks: through the host pointer,
     * by one contiguous transaction, or by one transaction per element.
     */
    method SetOneDim(src: seq<seq<Byte>>, idx: nat, useMask: bool)
      requires Valid() && SrcOk(cfg, src) && idx + |src| <= Count(cfg.counts)
      requires |cfg.counts| == 1 && cfg.elementMasks == map[]
      modifies port.ram
      ensures port.Window() == AfterSet(cfg, old(port.Window()), idx, src, |src|, useMask)
      ensures port.Kept(old(port.ram[..]))
    {
      ghost var window0 := port.Window();
      NothingSet(cfg, window0, idx, src, useMask);
      var plain := !useMask || cfg.mask == FullMask(cfg.elem);
      if port.dmi.Some? {
        for i := 0 to |src|
          invariant port.Window() == AfterSet(cfg, window0, idx, src, i, useMask) && port.Kept(old(port.ram[..]))
        {
          SetByPointer(src, idx, i, useMask, plain, window0);
        }
      } else if (|src| == 1 || cfg.strides[0] == cfg.elem) && plain {
        SetContiguous(src, idx, useMask);
      } else {
        for i := 0 to |src|
          invariant port.Window() == AfterSet(cfg, window0, idx, src, i, useMask) && port.Kept(old(port.ram[..]))
        {
          SetByTransaction(src, idx, i, useMask, plain, window0);
        }
      }
    }

    /** Element idx + n through the host pointer, at its multiple of the stride. */
    method SetByPointer(src: seq<seq<Byte>>, idx: nat, n: nat, useMask: bool, plain: bool, ghost window0: seq<Byte>)
      requires Valid() && SrcOk(cfg, src) && n < |src| && idx + |src| <= Count(cfg.counts) && |window0| == port.size
      requires |cfg.counts| == 1 && cfg.elementMasks == map[] && plain == (!useMask || cfg.mask == FullMask(cfg.elem))
      requires port.dmi.Some? && port.Window() == AfterSet(cfg, window0, idx, src, n, useMask)
      modifies port.ram
      ensures port.Window() == AfterSet(cfg, window0, idx, src, n + 1, useMask) && port.Kept(old(port.ram[..]))
    {
      var at := cfg.strides[0] * (idx + n);
      StrideIsOffset(cfg, port.Window(), src, idx, n, useMask, window0, at);
      CopyIn(src[n], at, cfg.mask, plain);
    }

    method CopyIn(src: seq<Byte>, at: nat, mask: seq<Byte>, plain: bool)
      requires port.Valid() && port.dmi.Some? && |src| == |mask| && at + |src| <= port.size
      modifies port.ram
      ensures port.Window() == Patched(old(port.Window()), at,
                if plain then src else Merge(src, Bytes(old(port.Window()), at, |src|), mask))
      ensures port.Kept(old(port.ram[..]))
    {
      var p := port.dmi.value + at;
      if plain {
        port.WriteHost(p, src, at);
      } else {
        var cur := port.ReadHost(p, |src|, at);
        port.WriteHost(p, Merge(src, cur, mask), at);
      }
    }

    /** The same element by a transaction at its bus address. */
    method SetByTransaction(src: seq<seq<Byte>>, idx: nat, n: nat, useMask: bool, plain: bool, ghost window0: seq<Byte>)
      requires Valid() && SrcOk(cfg, src) && n < |src| && idx + |src| <= Count(cfg.counts) && |window0| == port.size
      requires |cfg.counts| == 1 && cfg.elementMasks == map[] && plain == (!useMask || cfg.mask == FullMask(cfg.elem))
      requires port.Window() == AfterSet(cfg, window0, idx, src, n, useMask)
      modifies port.ram
      ensures port.Window() == AfterSet(cfg, window0, idx, src, n + 1, useMask) && port.Kept(old(port.ram[..]))
    {
      var at := cfg.strides[0] * (idx + n);
      StrideIsOffset(cfg, port.Window(), src, idx, n, useMask, window0, at);
      Transact(src[n], at, cfg.mask, plain);
    }

    method Transact(src: seq<Byte>, at: nat, mask: seq<Byte>, plain: bool)
      requires port.Valid() && |src| == |mask| && at + |src| <= port.size
      modifies port.ram
      ensures port.Window() == Patched(old(port.Window()), at,
                if plain then src else Merge(src, Bytes(old(port.Window()), at, |src|), mask))
      ensures port.Kept(old(port.ram[..]))
    {
      var addr := port.offset + at;
      if plain {
        port.WriteBus(addr, src, at);
      } else {
        var cur := port.Get(at, |src|);
        port.WriteBus(addr, Merge(src, cur, mask), at);
      }
    }

    /** One transaction that carries all elements back to back. */
    method SetContiguous(src: seq<seq<Byte>>, idx: nat, useMask: bool)
      requires Valid() && SrcOk(cfg, src) && idx + |src| <= Count(cfg.counts)
      requires |cfg.counts| == 1 && cfg.elementMasks == map[] && (|src| == 1 || cfg.strides[0] == cfg.elem)
      requires cfg.mask == FullMask(cfg.elem) || !useMask
      modifies port.ram
      ensures port.Window() == AfterSet(cfg, old(port.Window()), idx, src, |src|, useMask)
      ensures port.Kept(old(port.ram[..]))
    {
      if |src| == 0 {
        NothingSet(cfg, port.Window(), idx, src, useMask);
        return;
      }
      var at := cfg.strides[0] * idx;
      OneDimOffset(cfg, idx);
      ContiguousAt(cfg, |src|, idx, |src| - 1);
      ContiguousIsSet(cfg, port.Window(), idx, src, useMask, at);
      port.WriteBus(port.offset + at, Joined(src, cfg.elem), at);
    }

    // ---- Bus transactions ---------------------------------------------------------------------------

    method DecodeAccess(off: nat) returns (a: Access)
      requires Valid()
      ensures Positive(cfg.strides)
      ensures a.byteOffset == off && a.indices == Divided(cfg.strides, off)
      ensures a.inRange <==> IndicesOk(cfg.counts, a.indices)
      ensures a.aligned <==> Remainder(cfg.strides, off) < cfg.elem
      ensures a.index == Flat(cfg.counts, Divided(cfg.strides, off))
    {
      LayoutFacts(cfg.counts, cfg.strides, cfg.elem);
      var indices, inRange, rem := DivideLoop(cfg.counts, cfg.strides, off);
      var flat := FlatLoop(cfg.counts, div, indices);
      a := Access(flat, off, indices, rem < cfg.elem, inRange);
    }

    /** How many elements a masked write may cover, starting with the returned element; 0 refuses it. */
    method MaskedElementCount(a: Access, len: nat) returns (count: nat)
      requires Valid() && Positive(cfg.strides)
      requires a.indices == Divided(cfg.strides, a.byteOffset) && a.index == Flat(cfg.counts, a.indices)
      requires a.inRange <==> IndicesOk(cfg.counts, a.indices)
      requires a.aligned <==> Remainder(cfg.strides, a.byteOffset) < cfg.elem
      ensures count > 0 <==> exists f: nat :: Maskable(cfg, a.byteOffset, len, f)
      ensures count > 0 ==> Maskable(cfg, a.byteOffset, len, a.index) && count == len / cfg.elem
    {
      forall f: nat | Maskable(cfg, a.byteOffset, len, f) ensures f == a.index && a.inRange && a.aligned {
        AddressRoundTrip(cfg.counts, cfg.strides, cfg.elem, f, 0);
      }
      if !(a.aligned && a.inRange) { return 0; }
      FlatInRange(cfg.counts, a.indices);
      var start := ByteOffsetForFlat(cfg.counts, cfg.strides, div, a.index);
      if start != Ok(a.byteOffset) { return 0; }
      if len == 0 || len % cfg.elem != 0 { return 0; }
      count := len / cfg.elem;
      ExactDivision(len, cfg.elem);
      if count == 1 {
        assert Maskable(cfg, a.byteOffset, len, a.index);
        return;
      }
      if |cfg.counts| != 1 || cfg.strides[0] != cfg.elem { return 0; }
      if count > Count(cfg.counts) - a.index { return 0; }
      assert Maskable(cfg, a.byteOffset, len, a.index);
    }

    /** Before the bus writes: remember the elements about to be overwritten, or refuse. */
    method CaptureTxnPre(write: bool, off: nat, len: nat) returns (status: Status)
      requires Valid()
      modifies this`captured
      ensures cfg.Trivial() || !write ==> status == Incomplete && captured == old(captured)
      ensures !cfg.Trivial() && write ==> (status == Incomplete <==> exists f: nat :: Maskable(cfg, off, len, f))
      ensures !cfg.Trivial() && write && status == Incomplete ==>
        off + len <= port.size && captured == Bytes(port.Window(), off, len)
      ensures status == Incomplete || status == BurstError
    {
      if cfg.Trivial() || !write { return Incomplete; }
      var a := DecodeAccess(off);
      var count := MaskedElementCount(a, len);
      if count == 0 {
        captured := [];
        return BurstError;
      }
      MaskableFits(cfg, off, len, a.index);
      var ats := ElementOffsets(off, len, a.index, count);
      captured := Capture(port, ats, cfg.elem, off);
      status := Incomplete;
    }

    /** Byte offsets of the elements a masked write covers. */
    method ElementOffsets(off: nat, len: nat, f: nat, count: nat) returns (ats: seq<nat>)
      requires Valid() && Maskable(cfg, off, len, f) && count == len / cfg.elem
      ensures |ats| == count && Row(ats, off, cfg.elem)
    {
      ats := [];
      for i := 0 to count
        invariant |ats| == i && Row(ats, off, cfg.elem)
      {
        MaskableElements(cfg, off, len, f, i);
        TimesIs(i, cfg.elem);
        var at := OffsetOf(f + i);
        ats := ats + [at];
      }
    }

    /**
     * After the bus has written: every element the write covers becomes the merge
     * of what the transaction carries with what was captured, in memory and in the
     * transaction. Without a capture that long, or when the write does not cover
     * whole elements, nothing happens and the answer is a burst error.
     */
    method HandleMaskPost(write: bool, off: nat, data: array<Byte>) returns (ok: bool)
      requires Valid() && data != port.ram
      modifies port.ram, data
      ensures cfg.Trivial() || !write ==> ok && port.ram[..] == old(port.ram[..]) && data[..] == old(data[..])
      ensures !cfg.Trivial() && write ==>
        (ok <==> |captured| >= data.Length && exists f: nat :: Maskable(cfg, off, data.Length, f))
      ensures !ok ==> port.ram[..] == old(port.ram[..]) && data[..] == old(data[..])
      ensures ok && !cfg.Trivial() && write ==> forall f: nat :: Maskable(cfg, off, data.Length, f) ==>
        data[..] == Merged(cfg, old(data[..]), captured[..data.Length], f)
      ensures ok && !Plain(cfg) && write ==>
        |captured| >= data.Length && MaskedBits(cfg, off, data[..], old(data[..]), captured[..data.Length])
      ensures ok && !cfg.Trivial() && write ==>
        off + data.Length <= port.size && port.Window() == Patched(old(port.Window()), off, data[..])
      ensures port.Kept(old(port.ram[..]))
    {
      if cfg.Trivial() || !write { return true; }
      var a := DecodeAccess(off);
      var count := MaskedElementCount(a, data.Length);
      if count == 0 { return false; }
      MaskableElements(cfg, off, data.Length, a.index, 0);
      if |captured| < count * cfg.elem { return false; }
      MergedBits(cfg, off, data[..], captured[..data.Length], a.index);
      PlainIff(cfg);
      MergeCaptured(off, data, a.index, count);
      forall f: nat | Maskable(cfg, off, data.Length, f)
        ensures f == a.index
      {
        SameStart(cfg, off, data.Length, f, a.index);
      }
      ok := true;
    }

    method MergeCaptured(off: nat, data: array<Byte>, f: nat, count: nat)
      requires Valid() && data != port.ram && count == data.Length / cfg.elem && |captured| >= data.Length
      requires Maskable(cfg, off, data.Length, f)
      modifies port.ram, data
      ensures data[..] == Merged(cfg, old(data[..]), captured[..data.Length], f)
      ensures off + data.Length <= port.size && port.Window() == Patched(old(port.Window()), off, data[..])
      ensures port.Kept(old(port.ram[..]))
    {
      MaskableFits(cfg, off, data.Length, f);
      MergedIs(cfg, off, data[..], captured[..data.Length], f);
      var ats := ElementOffsets(off, data.Length, f, count);
      MaskInPlace(port, data, captured[..data.Length], ats, MasksOf(cfg, f, count), cfg.elem, off);
    }

    /**
     * A whole write through the register router. With masks in force it is
     * refused, changing nothing, unless it covers whole elements; otherwise every
     * addressed element becomes (new & mask) | (old & ~mask), no other byte
     * changes, and the transaction carries the stored values back.
     */
    method BusWrite(off: nat, data: array<Byte>) returns (status: Status)
      requires Valid() && data != port.ram && off + data.Length <= port.size
      modifies this`captured, port.ram, data
      ensures cfg.Trivial() ==> status == OkResponse && data[..] == old(data[..])
      ensures !cfg.Trivial() ==> (status == OkResponse <==> exists f: nat :: Maskable(cfg, off, data.Length, f))
      ensures status != OkResponse ==>
        status == BurstError && port.ram[..] == old(port.ram[..]) && data[..] == old(data[..])
      ensures !cfg.Trivial() ==> forall f: nat :: Maskable(cfg, off, data.Length, f) ==>
        data[..] == Merged(cfg, old(data[..]), Bytes(old(port.Window()), off, data.Length), f)
      ensures status == OkResponse ==> port.Window() == Patched(old(port.Window()), off, data[..])
      ensures BusEffect(cfg, old(port.Window()), port.Window(), off, old(data[..]), data[..], status == OkResponse)
      ensures port.Kept(old(port.ram[..]))
    {
      ghost var window0 := port.Window();
      ghost var new_ := data[..];
      status := CaptureTxnPre(true, off, data.Length);
      if status != Incomplete {
        BusEffectIs(cfg, window0, port.Window(), off, new_, data[..], false);
        return;
      }
      port.WriteBus(port.offset + off, data[..], off);
      assert data[..] == new_;
      var ok := HandleMaskPost(true, off, data);
      PatchedAgain(window0, off, new_, data[..]);
      BusEffectIs(cfg, window0, port.Window(), off, new_, data[..], ok);
      status := if ok then OkResponse else BurstError;
    }
  }

  lemma PatchedAgain(w: seq<Byte>, off: nat, a: seq<Byte>, b: seq<Byte>)
    requires off + |a| <= |w| && |a| == |b|
    ensures Patched(Patched(w, off, a), off, b) == Patched(w, off, b)
  {
  }

  method DivideLoop(counts: seq<nat>, strides: seq<nat>, off: nat) returns (indices: seq<nat>, inRange: bool, rem: nat)
    requires |counts| == |strides| && Positive(strides)
    ensures indices == Divided(strides, off) && rem == Remainder(strides, off)
    ensures inRange <==> IndicesOk(counts, indices)
  {
    ghost var all := Divided(strides, off);
    indices, inRange, rem := [], true, off;
    for k := 0 to |strides|
      invariant Positive(strides[k..]) && |all| == |strides|
      invariant all[k..] == Divided(strides[k..], rem) && indices == all[..k]
      invariant Remainder(strides[k..], rem) == Remainder(strides, off)
      invariant inRange <==> forall j :: 0 <= j < k ==> all[j] < counts[j]
    {
      DividedTail(strides, k, rem);
      Tail(all, k);
      var idx := rem / strides[k];
      rem := rem % strides[k];
      assert all[k] == idx;
      indices := indices + [idx];
      if idx >= counts[k] { inRange := false; }
    }
  }

  method FlatLoop(counts: seq<nat>, div: seq<nat>, indices: seq<nat>) returns (flat: nat)
    requires |counts| == |indices| && RowMajor(counts, div)
    ensures flat == Flat(counts, indices)
  {
    flat := 0;
    for k := 0 to |counts|
      invariant flat + Flat(counts[k..], indices[k..]) == Flat(counts, indices)
    {
      Tail(counts, k);
      Tail(indices, k);
      flat := flat + indices[k] * div[k];
    }
  }
}
