/** Address translation: a target range is mapped, by a fixed offset, to a range behind the initiator socket. */
module AddressTranslation {
  import opened Basics

  /** A direct-memory grant; `ptr` is None when the pointer is null. */
  datatype Grant = Grant(start: nat, end: nat, ptr: Option<nat>) {
    ghost predicate Ok() { start < TWO64 && end < TWO64 }
    predicate Has(a: nat) { start <= a <= end }
  }

  class Txn {
    var addr: nat
    const len: nat

    constructor (addr: nat, len: nat)
      ensures this.addr == addr && this.len == len
    {
      this.addr, this.len := addr, len;
    }
  }

  /** Last address of a range; None when it is empty or runs past 64 bits. */
  function RangeEnd(start: nat, size: nat): (r: Option<nat>)
    ensures r.Some? <==> size > 0 && start + size <= TWO64
    ensures r.Some? ==> r.value == start + size - 1
  {
    if size == 0 || start > TWO64 - 1 - (size - 1) then None else Some(start + size - 1)
  }

  /** Unsigned 64-bit difference and sum, which wrap around. */
  function Sub64(a: nat, b: nat): (r: nat)
    requires a < TWO64 && b < TWO64
    ensures r < TWO64 && r == (a - b) % TWO64
  {
    if a >= b then a - b else a - b + TWO64
  }

  function Add64(a: nat, b: nat): (r: nat)
    requires a < TWO64 && b < TWO64
    ensures r < TWO64 && r == (a + b) % TWO64
  {
    if a + b < TWO64 then a + b else a + b - TWO64
  }

  class Addrtr {
    const base: nat
    const size: nat
    const mapped: nat

    constructor (base: nat, size: nat, mapped: nat)
      requires base < TWO64 && size < TWO64 && mapped < TWO64
      ensures Words() && this.base == base && this.size == size && this.mapped == mapped
    {
      this.base, this.size, this.mapped := base, size, mapped;
    }

    ghost predicate Words() { base < TWO64 && size < TWO64 && mapped < TWO64 }

    /** Both ranges are non-empty and end within 64 bits. */
    ghost predicate RangesOk() { size > 0 && base + size <= TWO64 && mapped + size <= TWO64 }

    ghost predicate InTarget(a: nat) { RangesOk() && base <= a < base + size }

    /** Where an address of the target range is mapped to. */
    ghost function Image(a: nat): nat
      requires InTarget(a)
    {
      mapped + (a - base)
    }

    /** Address a of the target range is mapped into lo..hi. */
    ghost predicate MapsInto(a: nat, lo: nat, hi: nat) { InTarget(a) && lo <= Image(a) <= hi }

    function AddrFw(addr: nat): nat
      requires base < TWO64 && mapped < TWO64 && addr < TWO64
    {
      Add64(mapped, Sub64(addr, base))
    }

    function AddrBw(addr: nat): nat
      requires base < TWO64 && mapped < TWO64 && addr < TWO64
    {
      Add64(base, Sub64(addr, mapped))
    }

    /** The two translations undo each other on all 64-bit addresses, and do not wrap inside the range. */
    lemma TranslationsInvert(a: nat)
      requires Words() && a < TWO64
      ensures AddrBw(AddrFw(a)) == a && AddrFw(AddrBw(a)) == a
      ensures InTarget(a) ==> AddrFw(a) == Image(a)
    {
    }

    /** Is every byte of the transaction in the target range? An empty one still needs its address there. */
    ghost predicate Accepts(addr: nat, len: nat) {
      && RangesOk() && base <= addr
      && if len == 0 then addr < base + size else addr + len <= base + size
    }

    lemma AcceptsIff(addr: nat, len: nat)
      ensures Accepts(addr, len) <==> InTarget(addr) && forall b: nat :: addr <= b < addr + len ==> InTarget(b)
    {
      if InTarget(addr) && len > 0 && forall b: nat :: addr <= b < addr + len ==> InTarget(b) {
        assert InTarget(addr + len - 1);
      }
    }

    /** Every byte of the transaction is in the target range and lies at its image when the transaction goes to `to`. */
    ghost predicate AtImage(addr: nat, len: nat, to: nat) {
      forall b: nat :: addr <= b < addr + len ==> InTarget(b) && to + (b - addr) == Image(b) < mapped + size
    }

    /** map_txn_addr: point the transaction at the mapped address, or stop. */
    method MapTxnAddr(trans: Txn) returns (r: Outcome<nat>)
      requires Words() && trans.addr < TWO64
      modifies trans`addr
      ensures r.Ok? <==> old(Accepts(trans.addr, trans.len))
      ensures r.Ok? ==> r.value == trans.addr == Image(old(trans.addr))
      ensures r.Ok? ==> AtImage(old(trans.addr), trans.len, r.value)
      ensures r.Fatal? ==> trans.addr == old(trans.addr)
    {
      var targetEnd := RangeEnd(base, size);
      var mappedEnd := RangeEnd(mapped, size);
      var txnEnd := if trans.len == 0 then Some(trans.addr) else RangeEnd(trans.addr, trans.len);
      if targetEnd.Some? && mappedEnd.Some? && txnEnd.Some? && trans.addr >= base && txnEnd.value <= targetEnd.value {
        var fw := AddrFw(trans.addr);
        TranslationsInvert(trans.addr);
        trans.addr := fw;
        return Ok(fw);
      }
      r := Fatal;
    }

    /**
     * map_window: the part of a mapped window that the target range reaches, in
     * target addresses, each at the host byte it had.
     */
    method MapWindow(w: Grant) returns (r: Option<Grant>)
      requires Words() && w.Ok()
      ensures r.Some? <==> exists a: nat :: MapsInto(a, w.start, w.end)
      ensures r.Some? ==> r.value.Ok() && forall a: nat :: r.value.Has(a) <==> MapsInto(a, w.start, w.end)
      ensures r.Some? ==> (r.value.ptr.None? <==> w.ptr.None?)
      ensures r.Some? && w.ptr.Some? ==>
        forall a: nat :: r.value.Has(a) ==>
          r.value.ptr.value + (a - r.value.start) == w.ptr.value + (Image(a) - w.start)
    {
      var mappedEnd := RangeEnd(mapped, size);
      var targetEnd := RangeEnd(base, size);
      if mappedEnd.None? || targetEnd.None? || w.end < w.start || w.end < mapped || w.start > mappedEnd.value {
        return None;
      }
      var clippedStart := if w.start > mapped then w.start else mapped;
      var clippedEnd := if w.end < mappedEnd.value then w.end else mappedEnd.value;
      assert mapped <= clippedStart <= clippedEnd <= mappedEnd.value;
      var ptr := if w.ptr.Some? then Some(w.ptr.value + Sub64(clippedStart, w.start)) else None;
      var start := Add64(base, Sub64(clippedStart, mapped));
      var end := Add64(base, Sub64(clippedEnd, mapped));
      assert start == base + (clippedStart - mapped) && end == base + (clippedEnd - mapped);
      assert MapsInto(start, w.start, w.end);
      r := Some(Grant(start, end, ptr));
    }

    /** A transaction reaches the socket behind with each byte at its image, and comes back as it was. */
    method BTransport(trans: Txn) returns (forwarded: Outcome<nat>)
      requires Words() && trans.addr < TWO64
      modifies trans`addr
      ensures forwarded.Ok? <==> old(Accepts(trans.addr, trans.len))
      ensures forwarded.Ok? ==> forwarded.value == trans.addr - base + mapped
      ensures forwarded.Ok? ==> AtImage(trans.addr, trans.len, forwarded.value)
      ensures trans.addr == old(trans.addr)
    {
      var addr := trans.addr;
      forwarded := MapTxnAddr(trans);
      if forwarded.Fatal? { return; }
      trans.addr := addr;
    }

    /**
     * Direct memory: `answer` is what the socket behind grants for the mapped
     * address. A grant with that address is handed on, as the window of all
     * target addresses mapped into it; any other is refused.
     */
    method GetDirectMemPtr(trans: Txn, answer: Option<Grant>) returns (r: Outcome<Option<Grant>>)
      requires Words() && trans.addr < TWO64 && (answer.Some? ==> answer.value.Ok())
      modifies trans`addr
      ensures trans.addr == old(trans.addr)
      ensures r.Ok? <==> Accepts(trans.addr, trans.len)
      ensures r.Ok? ==> (r.value.Some? <==> answer.Some? && answer.value.Has(Image(trans.addr)))
      ensures r.Ok? && r.value.Some? ==> IsTranslation(answer.value, r.value.value) && r.value.value.Has(trans.addr)
    {
      var addr := trans.addr;
      var mappedAddr := MapTxnAddr(trans);
      if mappedAddr.Fatal? { return Fatal; }
      trans.addr := addr;
      if answer.None? { return Ok(None); }
      if mappedAddr.value < answer.value.start || mappedAddr.value > answer.value.end { return Ok(None); }
      assert MapsInto(addr, answer.value.start, answer.value.end);
      var w := MapWindow(answer.value);
      r := Ok(w);
    }

    /** w covers exactly the target addresses mapped into g, each at the host byte g gives its image. */
    ghost predicate IsTranslation(g: Grant, w: Grant) {
      && w.Ok()
      && (forall a: nat :: w.Has(a) <==> MapsInto(a, g.start, g.end))
      && (w.ptr.None? <==> g.ptr.None?)
      && (w.ptr.Some? ==>
            forall a: nat :: w.Has(a) ==> w.ptr.value + (a - w.start) == g.ptr.value + (Image(a) - g.start))
    }

    /** An invalidation is passed on as the target addresses mapped into it, or dropped when there are none. */
    method InvalidateDirectMemPtr(start: nat, end: nat) returns (forwarded: Option<(nat, nat)>)
      requires Words() && start < TWO64 && end < TWO64
      ensures forwarded.Some? <==> exists a: nat :: MapsInto(a, start, end)
      ensures forwarded.Some? ==>
        forall a: nat :: forwarded.value.0 <= a <= forwarded.value.1 <==> MapsInto(a, start, end)
    {
      var w := MapWindow(Grant(start, end, None));
      if w.None? { return None; }
      assert forall a: nat :: w.value.Has(a) <==> w.value.start <= a <= w.value.end;
      forwarded := Some((w.value.start, w.value.end));
    }

    /**
     * Withdrawing any part of a grant reaches what was handed on for it: the
     * forwarded invalidation meets the translated window exactly when a target
     * address is mapped both into the grant and into the withdrawn range.
     */
    lemma InvalidationReachesGrant(g: Grant, w: Grant, start: nat, end: nat, lo: nat, hi: nat)
      requires IsTranslation(g, w) && w.start <= w.end && lo <= hi
      requires forall a: nat :: lo <= a <= hi <==> MapsInto(a, start, end)
      ensures w.start <= hi && lo <= w.end <==> exists a: nat :: MapsInto(a, g.start, g.end) && MapsInto(a, start, end)
    {
      if w.start <= hi && lo <= w.end {
        var a := if w.start > lo then w.start else lo;
        assert w.Has(a);
        assert MapsInto(a, g.start, g.end) && MapsInto(a, start, end);
      }
    }
  }
}
