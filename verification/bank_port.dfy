/**
 * How a register reaches its memory: by transactions on the bus, at its own
 * offset, or through a host pointer once the memory has granted direct access.
 */
module BankPort {
  import opened Basics
  import opened BankMask
  import F = DmiFlat

  /** A direct-memory grant: addresses start..end are host bytes ptr, ptr + 1, ... */
  datatype Grant = Grant(start: nat, end: nat, ptr: nat)

  /** The bytes at addresses offset, offset + 1, ..., wherever the host keeps them. */
  ghost function Seen(ram: seq<Byte>, host: nat -> nat, offset: nat, size: nat): (r: seq<Byte>)
    requires F.Placed(host, offset, size, |ram|)
    ensures |r| == size && forall b :: 0 <= b < size ==> r[b] == ram[host(offset + b)]
  {
    seq(size, b requires 0 <= b < size => ram[host(offset + b)])
  }

  lemma SeenUpdate(ram: seq<Byte>, host: nat -> nat, offset: nat, size: nat, b: nat, x: Byte)
    requires F.Placed(host, offset, size, |ram|) && F.Injective(host, offset, size) && b < size
    ensures Seen(ram[host(offset + b) := x], host, offset, size) == Seen(ram, host, offset, size)[b := x]
  {
    var l, r := Seen(ram[host(offset + b) := x], host, offset, size), Seen(ram, host, offset, size)[b := x];
    forall c: nat | c < size ensures l[c] == r[c] {
      if c != b { assert host(offset + c) != host(offset + b); }
    }
  }

  lemma PatchedMore(w: seq<Byte>, at: nat, v: seq<Byte>, k: nat)
    requires at + |v| <= |w| && k < |v|
    ensures Patched(w, at, v[..k + 1]) == Patched(w, at, v[..k])[at + k := v[k]]
  {
  }

  class Port {
    const ram: array<Byte>      // host memory
    const host: nat -> nat      // where it keeps the byte at an address
    const offset: nat           // first address of the register
    const size: nat
    var dmi: Option<nat>        // host byte of the register's first byte, when known

    ghost predicate Valid()
      reads this
    {
      && F.Placed(host, offset, size, ram.Length) && F.Injective(host, offset, size)
      && (dmi.Some? ==> (size > 0 ==> dmi.value + size <= ram.Length) && Points(dmi.value))
    }

    /** A host pointer to the register's first byte reaches all of it. */
    ghost predicate Points(p: nat) { forall a: nat :: offset <= a < offset + size ==> host(a) == p + (a - offset) }

    /** The register's bytes as the bus sees them. */
    ghost function Window(): (w: seq<Byte>)
      requires F.Placed(host, offset, size, ram.Length)
      reads ram
      ensures |w| == size
    {
      Seen(ram[..], host, offset, size)
    }

    /** Host memory outside the register is as it was. */
    ghost predicate Kept(was: seq<Byte>)
      requires |was| == ram.Length
      reads ram
    {
      forall h: nat :: h < |was| && Outside(h) ==> ram[h] == was[h]
    }

    ghost predicate Outside(h: nat) { forall a: nat :: offset <= a < offset + size ==> host(a) != h }

    constructor (ram: array<Byte>, host: nat -> nat, offset: nat, size: nat)
      requires F.Placed(host, offset, size, ram.Length) && F.Injective(host, offset, size)
      ensures Valid() && dmi == None
      ensures this.ram == ram && this.host == host && this.offset == offset && this.size == size
    {
      this.ram, this.host, this.offset, this.size, dmi := ram, host, offset, size, None;
    }

    ghost predicate Coherent(g: Grant) { forall a: nat :: g.start <= a <= g.end ==> host(a) == g.ptr + (a - g.start) }

    /**
     * check_dmi: from the grant for the register's first address to a pointer. The
     * assertion counts the offset from the start of the grant, so that it can stop
     * the simulation although the grant covers the register; a grant of exactly the
     * register's bytes always does.
     */
    method CheckDmi(answer: Option<Grant>) returns (r: Outcome<bool>)
      requires Valid() && (answer.Some? ==> Coherent(answer.value) && answer.value.start <= offset <= answer.value.end)
      modifies this`dmi
      ensures Valid()
      ensures r.Fatal? <==> answer.Some? && answer.value.end < answer.value.start + offset + size
      ensures answer.Some? && answer.value.start == offset && answer.value.end == offset + size - 1 ==> r.Fatal?
      ensures r.Ok? ==> (r.value <==> answer.Some?)
      ensures r.Ok? && answer.Some? ==> dmi == Some(answer.value.ptr + (offset - answer.value.start))
      ensures !(r.Ok? && answer.Some?) ==> dmi == old(dmi)
    {
      if answer.None? { return Ok(false); }
      var g := answer.value;
      if g.end < g.start + offset + size { return Fatal; }
      PointerReaches(g);
      dmi := Some(g.ptr + (offset - g.start));
      r := Ok(true);
    }

    lemma PointerReaches(g: Grant)
      requires F.Placed(host, offset, size, ram.Length) && Coherent(g) && g.start <= offset && offset + size <= g.end
      ensures Points(g.ptr + (offset - g.start)) && (size > 0 ==> g.ptr + (offset - g.start) + size <= ram.Length)
    {
      if size > 0 { assert host(offset + size - 1) < ram.Length; }
    }

    /** A write transaction. */
    method WriteBus(addr: nat, v: seq<Byte>, ghost at: nat)
      requires Valid() && addr == offset + at && at + |v| <= size
      modifies ram
      ensures Window() == Patched(old(Window()), at, v) && Kept(old(ram[..]))
    {
      ghost var was, w := ram[..], Window();
      assert Patched(w, at, v[..0]) == w;
      for k := 0 to |v|
        invariant Window() == Patched(w, at, v[..k]) && Kept(was)
      {
        SeenUpdate(ram[..], host, offset, size, at + k, v[k]);
        PatchedMore(w, at, v, k);
        ghost var before := ram[..];
        ram[host(addr + k)] := v[k];
        assert ram[..] == before[host(offset + (at + k)) := v[k]];
      }
      assert v[..|v|] == v;
    }

    /** A copy through the host pointer. */
    method WriteHost(p: nat, v: seq<Byte>, ghost at: nat)
      requires Valid() && dmi.Some? && p == dmi.value + at && at + |v| <= size
      modifies ram
      ensures Window() == Patched(old(Window()), at, v) && Kept(old(ram[..]))
    {
      ghost var was, w := ram[..], Window();
      forall k | 0 <= k < |v| { ram[p + k] := v[k]; }
      forall b: nat | b < size ensures Window()[b] == Patched(w, at, v)[b] { assert host(offset + b) == dmi.value + b; }
      forall h: nat | p <= h < p + |v| ensures !Outside(h) { assert host(offset + (h - dmi.value)) == h; }
    }

    method ReadBus(addr: nat, n: nat, ghost at: nat) returns (v: seq<Byte>)
      requires Valid() && addr == offset + at && at + n <= size
      ensures v == Bytes(Window(), at, n)
    {
      v := [];
      for k := 0 to n
        invariant v == Bytes(Window(), at, k)
      {
        v := v + [ram[host(addr + k)]];
      }
    }

    method ReadHost(p: nat, n: nat, ghost at: nat) returns (v: seq<Byte>)
      requires Valid() && dmi.Some? && p == dmi.value + at && at + n <= size
      ensures v == Bytes(Window(), at, n)
    {
      if n == 0 { return []; }
      v := ram[p..p + n];
      forall k: nat | k < n ensures v[k] == Window()[at + k] { assert host(offset + (at + k)) == p + k; }
    }

    /** get_bytes: by whichever way there is. */
    method Get(off: nat, n: nat) returns (v: seq<Byte>)
      requires Valid() && off + n <= size
      ensures v == Bytes(Window(), off, n)
    {
      if dmi.Some? { v := ReadHost(dmi.value + off, n, off); } else { v := ReadBus(offset + off, n, off); }
    }

    /** The store at the end of set_bytes. */
    method Put(off: nat, v: seq<Byte>)
      requires Valid() && off + |v| <= size
      modifies ram
      ensures Window() == Patched(old(Window()), off, v) && Kept(old(ram[..]))
    {
      if dmi.Some? { WriteHost(dmi.value + off, v, off); } else { WriteBus(offset + off, v, off); }
    }
  }
}
