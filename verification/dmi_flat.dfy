/**
 * What a DMI cache has to look like from outside: one access to flat memory,
 * byte by byte in ascending order, each byte under its byte enable.
 */
module DmiFlat {
  import opened Basics

  type Byte = bv8
  type Bytes = seq<Byte>

  const ENABLED: Byte := 0xFF

  datatype Command = Read | Write | Ignore

  /** Memory after the first |on| bytes of a write; byte i is written when on[i]. `host` places addresses in memory. */
  ghost function Written(mem: Bytes, host: nat -> nat, addr: nat, data: Bytes, on: seq<bool>): (r: Bytes)
    requires |on| <= |data| && Placed(host, addr, |data|, |mem|)
    ensures |r| == |mem|
    decreases |on|
  {
    if on == [] then mem
    else
      var n := |on| - 1;
      var before := Written(mem, host, addr, data, on[..n]);
      if on[n] then before[host(addr + n) := data[n]] else before
  }

  /** The data buffer after the first |on| bytes of a read. */
  ghost function ReadInto(mem: Bytes, host: nat -> nat, addr: nat, data: Bytes, on: seq<bool>): (r: Bytes)
    requires |on| <= |data| && Placed(host, addr, |data|, |mem|)
    ensures |r| == |data|
  {
    seq(|data|, i requires 0 <= i < |data| => ReadByte(mem, host, addr, data, on, i))
  }

  ghost function ReadByte(mem: Bytes, host: nat -> nat, addr: nat, data: Bytes, on: seq<bool>, i: nat): Byte
    requires |on| <= |data| && Placed(host, addr, |data|, |mem|) && i < |data|
  {
    if i < |on| && on[i] then mem[host(addr + i)] else data[i]
  }

  ghost predicate Placed(host: nat -> nat, addr: nat, len: nat, size: nat) {
    forall a: nat :: addr <= a < addr + len ==> host(a) < size
  }

  /** Memory and data buffer after the first |on| bytes of an access. */
  ghost function MemAfter(cmd: Command, mem: Bytes, host: nat -> nat, addr: nat, data: Bytes, on: seq<bool>): (r: Bytes)
    requires |on| <= |data| && Placed(host, addr, |data|, |mem|)
    ensures |r| == |mem|
  {
    if cmd == Write then Written(mem, host, addr, data, on) else mem
  }

  ghost function DataAfter(cmd: Command, mem: Bytes, host: nat -> nat, addr: nat, data: Bytes,
                           on: seq<bool>): (r: Bytes)
    requires |on| <= |data| && Placed(host, addr, |data|, |mem|)
    ensures |r| == |data|
  {
    if cmd == Read then ReadInto(mem, host, addr, data, on) else data
  }

  // ---- Byte enables ----------------------------------------------------------------------------

  /** An access has either no byte enables or a non-empty array of them. */
  ghost predicate EnablesOk(be: Option<Bytes>) { be.Some? ==> be.value != [] }

  /** Byte i of the access is enabled: the array repeats over the data. */
  ghost predicate On(be: Option<Bytes>, i: nat)
    requires EnablesOk(be)
  {
    be.None? || be.value[i % |be.value|] == ENABLED
  }

  ghost function AllOn(be: Option<Bytes>, n: nat): (r: seq<bool>)
    requires EnablesOk(be)
    ensures |r| == n && forall i :: 0 <= i < n ==> r[i] == On(be, i)
  {
    seq(n, i requires 0 <= i < n => On(be, i))
  }

  // ---- Pointwise reading of a write --------------------------------------------------------------

  ghost predicate Injective(host: nat -> nat, addr: nat, len: nat) {
    forall a: nat, b: nat :: addr <= a < addr + len && addr <= b < addr + len && host(a) == host(b) ==> a == b
  }

  lemma {:induction false} WrittenAt(mem: Bytes, host: nat -> nat, addr: nat, data: Bytes, on: seq<bool>, i: nat)
    requires |on| <= |data| && Placed(host, addr, |data|, |mem|) && Injective(host, addr, |data|) && i < |data|
    ensures Written(mem, host, addr, data, on)[host(addr + i)] ==
      if i < |on| && on[i] then data[i] else mem[host(addr + i)]
    decreases |on|
  {
    if on != [] { WrittenAt(mem, host, addr, data, on[..|on| - 1], i); }
  }

  /**
   * Two enable patterns have the same effect on every memory, for every data,
   * exactly when they are the same.
   */
  lemma SameEffectIff(cmd: Command, host: nat -> nat, addr: nat, size: nat, p: seq<bool>, q: seq<bool>)
    requires cmd != Ignore && |p| == |q| && Placed(host, addr, |p|, size) && Injective(host, addr, |p|)
    ensures p == q <==>
      forall mem: Bytes, data: Bytes :: |mem| == size && |data| == |p| ==> SameEffect(cmd, mem, host, addr, data, p, q)
  {
    if p != q {
      var i: nat :| i < |p| && p[i] != q[i];
      var mem: Bytes, data: Bytes := seq(size, _ => 0), seq(|p|, _ => 1);
      if cmd == Write {
        WrittenAt(mem, host, addr, data, p, i);
        WrittenAt(mem, host, addr, data, q, i);
      } else {
        assert ReadInto(mem, host, addr, data, p)[i] != ReadInto(mem, host, addr, data, q)[i];
      }
      assert !SameEffect(cmd, mem, host, addr, data, p, q);
    }
  }

  ghost predicate SameEffect(cmd: Command, mem: Bytes, host: nat -> nat, addr: nat, data: Bytes, p: seq<bool>,
                             q: seq<bool>)
    requires |p| == |q| == |data| && Placed(host, addr, |data|, |mem|)
  {
    && MemAfter(cmd, mem, host, addr, data, p) == MemAfter(cmd, mem, host, addr, data, q)
    && DataAfter(cmd, mem, host, addr, data, p) == DataAfter(cmd, mem, host, addr, data, q)
  }

  // ---- The effect of an access, byte by byte -----------------------------------------------------

  /** Byte i is the last enabled one that goes to its place in host memory. */
  ghost predicate LastThere(host: nat -> nat, addr: nat, on: seq<bool>, i: nat) {
    i < |on| && on[i] && forall j :: i < j < |on| && on[j] ==> host(addr + j) != host(addr + i)
  }

  ghost predicate NoneThere(host: nat -> nat, addr: nat, on: seq<bool>, h: nat) {
    forall j :: 0 <= j < |on| && on[j] ==> host(addr + j) != h
  }

  /**
   * A read fills the enabled bytes from memory and a write stores them there, the
   * later of two at one place; nothing else changes, and no command, no change.
   */
  ghost predicate Effect(cmd: Command, mem: Bytes, mem': Bytes, host: nat -> nat, addr: nat, data: Bytes, data': Bytes,
                         on: seq<bool>)
    requires |on| <= |data| && Placed(host, addr, |data|, |mem|)
  {
    && |mem'| == |mem| && |data'| == |data|
    && (cmd != Write ==> mem' == mem)
    && (cmd != Read ==> data' == data)
    && (cmd == Read ==> forall i: nat :: i < |data| ==>
          data'[i] == if i < |on| && on[i] then mem[host(addr + i)] else data[i])
    && (cmd == Write ==> forall i: nat :: LastThere(host, addr, on, i) ==> mem'[host(addr + i)] == data[i])
    && (cmd == Write ==> forall h: nat :: h < |mem| && NoneThere(host, addr, on, h) ==> mem'[h] == mem[h])
  }

  lemma {:induction false} WrittenLast(mem: Bytes, host: nat -> nat, addr: nat, data: Bytes, on: seq<bool>, i: nat)
    requires |on| <= |data| && Placed(host, addr, |data|, |mem|) && LastThere(host, addr, on, i)
    ensures Written(mem, host, addr, data, on)[host(addr + i)] == data[i]
    decreases |on|
  {
    if i < |on| - 1 { WrittenLast(mem, host, addr, data, on[..|on| - 1], i); }
  }

  lemma {:induction false} WrittenElsewhere(mem: Bytes, host: nat -> nat, addr: nat, data: Bytes, on: seq<bool>, h: nat)
    requires |on| <= |data| && Placed(host, addr, |data|, |mem|) && h < |mem| && NoneThere(host, addr, on, h)
    ensures Written(mem, host, addr, data, on)[h] == mem[h]
    decreases |on|
  {
    if on != [] { WrittenElsewhere(mem, host, addr, data, on[..|on| - 1], h); }
  }

  lemma {:induction false} FlatEffect(cmd: Command, mem: Bytes, host: nat -> nat, addr: nat, data: Bytes, on: seq<bool>)
    requires |on| <= |data| && Placed(host, addr, |data|, |mem|)
    ensures Effect(cmd, mem, MemAfter(cmd, mem, host, addr, data, on), host, addr, data,
                   DataAfter(cmd, mem, host, addr, data, on), on)
  {
    forall i: nat | LastThere(host, addr, on, i)
      ensures Written(mem, host, addr, data, on)[host(addr + i)] == data[i]
    {
      WrittenLast(mem, host, addr, data, on, i);
    }
    forall h: nat | h < |mem| && NoneThere(host, addr, on, h)
      ensures Written(mem, host, addr, data, on)[h] == mem[h]
    {
      WrittenElsewhere(mem, host, addr, data, on, h);
    }
  }
}
