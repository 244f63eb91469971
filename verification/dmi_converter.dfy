/** The DMI converter: an access is split over cached direct-memory blocks, new grants and the bus behind it. */
module DmiConverter {
  import opened Arithmetic
  import opened Basics
  import opened DmiFlat
  import opened DmiPieces
  import opened Ordered

  /** update_byte_enable. Enables as long as the data stay where they are; shorter ones rotate. */
  method UpdateByteEnable(be: Option<Bytes>, len: nat, byt: Option<Bytes>, rem: nat, iter: nat, ghost done: nat)
    returns (byt': Option<Bytes>, rem': nat)
    requires EnablesOk(be) && EnableState(be, len, done, byt, rem) && done + iter <= len
    ensures EnableState(be, len, done + iter, byt', rem')
  {
    byt', rem' := byt, rem;
    if byt.None? { return; }
    var bel := |byt.value|;
    if bel >= len {
      rem' := bel - iter;
    } else {
      var r := iter % bel;
      RotatedBy(be.value, byt.value, done, iter);
      if r == 0 { return; }
      byt', rem' := Some(byt.value[r..] + byt.value[..r]), bel;
    }
  }

  /** Rotating a rotation: std::rotate by the remainder of iter. */
  lemma RotatedBy(b: Bytes, byt: Bytes, done: nat, iter: nat)
    requires b != [] && IsRotation(b, byt, done)
    ensures var r := iter % |b|;
      IsRotation(b, byt[r..] + byt[..r], done + iter) && (r == 0 ==> IsRotation(b, byt, done + iter))
  {
    var r := iter % |b|;
    var turned, turn := byt[r..] + byt[..r], done + iter;
    forall j: nat | j < |b| ensures Turned(b, turned, turn, j) { RotatedAt(b, byt, done, iter, r, j); }
    if r == 0 { assert turned == byt; }
  }

  lemma RotatedAt(b: Bytes, byt: Bytes, done: nat, iter: nat, r: nat, j: nat)
    requires b != [] && IsRotation(b, byt, done) && j < |b| && r == iter % |b|
    ensures (byt[r..] + byt[..r])[j] == b[(done + iter + j) % |b|]
  {
    var m := |b|;
    ModSum(done + j, iter, m);
    var at := if j + r < m then j + r else j + r - m;
    assert Turned(b, byt, done, at) && (byt[r..] + byt[..r])[j] == byt[at];
    if j + r >= m { Shifted(done + at, m); }
    assert (done + at) % m == (done + j + r) % m;
  }

  lemma Shifted(a: nat, m: nat)
    requires m >= 1
    ensures (a + m) % m == a % m
  {
    assert a == (a / m) * m + a % m;
    DivMod(a / m + 1, m, a % m);
  }

  // ---- Moving bytes ----------------------------------------------------------------------------------

  lemma ReadStep(mem: Bytes, host: nat -> nat, addr: nat, data: Bytes, on: seq<bool>, en: bool)
    requires |on| < |data| && Placed(host, addr, |data|, |mem|)
    ensures var r := ReadInto(mem, host, addr, data, on); var k := |on|;
      ReadInto(mem, host, addr, data, on + [en]) == if en then r[k := mem[host(addr + k)]] else r
  {
  }

  lemma WriteStep(mem: Bytes, host: nat -> nat, addr: nat, data: Bytes, on: seq<bool>, en: bool)
    requires |on| < |data| && Placed(host, addr, |data|, |mem|)
    ensures var r := Written(mem, host, addr, data, on); var k := |on|;
      Written(mem, host, addr, data, on + [en]) == if en then r[host(addr + k) := data[k]] else r
  {
    assert (on + [en])[..|on|] == on;
  }

  lemma OnStep(on: seq<bool>, b: Option<Bytes>, n: nat)
    requires EnablesOk(b)
    ensures on + AllOn(b, 0) == on && on + AllOn(b, n + 1) == (on + AllOn(b, n)) + [On(b, n)]
  {
  }

  /** Everything before the iterator has been looked at: what met the range is gone, nothing else is. */
  ghost predicate Cleaning(was: map<int, Dmi>, cache: map<int, Dmi>, it: Option<int>, start: nat, end: nat) {
    && (forall k :: k in cache ==> k in was && cache[k] == was[k])
    && (forall k :: k in was && k !in cache ==> was[k].Meets(start, end))
    && (forall k :: k in cache && Before(k, it) ==> cache[k].end < start)
  }

  lemma CleanDone(was: map<int, Dmi>, cache: map<int, Dmi>, it: Option<int>, start: nat, end: nat, host: nat -> nat)
    requires CacheOk(was, host) && Cleaning(was, cache, it, start, end)
    requires it.Some? ==> it.value > end
    ensures cache == map k | k in was && !was[k].Meets(start, end) :: was[k]
  {
    var kept := map k | k in was && !was[k].Meets(start, end) :: was[k];
    forall k ensures k in cache <==> k in kept {
      if k in cache {
        assert was[k].start == k;
        assert !was[k].Meets(start, end);
      }
    }
    assert cache.Keys == kept.Keys;
    assert forall k :: k in cache ==> cache[k] == kept[k];
  }

  lemma CleanStep(was: map<int, Dmi>, cache: map<int, Dmi>, k: int, next: Option<int>, start: nat, end: nat)
    requires Cleaning(was, cache, Some(k), start, end) && k in cache && cache[k].start <= end
    ensures cache[k].end < start && IsLowerBound(cache.Keys, k + 1, next) ==> Cleaning(was, cache, next, start, end)
    ensures cache[k].end >= start && IsLowerBound((cache - {k}).Keys, k + 1, next) ==>
      Cleaning(was, cache - {k}, next, start, end)
  {
  }

  lemma CleanStart(cache: map<int, Dmi>, host: nat -> nat, bound: Option<int>, it: Option<int>, start: nat, end: nat)
    requires CacheOk(cache, host) && IsLowerBound(cache.Keys, start + 1, bound) && IsStepBack(cache.Keys, bound, it)
    ensures Cleaning(cache, cache, it, start, end) && (it.Some? ==> it.value in cache)
  {
  }

  class Converter {
    const mem: array<Byte>
    const host: nat -> nat
    const grant: (nat, nat) -> Option<Dmi>
    var cache: map<int, Dmi>
    var asked: nat

    ghost predicate Valid()
      reads this
    {
      && CacheOk(cache, host) && GrantsOk(grant, host) && Fits(cache, grant)
      && forall a: nat :: a < TWO64 ==> host(a) < mem.Length
    }

    constructor (mem: array<Byte>, host: nat -> nat, grant: (nat, nat) -> Option<Dmi>)
      requires GrantsOk(grant, host) && forall a: nat :: a < TWO64 ==> host(a) < mem.Length
      ensures Valid() && this.mem == mem && this.host == host && this.grant == grant && cache == map[] && asked == 0
    {
      this.mem, this.host, this.grant, cache, asked := mem, host, grant, map[], 0;
    }

    /** The cached block with this address, if there is one. */
    method InCache(addr: nat) returns (r: Option<Dmi>)
      requires CacheOk(cache, host)
      ensures r.Some? ==> r.value.Has(addr) && r.value.start in cache && cache[r.value.start] == r.value
      ensures r.None? ==> forall k :: k in cache ==> !cache[k].Has(addr)
    {
      var it := LowerBound(cache.Keys, addr + 1);
      var prev := StepBack(cache.Keys, it);
      r := None;
      if prev != it {
        var k := prev.value;
        if cache[k].Has(addr) { r := Some(cache[k]); }
      }
    }

    /** The access has had the effect of moving its first |on| bytes. */
    ghost predicate Moved(cmd: Command, mem0: Bytes, addr: nat, data0: Bytes, data: array<Byte>, on: seq<bool>)
      requires |data0| == data.Length && |mem0| == mem.Length && |on| <= |data0| && Placed(host, addr, |data0|, |mem0|)
      reads mem, data
    {
      && mem[..] == MemAfter(cmd, mem0, host, addr, data0, on)
      && data[..] == DataAfter(cmd, mem0, host, addr, data0, on)
    }

    method MoveByte(cmd: Command, data: array<Byte>, k: nat, h: nat, en: bool,
                    ghost mem0: Bytes, ghost addr: nat, ghost data0: Bytes, ghost on: seq<bool>)
      requires data != mem && |mem0| == mem.Length && |data0| == data.Length && Placed(host, addr, |data0|, |mem0|)
      requires k == |on| < data.Length && h == host(addr + k) && Moved(cmd, mem0, addr, data0, data, on)
      modifies mem, data
      ensures Moved(cmd, mem0, addr, data0, data, on + [en])
    {
      ReadStep(mem0, host, addr, data0, on, en);
      WriteStep(mem0, host, addr, data0, on, en);
      ghost var m, d := mem[..], data[..];
      if en {
        if cmd == Write {
          mem[h] := data[k];
          assert mem[..] == m[h := data0[k]] && data[..] == d;
        } else if cmd == Read {
          data[k] := mem[h];
          assert data[..] == d[k := mem0[h]] && mem[..] == m;
        }
      }
    }

    /** Copy n bytes between a block, from host byte `at` on, and the data from byte `from` on. */
    method CopyBlock(cmd: Command, data: array<Byte>, from: nat, n: nat, at: nat, b: Option<Bytes>,
                     ghost mem0: Bytes, ghost addr: nat, ghost data0: Bytes, ghost on: seq<bool>)
      requires data != mem && |mem0| == mem.Length && |data0| == data.Length && Placed(host, addr, |data0|, |mem0|)
      requires EnablesOk(b) && from == |on| && from + n <= data.Length && Moved(cmd, mem0, addr, data0, data, on)
      requires forall a: nat :: addr + from <= a < addr + from + n ==> host(a) == at + (a - (addr + from))
      modifies mem, data
      ensures Moved(cmd, mem0, addr, data0, data, on + AllOn(b, n))
    {
      OnStep(on, b, 0);
      for i := 0 to n
        invariant Moved(cmd, mem0, addr, data0, data, on + AllOn(b, i))
      {
        OnStep(on, b, i);
        var en := b.None? || b.value[i % |b.value|] == ENABLED;
        assert host(addr + (from + i)) == at + i;
        MoveByte(cmd, data, from + i, at + i, en, mem0, addr, data0, on + AllOn(b, i));
      }
    }

    /** The bus behind the converter: an access it accepts is a flat one. */
    method Forward(cmd: Command, data: array<Byte>, from: nat, addr: nat, b: Option<Bytes>, ok: bool,
                   ghost mem0: Bytes, ghost data0: Bytes, ghost on: seq<bool>)
      requires data != mem && |mem0| == mem.Length && |data0| == data.Length && Placed(host, addr, |data0|, |mem0|)
      requires EnablesOk(b) && from == |on| <= data.Length && Moved(cmd, mem0, addr, data0, data, on)
      modifies mem, data
      ensures Moved(cmd, mem0, addr, data0, data, on + AllOn(b, if ok then data.Length - from else 0))
    {
      OnStep(on, b, 0);
      if !ok { return; }
      for i := 0 to data.Length - from
        invariant Moved(cmd, mem0, addr, data0, data, on + AllOn(b, i))
      {
        OnStep(on, b, i);
        var en := b.None? || b.value[i % |b.value|] == ENABLED;
        MoveByte(cmd, data, from + i, host(addr + from + i), en, mem0, addr, data0, on + AllOn(b, i));
      }
    }

    /** State of an access of which `done` bytes have moved. */
    ghost predicate Underway(cmd: Command, mem0: Bytes, addr: nat, data0: Bytes, data: array<Byte>, be: Option<Bytes>,
                             byt: Option<Bytes>, rem: nat, done: nat, on: seq<bool>, base: seq<nat>)
      reads mem, data
    {
      && data != mem && |mem0| == mem.Length && |data0| == data.Length && Placed(host, addr, |data0|, |mem0|)
      && EnablesOk(be) && EnableState(be, data.Length, done, byt, rem)
      && Pieces(be, data.Length, on, base) && |on| == done
      && Moved(cmd, mem0, addr, data0, data, on)
    }

    /** One round that hits the cache: move as much as the block holds. */
    method UseBlock(cmd: Command, d: Dmi, addr: nat, data: array<Byte>, be: Option<Bytes>, byt: Option<Bytes>,
                    rem: nat, done: nat,
                    ghost mem0: Bytes, ghost data0: Bytes, ghost on: seq<bool>, ghost base: seq<nat>)
      returns (done': nat, byt': Option<Bytes>, rem': nat, ghost on': seq<bool>, ghost base': seq<nat>)
      requires Underway(cmd, mem0, addr, data0, data, be, byt, rem, done, on, base)
      requires Good(d, host) && d.Has(addr + done) && done < data.Length && addr + data.Length <= TWO64
      modifies mem, data
      ensures done < done' <= data.Length && addr + done' <= d.end + 1
      ensures done' == data.Length || addr + done' == d.end + 1
      ensures base' == base + Repeat(done, done' - done)
      ensures Underway(cmd, mem0, addr, data0, data, be, byt', rem', done', on', base')
    {
      BlockLenZeroIff(addr + done, d.end);
      var block := BlockLen(addr + done, d.end);
      var iter := if data.Length - done > block then block else data.Length - done;
      PiecesGrow(be, data.Length, on, base, byt, rem, byt, iter);
      CopyBlock(cmd, data, done, iter, d.ptr + (addr + done - d.start), byt, mem0, addr, data0, on);
      on', base' := on + AllOn(byt, iter), base + Repeat(done, iter);
      byt', rem' := UpdateByteEnable(be, data.Length, byt, rem, iter, done);
      done' := done + iter;
    }

    /** Ask the memory behind for a grant and remember a good one. */
    method Ask(cmd: Command, a: nat) returns (got: bool)
      requires Valid() && a < TWO64
      modifies this`cache, this`asked
      ensures Valid() && asked == old(asked) + 1
      ensures got <==> Answers(old(asked), a, cmd)
      ensures got ==> var d := grant(old(asked), a).value;
        cache == old(cache)[d.start as int := d] && Covered(cache, cmd, a)
      ensures !got ==> cache == old(cache)
    {
      var g := grant(asked, a);
      asked := asked + 1;
      got := g.Some? && g.value.Grants(cmd);
      if got {
        var k: int := g.value.start;
        cache := cache[k := g.value];
        assert cache[k].Has(a);
      }
    }

    /** State of the loop over an access that began with blocks `was` and question `from`. */
    ghost predicate Going(cmd: Command, mem0: Bytes, addr: nat, data0: Bytes, data: array<Byte>, be: Option<Bytes>,
                          byt: Option<Bytes>, rem: nat, done: nat, on: seq<bool>, base: seq<nat>, was: map<int, Dmi>,
                          from: nat)
      reads this, mem, data
    {
      && Valid() && addr + data.Length <= TWO64
      && Underway(cmd, mem0, addr, data0, data, be, byt, rem, done, on, base)
      && ServedByBlocks(cache, cmd, addr, data.Length, done, base)
      && from <= asked && Grown(was, cache, from, asked)
      && (AllCovered(was, cmd, addr, data.Length) ==> cache == was)
    }

    /** A round that hits the cache. */
    method Hit(cmd: Command, d: Dmi, addr: nat, data: array<Byte>, be: Option<Bytes>, byt: Option<Bytes>, rem: nat,
               done: nat, ghost mem0: Bytes, ghost data0: Bytes, ghost on: seq<bool>, ghost base: seq<nat>,
               ghost was: map<int, Dmi>, ghost from: nat)
      returns (done': nat, byt': Option<Bytes>, rem': nat, ghost on': seq<bool>, ghost base': seq<nat>)
      requires Going(cmd, mem0, addr, data0, data, be, byt, rem, done, on, base, was, from) && done < data.Length
      requires d.Has(addr + done) && d.start in cache && cache[d.start] == d && d.Grants(cmd)
      modifies mem, data
      ensures done < done'
      ensures Going(cmd, mem0, addr, data0, data, be, byt', rem', done', on', base', was, from)
    {
      done', byt', rem', on', base' := UseBlock(cmd, d, addr, data, be, byt, rem, done, mem0, data0, on, base);
      BlockServes(cache, host, cmd, addr, data.Length, d, done, done', base);
    }

    /** A round that misses: ask for the block with the next byte. */
    method Miss(cmd: Command, addr: nat, data: array<Byte>, ghost be: Option<Bytes>, ghost byt: Option<Bytes>,
                ghost rem: nat, done: nat,
                ghost mem0: Bytes, ghost data0: Bytes, ghost on: seq<bool>, ghost base: seq<nat>,
                ghost was: map<int, Dmi>, ghost from: nat)
      returns (got: bool)
      requires Going(cmd, mem0, addr, data0, data, be, byt, rem, done, on, base, was, from) && done < data.Length
      requires !Covered(cache, cmd, addr + done)
      modifies this`cache, this`asked
      ensures Going(cmd, mem0, addr, data0, data, be, byt, rem, done, on, base, was, from)
      ensures got ==> Covered(cache, cmd, addr + done)
      ensures !got ==> !Covered(cache, cmd, addr + done) && TurnedDown(addr + done, cmd, from, asked)
    {
      ghost var before, q := cache, asked;
      got := Ask(cmd, addr + done);
      assert Underway(cmd, mem0, addr, data0, data, be, byt, rem, done, on, base);
      GrownByOne(was, before, cache, from, q, addr + done);
      if got {
        GrantKeepsServed(before, host, cmd, addr, data.Length, grant(q, addr + done).value, done, base);
      } else {
        assert !Answers(q, addr + done, cmd);
      }
    }

    /** Question q, about address a, was answered with a grant the command may use. */
    ghost predicate Answers(q: nat, a: nat, cmd: Command) { grant(q, a).Some? && grant(q, a).value.Grants(cmd) }

    /** One of questions from..to - 1 found no such grant for address a. */
    ghost predicate TurnedDown(a: nat, cmd: Command, from: nat, to: nat) {
      exists q: nat :: from <= q < to && !Answers(q, a, cmd)
    }

    /** Every block is an old one or the answer to one of questions from..to - 1. */
    ghost predicate Grown(was: map<int, Dmi>, now: map<int, Dmi>, from: nat, to: nat) {
      forall k :: k in now ==> (k in was && now[k] == was[k]) || IsAnswer(now[k], from, to)
    }

    ghost predicate IsAnswer(d: Dmi, from: nat, to: nat) {
      exists q: nat, a: nat :: from <= q < to && a < TWO64 && grant(q, a) == Some(d)
    }

    /** State at the end of the loop: blocks have served `cut` bytes, the bus behind the rest if it accepted. */
    ghost predicate Finished(cmd: Command, mem0: Bytes, addr: nat, data0: Bytes, data: array<Byte>, be: Option<Bytes>,
                             ok: bool, on: seq<bool>, base: seq<nat>, cut: nat, was: map<int, Dmi>, from: nat)
      requires |data0| == data.Length && |mem0| == mem.Length && Placed(host, addr, |data0|, |mem0|)
      reads this, mem, data
    {
      && Valid() && EnablesOk(be) && Pieces(be, data.Length, on, base) && Cuts(cache, cmd, addr, cut, base)
      && Reaches(cache, cmd, addr, data.Length, cut)
      && |on| == (if ok then data.Length else cut)
      && Moved(cmd, mem0, addr, data0, data, on)
      && Grown(was, cache, from, asked)
      && (cut < data.Length ==> TurnedDown(addr + cut, cmd, from, asked))
      && (AllCovered(was, cmd, addr, data.Length) ==> cache == was)
    }

    /** The last round: hand the rest to the bus behind. */
    method ForwardRest(cmd: Command, addr: nat, data: array<Byte>, be: Option<Bytes>, byt: Option<Bytes>, rem: nat,
                       done: nat, cacheUsed: bool, ok: bool, ghost mem0: Bytes, ghost data0: Bytes, ghost on: seq<bool>,
                       ghost base: seq<nat>, ghost was: map<int, Dmi>, ghost from: nat)
      returns (ghost on': seq<bool>, ghost base': seq<nat>)
      requires Going(cmd, mem0, addr, data0, data, be, byt, rem, done, on, base, was, from) && done < data.Length
      requires !Covered(cache, cmd, addr + done) && TurnedDown(addr + done, cmd, from, asked)
      modifies mem, data
      ensures Finished(cmd, mem0, addr, data0, data, be, ok, on', base', done, was, from)
    {
      var b := if cacheUsed && byt.Some? then Some(byt.value[..rem]) else byt;
      ghost var n := if ok then data.Length - done else 0;
      PieceOn(be, data.Length, done, byt, rem, b, 0);
      PiecesGrow(be, data.Length, on, base, byt, rem, b, n);
      RestServed(cache, cmd, addr, data.Length, done, base, n);
      Forward(cmd, data, done, addr, b, ok, mem0, data0, on);
      on', base' := on + AllOn(b, n), base + Repeat(done, n);
    }

    lemma NothingLeft(cmd: Command, mem0: Bytes, addr: nat, data0: Bytes, data: array<Byte>, be: Option<Bytes>,
                      ok: bool, byt: Option<Bytes>, rem: nat, on: seq<bool>, base: seq<nat>, was: map<int, Dmi>,
                      from: nat)
      requires Going(cmd, mem0, addr, data0, data, be, byt, rem, data.Length, on, base, was, from)
      ensures Finished(cmd, mem0, addr, data0, data, be, ok, on, base, data.Length, was, from)
    {
    }

    /** What the end of the loop means for the access as a whole. */
    lemma Promised(cmd: Command, mem0: Bytes, addr: nat, data0: Bytes, mem': Bytes, data': Bytes, be: Option<Bytes>,
                   ok: bool, on: seq<bool>, base: seq<nat>, cut: nat)
      requires EnablesOk(be) && Pieces(be, |data0|, on, base) && Cuts(cache, cmd, addr, cut, base)
      requires Reaches(cache, cmd, addr, |data0|, cut) && |on| == (if ok then |data0| else cut)
      requires |on| <= |data0| && Placed(host, addr, |data0|, |mem0|)
      requires mem' == MemAfter(cmd, mem0, host, addr, data0, on) &&
        data' == DataAfter(cmd, mem0, host, addr, data0, on)
      ensures be.None? || |be.value| < |data0| ==> on == AllOn(be, |on|)
      ensures be.None? || |be.value| < |data0| ==>
        forall i: nat :: i < |on| ==> (on[i] <==> be.None? || be.value[i % |be.value|] == 0xFF)
      ensures (forall j: nat :: j < |on| ==> !StartsAt(cache, cmd, addr, cut, j)) ==> on == AllOn(be, |on|)
      ensures ReplyOk(ReplyFor(|data0|, cut, ok), cache, cmd, addr, |data0|, |on|)
      ensures Effect(cmd, mem0, mem', host, addr, data0, data', on)
    {
      WhenRight(cache, cmd, addr, cut, be, |data0|, on, base);
      ReplyIsOk(cache, cmd, addr, |data0|, cut, ok);
      FlatEffect(cmd, mem0, host, addr, data0, on);
    }

    /**
     * An access, split over the blocks it meets. The bytes that moved, all of
     * them unless the bus behind refused the rest, moved as in one flat access in
     * which byte i had enable on[i]. That is the enable the initiator gave it
     * whenever there are no enables, or fewer than data bytes, or no block ends
     * inside the access. The blocks, cached before or granted on the way, serve
     * the first `cut` bytes and decide where pieces start.
     */
    method BTransport(cmd: Command, addr: nat, data: array<Byte>, be: Option<Bytes>, ok: bool)
      returns (r: Outcome<Reply>, ghost on: seq<bool>, ghost base: seq<nat>, ghost cut: nat)
      requires Valid() && data != mem && addr + data.Length <= TWO64
      modifies this`cache, this`asked, mem, data
      ensures Valid()
      ensures r.Fatal? <==> be == Some([])
      ensures r.Fatal? ==> mem[..] == old(mem[..]) && data[..] == old(data[..])
      ensures r.Ok? ==> Pieces(be, data.Length, on, base) && Cuts(cache, cmd, addr, cut, base)
      ensures r.Ok? ==> Reaches(cache, cmd, addr, data.Length, cut)
      ensures r.Ok? ==> mem[..] == MemAfter(cmd, old(mem[..]), host, addr, old(data[..]), on)
      ensures r.Ok? ==> data[..] == DataAfter(cmd, old(mem[..]), host, addr, old(data[..]), on)
      ensures r.Ok? && (be.None? || |be.value| < data.Length) ==> on == AllOn(be, |on|)
      ensures r.Ok? && (forall j: nat :: j < |on| ==> !StartsAt(cache, cmd, addr, cut, j)) ==> on == AllOn(be, |on|)
      ensures r.Ok? ==> r.value == ReplyFor(data.Length, cut, ok)
      ensures r.Ok? ==> ReplyOk(r.value, cache, cmd, addr, data.Length, |on|)
      ensures r.Ok? ==> Effect(cmd, old(mem[..]), mem[..], host, addr, old(data[..]), data[..], on)
      ensures r.Ok? && (be.None? || |be.value| < data.Length) ==>
        forall i: nat :: i < |on| ==> (on[i] <==> be.None? || be.value[i % |be.value|] == 0xFF)
      ensures r.Ok? ==> |on| == if ok then data.Length else cut
      ensures Grown(old(cache), cache, old(asked), asked)
      ensures r.Ok? && cut < data.Length ==> TurnedDown(addr + cut, cmd, old(asked), asked)
      ensures AllCovered(old(cache), cmd, addr, data.Length) ==> cache == old(cache)
    {
      on, base, cut := [], [], 0;
      if be == Some([]) { return Fatal, on, base, cut; }
      EnablesStart(be, data.Length);
      var reply;
      reply, on, base, cut := Split(cmd, addr, data, be, ok, mem[..], data[..]);
      Promised(cmd, old(mem[..]), addr, old(data[..]), mem[..], data[..], be, ok, on, base, cut);
      r := Ok(reply);
    }

    method Split(cmd: Command, addr: nat, data: array<Byte>, be: Option<Bytes>, ok: bool, ghost mem0: Bytes,
                 ghost data0: Bytes)
      returns (reply: Reply, ghost on: seq<bool>, ghost base: seq<nat>, ghost cut: nat)
      requires Valid() && addr + data.Length <= TWO64
      requires Underway(cmd, mem0, addr, data0, data, be, be, if be.Some? then |be.value| else 0, 0, [], [])
      modifies this`cache, this`asked, mem, data
      ensures Finished(cmd, mem0, addr, data0, data, be, ok, on, base, cut, old(cache), old(asked))
      ensures reply == ReplyFor(data.Length, cut, ok)
    {
      on, base := [], [];
      var byt, rem: nat := be, if be.Some? then |be.value| else 0;
      var done, cacheUsed := 0, false;
      reply := Reply(Untouched, None);
      ghost var known := false;    // the block with the next byte has just been cached
      while done < data.Length
        invariant Going(cmd, mem0, addr, data0, data, be, byt, rem, done, on, base, old(cache), old(asked))
        invariant known ==> Covered(cache, cmd, addr + done)
        invariant reply == if done < data.Length then Reply(Untouched, None) else ReplyFor(data.Length, done, ok)
        decreases data.Length - done, if known then 0 else 1
      {
        var d := InCache(addr + done);
        if d.Some? && d.value.Grants(cmd) {
          done, byt, rem, on, base :=
            Hit(cmd, d.value, addr, data, be, byt, rem, done, mem0, data0, on, base, old(cache), old(asked));
          if done == data.Length { reply := Reply(OkResponse, Some(true)); }
          cacheUsed, known := true, false;
        } else {
          MissIsNotCovered(cmd, addr + done, d);
          var got := Miss(cmd, addr, data, be, byt, rem, done, mem0, data0, on, base, old(cache), old(asked));
          if got {
            known := true;
          } else {
            on, base := ForwardRest(cmd, addr, data, be, byt, rem, done, cacheUsed, ok, mem0, data0, on, base,
              old(cache), old(asked));
            return Reply(if ok then OkResponse else Refused, Some(false)), on, base, done;
          }
        }
      }
      cut := done;
      NothingLeft(cmd, mem0, addr, data0, data, be, ok, byt, rem, on, base, old(cache), old(asked));
    }

    lemma GrownByOne(was: map<int, Dmi>, before: map<int, Dmi>, after: map<int, Dmi>, from: nat, q: nat, a: nat)
      requires Grown(was, before, from, q) && from <= q && a < TWO64
      requires after == before ||
        (grant(q, a).Some? && after == before[grant(q, a).value.start as int := grant(q, a).value])
      ensures Grown(was, after, from, q + 1)
    {
      forall k | k in after ensures (k in was && after[k] == was[k]) || IsAnswer(after[k], from, q + 1) {
        if k in before && after[k] == before[k] {
          assert (k in was && before[k] == was[k]) || IsAnswer(before[k], from, q);
        } else {
          assert grant(q, a) == Some(after[k]);
        }
      }
    }

    /** Only one cached block can hold an address, so a lookup that misses means no block lets the access through. */
    lemma MissIsNotCovered(cmd: Command, a: nat, d: Option<Dmi>)
      requires CacheOk(cache, host)
      requires d.None? ==> forall k :: k in cache ==> !cache[k].Has(a)
      requires d.Some? ==> d.value.Has(a) && d.value.start in cache && cache[d.value.start] == d.value
      requires d.Some? ==> !d.value.Grants(cmd)
      ensures !Covered(cache, cmd, a)
    {
    }

    method GetDirectMemPtr(addr: nat) returns (r: Option<Dmi>)
      requires Valid() && addr < TWO64
      modifies this`cache, this`asked
      ensures Valid()
      ensures r.Some? ==> Good(r.value, host) && r.value.start <= addr <= r.value.end
      ensures forall k :: k in old(cache) && old(cache)[k].start <= addr <= old(cache)[k].end ==>
        && cache == old(cache) && asked == old(asked)
        && r == if cache[k].read || cache[k].write then Some(cache[k]) else None
      ensures (forall k :: k in old(cache) ==> !(old(cache)[k].start <= addr <= old(cache)[k].end)) ==>
        && r == grant(old(asked), addr) && asked == old(asked) + 1
        && cache == if r.Some? then old(cache)[r.value.start as int := r.value] else old(cache)
    {
      var d := InCache(addr);
      if d.Some? {
        return if d.value.read || d.value.write then d else None;
      }
      r := grant(asked, addr);
      asked := asked + 1;
      if r.Some? { cache := cache[r.value.start as int := r.value]; }
    }

    /** Invalidation drops exactly the cached blocks that meet the range. */
    method CacheClean(start: nat, end: nat)
      requires Valid()
      modifies this`cache
      ensures Valid()
      ensures cache == map k | k in old(cache) && !old(cache)[k].Meets(start, end) :: old(cache)[k]
    {
      var bound := LowerBound(cache.Keys, start + 1);
      var it := StepBack(cache.Keys, bound);
      CleanStart(cache, host, bound, it, start, end);
      while it.Some?
        invariant it.Some? ==> it.value in cache
        invariant Cleaning(old(cache), cache, it, start, end)
        decreases From(cache.Keys, it)
      {
        var k := it.value;
        var d := cache[k];
        if d.start > end { break; }
        ghost var keys, before := From(cache.Keys, it), cache;
        if d.end < start {
          it := LowerBound(cache.Keys, k + 1);
        } else {
          cache := cache - {k};
          it := LowerBound(cache.Keys, k + 1);
        }
        CleanStep(old(cache), before, k, it, start, end);
        assert k in keys && k !in From(cache.Keys, it) && From(cache.Keys, it) <= keys;
      }
      CleanDone(old(cache), cache, it, start, end, host);
    }
  }

  // ---- The converter at its worst ------------------------------------------------------------------

  /** Memory that grants every address in a block of its own. */
  function ByteGrant(n: nat): (nat, nat) -> Option<Dmi> {
    (q: nat, a: nat) => Some(Dmi(a, a, if a < n then a else 0, true, true))
  }

  function ByteHost(n: nat): nat -> nat { (a: nat) => if a < n then a else 0 }

  lemma ByteGrantsOk(n: nat)
    requires n >= 1
    ensures GrantsOk(ByteGrant(n), ByteHost(n)) && forall a: nat :: ByteHost(n)(a) < n
  {
  }

  lemma ByteHostIsInPlace(n: nat)
    ensures Placed(ByteHost(n), 0, n, n) && Injective(ByteHost(n), 0, n)
  {
  }

  /** Nothing is turned down, so blocks serve everything. */
  lemma AllGranted(c: Converter, n: nat, cmd: Command, cut: nat, from: nat)
    requires c.grant == ByteGrant(n) && (cmd == Write || cmd == Read)
    ensures !c.TurnedDown(cut, cmd, from, c.asked)
  {
  }

  lemma EveryByteAPiece(c: Converter, n: nat, cmd: Command, cut: nat, base: seq<nat>)
    requires c.grant == ByteGrant(n) && c.Grown(map[], c.cache, 0, c.asked)
    requires Reaches(c.cache, cmd, 0, n, cut) && cut == n == |base| && Cuts(c.cache, cmd, 0, cut, base)
    ensures base == Singles(n)
  {
    forall i: nat | i < n ensures base[i] == i {
      if i > 0 {
        assert Covered(c.cache, cmd, i - 1);
        var k :| k in c.cache && c.cache[k].Has(i - 1) && c.cache[k].Grants(cmd);
        assert c.IsAnswer(c.cache[k], 0, c.asked);
        assert EndsAt(c.cache, cmd, 0 + i - 1);
        assert StartsAt(c.cache, cmd, 0, cut, i);
      }
    }
  }

  lemma FirstEnable(be: Bytes, on: seq<bool>, base: seq<nat>, i: nat)
    requires i < |on| <= |be| && Pieces(Some(be), |on|, on, base) && base == Singles(|on|)
    ensures on[i] <==> be[0] == ENABLED
  {
    assert on[i] == OnAt(Some(be), |on|, base[i], i);
  }

  lemma {:induction false} WrittenInPlace(zeros: Bytes, data: Bytes, on: seq<bool>, i: nat)
    requires i < |data| == |zeros| == |on| && Placed(ByteHost(|data|), 0, |data|, |data|)
    ensures Written(zeros, ByteHost(|data|), 0, data, on)[i] == if on[i] then data[i] else zeros[i]
  {
    ByteHostIsInPlace(|data|);
    WrittenAt(zeros, ByteHost(|data|), 0, data, on, i);
    assert ByteHost(|data|)(0 + i) == i;
  }

  lemma {:induction false} AllOrNothing(zeros: Bytes, data: Bytes, be: Bytes, on: seq<bool>, base: seq<nat>)
    requires 1 <= |data| <= |be| && |zeros| == |data| == |on| && Placed(ByteHost(|data|), 0, |data|, |data|)
    requires Pieces(Some(be), |on|, on, base) && base == Singles(|on|)
    ensures Written(zeros, ByteHost(|data|), 0, data, on) == if be[0] == ENABLED then data else zeros
  {
    var w, expected := Written(zeros, ByteHost(|data|), 0, data, on), if be[0] == ENABLED then data else zeros;
    forall i: nat | i < |data| ensures w[i] == expected[i] {
      FirstEnable(be, on, base, i);
      WrittenInPlace(zeros, data, on, i);
    }
  }

  /**
   * An actual access: `data` is written to zeroed memory behind one-byte blocks,
   * with at least as many enables as bytes. Every byte gets the first enable.
   */
  method WriteBehindByteBlocks(data: array<Byte>, be: Bytes) returns (after: Bytes)
    requires 1 <= data.Length <= |be| && data.Length <= TWO64
    modifies data
    ensures data[..] == old(data[..])
    ensures after == if be[0] == ENABLED then data[..] else seq(data.Length, _ => 0)
  {
    var n := data.Length;
    var mem := new Byte[n](_ => 0);
    ByteGrantsOk(n);
    var c := new Converter(mem, ByteHost(n), ByteGrant(n));
    ghost var zeros, given := mem[..], data[..];
    var r, on, base, cut := c.BTransport(Write, 0, data, Some(be), true);
    AllGranted(c, n, Write, cut, 0);
    EveryByteAPiece(c, n, Write, cut, base);
    AllOrNothing(zeros, given, be, on, base);
    after := mem[..];
    assert zeros == seq(n, _ => 0);
    assert data[..] == given;
  }

  lemma FlatWritesFirst()
    ensures Written([0, 0], ByteHost(2), 0, [1, 1], AllOn(Some([ENABLED, 0]), 2)) == [1, 0]
  {
    var on := AllOn(Some([ENABLED, 0]), 2);
    ByteHostIsInPlace(2);
    WrittenAt([0, 0], ByteHost(2), 0, [1, 1], on, 0);
    WrittenAt([0, 0], ByteHost(2), 0, [1, 1], on, 1);
    var w := Written([0, 0], ByteHost(2), 0, [1, 1], on);
    assert w[0] == 1 && w[1] == 0;
  }

  /** Two bytes, of which only the first is enabled: both are written, where the flat access writes one. */
  method SecondPieceForgets() returns (after: Bytes, flat: Bytes)
    ensures flat == Written([0, 0], ByteHost(2), 0, [1, 1], AllOn(Some([ENABLED, 0]), 2))
    ensures after == [1, 1] && flat == [1, 0]
  {
    var data := new Byte[2](_ => 1);
    assert data[..] == [1, 1];
    after := WriteBehindByteBlocks(data, [ENABLED, 0]);
    flat := [1, 0];
    FlatWritesFirst();
  }
}
