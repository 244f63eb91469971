/**
 * How the DMI converter splits an access: direct-memory grants, the blocks that
 * serve an address, and the byte enables each piece gets.
 */
module DmiPieces {
  import opened Arithmetic
  import opened Basics
  import opened DmiFlat

  /** A direct-memory grant: addresses start..end are host bytes ptr, ptr + 1, ... */
  datatype Dmi = Dmi(start: nat, end: nat, ptr: nat, read: bool, write: bool) {
    predicate Has(a: nat) { start <= a <= end }
    predicate Grants(cmd: Command) { (cmd == Write && write) || (cmd == Read && read) }
    predicate Meets(lo: nat, hi: nat) { start <= hi && lo <= end }
  }

  datatype Status = Untouched | OkResponse | Refused

  datatype Reply = Reply(status: Status, dmiAllowed: Option<bool>)

  ghost predicate SameOrApart(d: Dmi, e: Dmi) {
    (d.start == e.start && d.end == e.end) || d.end < e.start || e.end < d.start
  }

  /** The grant agrees with where the addresses really are, and is not all of the address space. */
  ghost predicate Good(d: Dmi, host: nat -> nat) {
    && d.start <= d.end < TWO64 && !(d.start == 0 && d.end == TWO64 - 1)
    && forall a: nat :: d.Has(a) ==> host(a) == d.ptr + (a - d.start)
  }

  /** What the memory behind may answer: grant(k, a) is its answer to the k-th question, about address a. */
  ghost predicate GrantsOk(grant: (nat, nat) -> Option<Dmi>, host: nat -> nat) {
    && (forall k: nat, a: nat :: a < TWO64 && grant(k, a).Some? ==>
          Good(grant(k, a).value, host) && grant(k, a).value.Has(a))
    && (forall k: nat, a: nat, l: nat, b: nat :: a < TWO64 && b < TWO64 && grant(k, a).Some? && grant(l, b).Some?
          ==> SameOrApart(grant(k, a).value, grant(l, b).value))
  }

  ghost predicate CacheOk(cache: map<int, Dmi>, host: nat -> nat) {
    && (forall k :: k in cache ==> cache[k].start == k && Good(cache[k], host))
    && (forall k, l :: k in cache && l in cache ==> SameOrApart(cache[k], cache[l]))
  }

  ghost predicate Fits(cache: map<int, Dmi>, grant: (nat, nat) -> Option<Dmi>) {
    forall k, q: nat, a: nat :: k in cache && a < TWO64 && grant(q, a).Some? ==>
      SameOrApart(cache[k], grant(q, a).value)
  }

  /** Bytes from addr to the end of a block, as the unsigned 64-bit subtraction gives them. */
  function BlockLen(addr: nat, end: nat): nat
    requires addr <= end < TWO64
  {
    (end - addr + 1) % TWO64
  }

  /** The loop makes progress on a block unless the block is all of the address space and the access is at 0. */
  lemma BlockLenZeroIff(addr: nat, end: nat)
    requires addr <= end < TWO64
    ensures BlockLen(addr, end) == 0 <==> addr == 0 && end == TWO64 - 1
    ensures BlockLen(addr, end) != 0 ==> BlockLen(addr, end) == end - addr + 1
  {
  }

  // ---- Byte enables over a split access ------------------------------------------------------------

  /** The enable that byte i gets when it moves in a piece that starts with byte base. */
  ghost predicate OnAt(be: Option<Bytes>, len: nat, base: nat, i: nat)
    requires EnablesOk(be) && base <= i < len
  {
    if be.Some? && |be.value| >= len then be.value[i - base] == ENABLED else On(be, i)
  }

  /** The working copy of the enables, and its length, when `done` bytes have moved. */
  ghost predicate EnableState(be: Option<Bytes>, len: nat, done: nat, byt: Option<Bytes>, rem: nat)
    requires EnablesOk(be)
  {
    && byt.Some? == be.Some?
    && (be.Some? && |be.value| < len ==> rem == |be.value| && IsRotation(be.value, byt.value, done))
    && (be.Some? && |be.value| >= len ==> byt == be && len - done <= rem <= |be.value|)
  }

  ghost predicate Turned(b: Bytes, r: Bytes, turn: nat, j: nat)
    requires b != [] && j < |b| == |r|
  {
    r[j] == b[(turn + j) % |b|]
  }

  ghost predicate IsRotation(b: Bytes, r: Bytes, turn: nat)
    requires b != []
  {
    |r| == |b| && forall j: nat :: j < |b| ==> Turned(b, r, turn, j)
  }

  lemma EnablesStart(be: Option<Bytes>, len: nat)
    requires EnablesOk(be)
    ensures EnableState(be, len, 0, be, if be.Some? then |be.value| else 0)
  {
    if be.Some? {
      var b := be.value;
      forall j: nat | j < |b| ensures Turned(b, b, 0, j) { DivMod(0, |b|, j); }
    }
  }

  /** The next piece gets the right enables from the working copy. */
  lemma PieceOn(be: Option<Bytes>, len: nat, done: nat, byt: Option<Bytes>, rem: nat, b: Option<Bytes>, i: nat)
    requires EnablesOk(be) && EnableState(be, len, done, byt, rem) && done + i < len
    requires b == byt || (byt.Some? && b == Some(byt.value[..rem]))
    ensures EnablesOk(b) && On(b, i) == OnAt(be, len, done, done + i)
  {
    if be.Some? {
      if |be.value| < len {
        assert b.value == byt.value;
        RotationAt(be.value, byt.value, done, i);
      } else {
        DivMod(0, |b.value|, i);
      }
    }
  }

  lemma RotationAt(b: Bytes, r: Bytes, turn: nat, i: nat)
    requires b != [] && IsRotation(b, r, turn)
    ensures r[i % |b|] == b[(turn + i) % |b|]
  {
    ModSum(turn, i, |b|);
    assert Turned(b, r, turn, i % |b|);
  }

  /** Bytes moved so far, byte i in a piece that starts with byte base[i], and the enables they got. */
  ghost predicate Pieces(be: Option<Bytes>, len: nat, on: seq<bool>, base: seq<nat>)
    requires EnablesOk(be)
  {
    && |on| == |base| <= len
    && forall i: nat :: i < |on| ==> base[i] <= i && on[i] == OnAt(be, len, base[i], i)
  }

  function Repeat(x: nat, n: nat): (r: seq<nat>)
    ensures |r| == n && forall i :: 0 <= i < n ==> r[i] == x
  {
    seq(n, _ => x)
  }

  lemma PiecesGrow(be: Option<Bytes>, len: nat, on: seq<bool>, base: seq<nat>, byt: Option<Bytes>, rem: nat,
                   b: Option<Bytes>, n: nat)
    requires EnablesOk(be) && EnableState(be, len, |on|, byt, rem) && Pieces(be, len, on, base) && |on| + n <= len
    requires EnablesOk(b) && (b == byt || (byt.Some? && rem <= |byt.value| && b == Some(byt.value[..rem])))
    ensures Pieces(be, len, on + AllOn(b, n), base + Repeat(|on|, n))
  {
    var on', base' := on + AllOn(b, n), base + Repeat(|on|, n);
    forall i: nat | i < |on'| ensures base'[i] <= i && on'[i] == OnAt(be, len, base'[i], i) {
      if i >= |on| { PieceOn(be, len, |on|, byt, rem, b, i - |on|); }
    }
  }

  /** Enables shorter than the data, or none: however the access is split, each byte gets its own. */
  lemma ShortEnablesAreRight(be: Option<Bytes>, len: nat, on: seq<bool>, base: seq<nat>)
    requires EnablesOk(be) && Pieces(be, len, on, base) && (be.None? || |be.value| < len)
    ensures on == AllOn(be, |on|)
  {
  }

  /** So they do when everything moves in one piece, whatever the enables. */
  lemma OnePieceIsRight(be: Option<Bytes>, len: nat, on: seq<bool>, base: seq<nat>)
    requires EnablesOk(be) && Pieces(be, len, on, base) && base == Repeat(0, |on|)
    ensures on == AllOn(be, |on|)
  {
    forall i: nat | i < |on| ensures on[i] == On(be, i) {
      if be.Some? && |be.value| >= len { DivMod(0, |be.value|, i); }
    }
  }

  // ---- Pieces and blocks -----------------------------------------------------------------------

  /** A cached block lets the command at this address through. */
  ghost predicate Covered(cache: map<int, Dmi>, cmd: Command, a: nat) {
    exists k :: k in cache && cache[k].Has(a) && cache[k].Grants(cmd)
  }

  /** A cached block that the command may use ends here. */
  ghost predicate EndsAt(cache: map<int, Dmi>, cmd: Command, a: nat) {
    exists k :: k in cache && cache[k].end == a && cache[k].Grants(cmd)
  }

  /** The blocks serve the first `cut` bytes of the access and not the next one. */
  ghost predicate Reaches(cache: map<int, Dmi>, cmd: Command, addr: nat, len: nat, cut: nat) {
    && cut <= len
    && (forall a: nat :: addr <= a < addr + cut ==> Covered(cache, cmd, a))
    && (cut < len ==> !Covered(cache, cmd, addr + cut))
  }

  /** A block ends just before byte j, and blocks still serve the access there. */
  ghost predicate StartsAt(cache: map<int, Dmi>, cmd: Command, addr: nat, cut: nat, j: nat) {
    0 < j <= cut && EndsAt(cache, cmd, addr + j - 1)
  }

  /**
   * Where the piece with byte i starts: a new piece starts exactly where a block
   * ends, and the rest from `cut` on is one.
   */
  ghost function PieceStart(cache: map<int, Dmi>, cmd: Command, addr: nat, cut: nat, i: nat): (s: nat)
    ensures s <= i
  {
    if i == 0 then 0
    else if StartsAt(cache, cmd, addr, cut, i) then i
    else PieceStart(cache, cmd, addr, cut, i - 1)
  }

  ghost predicate Cuts(cache: map<int, Dmi>, cmd: Command, addr: nat, cut: nat, base: seq<nat>) {
    forall i: nat :: i < |base| ==> base[i] == PieceStart(cache, cmd, addr, cut, i)
  }

  ghost predicate AllCovered(cache: map<int, Dmi>, cmd: Command, addr: nat, len: nat) {
    forall a: nat :: addr <= a < addr + len ==> Covered(cache, cmd, a)
  }

  /** The reply to an access of which blocks served the first `cut` bytes and the bus answered `ok` for the rest. */
  function ReplyFor(len: nat, cut: nat, ok: bool): Reply {
    if len == 0 then Reply(Untouched, None)
    else if cut == len then Reply(OkResponse, Some(true))
    else Reply(if ok then OkResponse else Refused, Some(false))
  }

  /** Some block has address a and lets the command through. */
  ghost predicate BlockFor(cache: map<int, Dmi>, cmd: Command, a: nat) {
    exists k :: k in cache && cache[k].start <= a <= cache[k].end &&
                ((cmd == Write && cache[k].write) || (cmd == Read && cache[k].read))
  }

  /**
   * The answer to an access of which `moved` bytes were performed: it succeeded if
   * all were, and further direct access is recommended if blocks hold all of it.
   */
  ghost predicate ReplyOk(reply: Reply, cache: map<int, Dmi>, cmd: Command, addr: nat, len: nat, moved: nat) {
    if len == 0 then reply == Reply(Untouched, None)
    else
      && reply.status == (if moved == len then OkResponse else Refused)
      && reply.dmiAllowed.Some?
      && (reply.dmiAllowed.value <==> forall a: nat :: addr <= a < addr + len ==> BlockFor(cache, cmd, a))
  }

  lemma ReplyIsOk(cache: map<int, Dmi>, cmd: Command, addr: nat, len: nat, cut: nat, ok: bool)
    requires Reaches(cache, cmd, addr, len, cut)
    ensures ReplyOk(ReplyFor(len, cut, ok), cache, cmd, addr, len, if ok then len else cut)
  {
    forall a: nat ensures BlockFor(cache, cmd, a) <==> Covered(cache, cmd, a) {
      if Covered(cache, cmd, a) {
        var k :| k in cache && cache[k].Has(a) && cache[k].Grants(cmd);
        assert cache[k].start <= a <= cache[k].end;
      }
      if BlockFor(cache, cmd, a) {
        var k :| k in cache && cache[k].start <= a <= cache[k].end &&
                 ((cmd == Write && cache[k].write) || (cmd == Read && cache[k].read));
        assert cache[k].Has(a) && cache[k].Grants(cmd);
      }
    }
    if cut < len { assert !BlockFor(cache, cmd, addr + cut); }
  }

  lemma OnePiece(cache: map<int, Dmi>, cmd: Command, addr: nat, cut: nat, base: seq<nat>)
    requires Cuts(cache, cmd, addr, cut, base) && forall j: nat :: j < |base| ==> !StartsAt(cache, cmd, addr, cut, j)
    ensures base == Repeat(0, |base|)
  {
    forall i: nat | i < |base| ensures base[i] == 0 { SamePiece(cache, cmd, addr, cut, 0, i); }
  }

  /** Enables shorter than the data, and accesses in one piece, move exactly the enabled bytes. */
  lemma WhenRight(cache: map<int, Dmi>, cmd: Command, addr: nat, cut: nat, be: Option<Bytes>, len: nat, on: seq<bool>,
                  base: seq<nat>)
    requires EnablesOk(be) && Pieces(be, len, on, base) && Cuts(cache, cmd, addr, cut, base)
    ensures be.None? || |be.value| < len ==> on == AllOn(be, |on|)
    ensures (forall j: nat :: j < |on| ==> !StartsAt(cache, cmd, addr, cut, j)) ==> on == AllOn(be, |on|)
  {
    if be.None? || |be.value| < len { ShortEnablesAreRight(be, len, on, base); }
    if forall j: nat :: j < |on| ==> !StartsAt(cache, cmd, addr, cut, j) {
      OnePiece(cache, cmd, addr, cut, base);
      OnePieceIsRight(be, len, on, base);
    }
  }

  /** Without the end of a block in between, byte i is in the piece of byte `from`. */
  lemma {:induction false} SamePiece(cache: map<int, Dmi>, cmd: Command, addr: nat, cut: nat, from: nat, i: nat)
    requires from <= i && forall j: nat :: from < j <= i ==> !StartsAt(cache, cmd, addr, cut, j)
    ensures PieceStart(cache, cmd, addr, cut, i) == PieceStart(cache, cmd, addr, cut, from)
    decreases i
  {
    if from < i { SamePiece(cache, cmd, addr, cut, from, i - 1); }
  }

  /** Only ends of blocks before byte i, and before the cut, matter. */
  lemma {:induction false} SameStarts(cache: map<int, Dmi>, cache': map<int, Dmi>, cmd: Command, addr: nat, cut: nat,
                                      cut': nat, i: nat)
    requires forall j: nat :: j <= i ==> (StartsAt(cache, cmd, addr, cut, j) <==> StartsAt(cache', cmd, addr, cut', j))
    ensures PieceStart(cache, cmd, addr, cut, i) == PieceStart(cache', cmd, addr, cut', i)
    decreases i
  {
    if i > 0 { SameStarts(cache, cache', cmd, addr, cut, cut', i - 1); }
  }

  /** What holds when the first `done` bytes have been served by blocks. */
  ghost predicate ServedByBlocks(cache: map<int, Dmi>, cmd: Command, addr: nat, len: nat, done: nat, base: seq<nat>) {
    && |base| == done <= len && Cuts(cache, cmd, addr, done, base)
    && (forall a: nat :: addr <= a < addr + done ==> Covered(cache, cmd, a))
    && (0 < done < len ==> EndsAt(cache, cmd, addr + done - 1))
  }

  /** One block more. */
  lemma BlockServes(cache: map<int, Dmi>, host: nat -> nat, cmd: Command, addr: nat, len: nat, d: Dmi, done: nat,
                    done': nat, base: seq<nat>)
    requires CacheOk(cache, host) && ServedByBlocks(cache, cmd, addr, len, done, base)
    requires d.start in cache && cache[d.start] == d && d.Has(addr + done) && d.Grants(cmd)
    requires done < done' <= len && (done' == len || addr + done' == d.end + 1) && addr + done' <= d.end + 1
    ensures ServedByBlocks(cache, cmd, addr, len, done', base + Repeat(done, done' - done))
  {
    var base' := base + Repeat(done, done' - done);
    var k: int := d.start;
    assert cache[k] == d;
    forall i: nat | i < done' ensures base'[i] == PieceStart(cache, cmd, addr, done', i) {
      if i < done {
        SameStarts(cache, cache, cmd, addr, done, done', i);
      } else {
        assert PieceStart(cache, cmd, addr, done', done) == done;
        forall j: nat | done < j <= i ensures !StartsAt(cache, cmd, addr, done', j) {
          InsideBlock(cache, host, cmd, d, addr + j - 1);
        }
        SamePiece(cache, cmd, addr, done', done, i);
      }
    }
  }

  /** No block ends inside another. */
  lemma InsideBlock(cache: map<int, Dmi>, host: nat -> nat, cmd: Command, d: Dmi, a: nat)
    requires CacheOk(cache, host) && d.start in cache && cache[d.start] == d && d.start <= a < d.end
    ensures !EndsAt(cache, cmd, a)
  {
  }

  /** A grant for the next byte changes nothing about the bytes before it. */
  lemma GrantKeepsServed(cache: map<int, Dmi>, host: nat -> nat, cmd: Command, addr: nat, len: nat, d: Dmi, done: nat,
                         base: seq<nat>)
    requires CacheOk(cache, host) && ServedByBlocks(cache, cmd, addr, len, done, base)
    requires Good(d, host) && d.Has(addr + done) && d.Grants(cmd) && forall k :: k in cache ==> SameOrApart(cache[k], d)
    ensures ServedByBlocks(cache[d.start as int := d], cmd, addr, len, done, base)
  {
    var key: int := d.start;
    var cache' := cache[key := d];
    forall j: nat | j <= done ensures StartsAt(cache, cmd, addr, done, j) <==> StartsAt(cache', cmd, addr, done, j) {
      if j > 0 { OtherEnds(cache, host, cmd, d, addr + j - 1); }
    }
    assert 0 < done < len ==> StartsAt(cache', cmd, addr, done, done);
    forall i: nat | i < |base| ensures base[i] == PieceStart(cache', cmd, addr, done, i) {
      SameStarts(cache, cache', cmd, addr, done, done, i);
    }
    forall a: nat | addr <= a < addr + done ensures Covered(cache', cmd, a) {
      assert Covered(cache, cmd, a);
      var k :| k in cache && cache[k].Has(a) && cache[k].Grants(cmd);
      assert cache'[k].Has(a) && cache'[k].Grants(cmd);
    }
  }

  lemma OtherEnds(cache: map<int, Dmi>, host: nat -> nat, cmd: Command, d: Dmi, a: nat)
    requires CacheOk(cache, host) && Good(d, host) && a < d.end && forall k :: k in cache ==> SameOrApart(cache[k], d)
    ensures EndsAt(cache, cmd, a) <==> EndsAt(cache[d.start as int := d], cmd, a)
  {
    var key: int := d.start;
    var cache' := cache[key := d];
    if EndsAt(cache, cmd, a) {
      var k :| k in cache && cache[k].end == a && cache[k].Grants(cmd);
      assert k != key && cache'[k] == cache[k];
    }
    if EndsAt(cache', cmd, a) {
      var k :| k in cache' && cache'[k].end == a && cache'[k].Grants(cmd);
      assert k != key && cache'[k] == cache[k];
    }
  }

  /** The rest goes to the bus in one piece. */
  lemma RestServed(cache: map<int, Dmi>, cmd: Command, addr: nat, len: nat, done: nat, base: seq<nat>, n: nat)
    requires ServedByBlocks(cache, cmd, addr, len, done, base) && done < len && done + n <= len
    ensures Cuts(cache, cmd, addr, done, base + Repeat(done, n))
  {
    var base' := base + Repeat(done, n);
    forall i: nat | i < |base'| ensures base'[i] == PieceStart(cache, cmd, addr, done, i) {
      if i >= done {
        assert PieceStart(cache, cmd, addr, done, done) == done;
        SamePiece(cache, cmd, addr, done, done, i);
      }
    }
  }

  // ---- Enables as long as the data ---------------------------------------------------------------

  ghost predicate Enabled(be: Bytes, i: nat)
    requires i < |be|
  {
    be[i] == ENABLED
  }

  /** On and flat enables have the same effect on every memory of this size, for all data. */
  ghost predicate AlwaysFlat(cmd: Command, host: nat -> nat, addr: nat, size: nat, be: Bytes, on: seq<bool>)
    requires 1 <= |on| <= |be| && Placed(host, addr, |on|, size)
  {
    forall mem: Bytes, data: Bytes :: |mem| == size && |data| == |on| ==>
      SameEffect(cmd, mem, host, addr, data, on, AllOn(Some(be), |on|))
  }

  /** Each byte has the same enable as the byte that is as far into the access as it is into its piece. */
  ghost predicate EnablesFit(be: Bytes, cache: map<int, Dmi>, cmd: Command, addr: nat, cut: nat, len: nat)
    requires len <= |be|
  {
    forall i: nat :: i < len ==> (Enabled(be, i - PieceStart(cache, cmd, addr, cut, i)) <==> Enabled(be, i))
  }

  lemma FitIff(cmd: Command, addr: nat, be: Bytes, cache: map<int, Dmi>, cut: nat, on: seq<bool>, base: seq<nat>)
    requires 1 <= |on| <= |be| && Pieces(Some(be), |on|, on, base) && Cuts(cache, cmd, addr, cut, base)
    ensures EnablesFit(be, cache, cmd, addr, cut, |on|) <==> on == AllOn(Some(be), |on|)
  {
    var flat := AllOn(Some(be), |on|);
    if EnablesFit(be, cache, cmd, addr, cut, |on|) {
      forall i: nat | i < |on| ensures on[i] == flat[i] { FitAt(cmd, addr, be, cache, cut, on, base, i); }
    }
    if on == flat {
      forall i: nat | i < |on| ensures Enabled(be, i - PieceStart(cache, cmd, addr, cut, i)) <==> Enabled(be, i) {
        FitAt(cmd, addr, be, cache, cut, on, base, i);
      }
    }
  }

  lemma FitAt(cmd: Command, addr: nat, be: Bytes, cache: map<int, Dmi>, cut: nat, on: seq<bool>, base: seq<nat>, i: nat)
    requires i < |on| <= |be| && Pieces(Some(be), |on|, on, base) && Cuts(cache, cmd, addr, cut, base)
    ensures On(Some(be), i) <==> Enabled(be, i)
    ensures on[i] <==> Enabled(be, i - PieceStart(cache, cmd, addr, cut, i))
  {
    DivMod(0, |be|, i);
    assert base[i] == PieceStart(cache, cmd, addr, cut, i);
  }

  /**
   * For given blocks: the split access is the flat one, for every memory and all
   * data, if and only if each byte has the same enable as the byte that is as far
   * into the access as it is into its piece.
   */
  lemma BlocksDecide(cmd: Command, host: nat -> nat, addr: nat, size: nat, be: Bytes,
                     cache: map<int, Dmi>, cut: nat, on: seq<bool>, base: seq<nat>)
    requires cmd != Ignore && 1 <= |on| <= |be| && Pieces(Some(be), |on|, on, base) && Cuts(cache, cmd, addr, cut, base)
    requires Placed(host, addr, |on|, size) && Injective(host, addr, |on|)
    ensures AlwaysFlat(cmd, host, addr, size, be, on) <==> EnablesFit(be, cache, cmd, addr, cut, |on|)
  {
    FitIff(cmd, addr, be, cache, cut, on, base);
    SameEffectIff(cmd, host, addr, size, on, AllOn(Some(be), |on|));
  }

  /** A split into pieces, whatever the blocks. */
  ghost predicate IsSplit(base: seq<nat>) {
    forall i: nat :: i < |base| ==> base[i] == i || (i > 0 && base[i] == base[i - 1])
  }

  lemma CutsAreSplits(cache: map<int, Dmi>, cmd: Command, addr: nat, cut: nat, base: seq<nat>)
    requires Cuts(cache, cmd, addr, cut, base)
    ensures IsSplit(base)
  {
    forall i: nat | i < |base| ensures base[i] == i || (i > 0 && base[i] == base[i - 1]) {
      assert base[i] == PieceStart(cache, cmd, addr, cut, i);
      if i > 0 { assert base[i - 1] == PieceStart(cache, cmd, addr, cut, i - 1); }
    }
  }

  /** The first len enables are all set or all clear. */
  ghost predicate Alike(be: Bytes, len: nat)
    requires 1 <= len <= |be|
  {
    forall i: nat :: i < len ==> (Enabled(be, i) <==> Enabled(be, 0))
  }

  /** Every byte a piece of its own. */
  function Singles(n: nat): (r: seq<nat>)
    ensures |r| == n && forall i :: 0 <= i < n ==> r[i] == i
  {
    seq(n, i => i)
  }

  /**
   * For all blocks: an access with at least as many enables as data bytes is the
   * flat one however it is split, for every memory and all data, if and only if
   * its enables are all alike.
   */
  lemma LongEnablesIff(cmd: Command, host: nat -> nat, addr: nat, size: nat, be: Bytes, len: nat)
    requires cmd != Ignore && 1 <= len <= |be| && Placed(host, addr, len, size) && Injective(host, addr, len)
    ensures Alike(be, len) <==>
      forall on: seq<bool>, base: seq<nat> :: |on| == len && IsSplit(base) && Pieces(Some(be), len, on, base) ==>
        AlwaysFlat(cmd, host, addr, size, be, on)
  {
    if Alike(be, len) {
      forall on: seq<bool>, base: seq<nat> | |on| == len && IsSplit(base) && Pieces(Some(be), len, on, base)
        ensures AlwaysFlat(cmd, host, addr, size, be, on)
      {
        forall i: nat | i < len ensures on[i] == On(Some(be), i) {
          DivMod(0, |be|, i);
          assert Enabled(be, i - base[i]) == Enabled(be, i);
        }
        SameEffectIff(cmd, host, addr, size, on, AllOn(Some(be), len));
      }
    } else {
      var i: nat :| i < len && Enabled(be, i) != Enabled(be, 0);
      var on, base := seq(len, _ => be[0] == ENABLED), Singles(len);
      assert IsSplit(base) && Pieces(Some(be), len, on, base);
      DivMod(0, |be|, i);
      assert on[i] != AllOn(Some(be), len)[i];
      SameEffectIff(cmd, host, addr, size, on, AllOn(Some(be), len));
      assert !AlwaysFlat(cmd, host, addr, size, be, on);
    }
  }
}
