/**
 * Memory side of a masked bus write to back-to-back elements: what was captured
 * before the write and how the masked result replaces the raw one.
 */
module BankTransfer {
  import opened Arithmetic
  import opened BankLayout
  import opened BankMask
  import opened BankPort

  function Times(i: nat, n: nat): nat { if i == 0 then 0 else Times(i - 1, n) + n }

  lemma {:induction false} TimesIs(i: nat, n: nat)
    ensures Times(i, n) == i * n
    decreases i
  {
    if i > 0 {
      TimesIs(i - 1, n);
      assert i * n == (i - 1) * n + n;
    }
  }

  lemma {:induction false} TimesMonotone(i: nat, j: nat, n: nat)
    requires i <= j
    ensures Times(i, n) <= Times(j, n)
    decreases j
  {
    if i < j { TimesMonotone(i, j - 1, n); }
  }

  /** Elements of n bytes lie back to back from off on. */
  ghost predicate Row(ats: seq<nat>, off: nat, n: nat) {
    forall i: nat :: i < |ats| ==> ats[i] == off + Times(i, n)
  }

  ghost predicate AllOf(vs: seq<seq<Byte>>, n: nat) { forall i :: 0 <= i < |vs| ==> |vs[i]| == n }

  /** Elements back to back. */
  function Joined(vs: seq<seq<Byte>>, n: nat): (r: seq<Byte>)
    requires AllOf(vs, n)
    ensures |r| == Times(|vs|, n)
    decreases |vs|
  {
    if vs == [] then [] else Joined(vs[..|vs| - 1], n) + vs[|vs| - 1]
  }

  lemma {:induction false} JoinedAt(vs: seq<seq<Byte>>, n: nat, i: nat)
    requires AllOf(vs, n) && i < |vs|
    ensures Times(i, n) + n <= |Joined(vs, n)| && Bytes(Joined(vs, n), Times(i, n), n) == vs[i]
    decreases |vs|
  {
    TimesMonotone(i + 1, |vs|, n);
    if i < |vs| - 1 {
      JoinedAt(vs[..|vs| - 1], n, i);
      assert Bytes(Joined(vs, n), Times(i, n), n) == Bytes(Joined(vs[..|vs| - 1], n), Times(i, n), n);
    }
  }

  lemma JoinedByte(vs: seq<seq<Byte>>, n: nat, i: nat, d: nat, k: nat)
    requires AllOf(vs, n) && i < |vs| && d < n && k == Times(i, n) + d
    ensures k < |Joined(vs, n)| && Joined(vs, n)[k] == vs[i][d]
  {
    JoinedAt(vs, n, i);
    assert Bytes(Joined(vs, n), Times(i, n), n)[d] == vs[i][d];
  }

  lemma JoinedDivMod(vs: seq<seq<Byte>>, n: nat, k: nat)
    requires n >= 1 && AllOf(vs, n) && k < Times(|vs|, n)
    ensures 0 <= k / n < |vs| && 0 <= k % n < n && Joined(vs, n)[k] == vs[k / n][k % n]
  {
    TimesIs(|vs|, n);
    QuotientBelow(k, n, |vs|);
    TimesIs(k / n, n);
    JoinedByte(vs, n, k / n, k % n, k);
  }

  lemma Extended(s: seq<Byte>, off: nat, lo: nat, n: nat)
    requires off + lo + n <= |s|
    ensures Bytes(s, off, lo) + Bytes(s, off + lo, n) == Bytes(s, off, lo + n)
  {
  }

  method Capture(port: Port, ats: seq<nat>, n: nat, ghost off: nat) returns (captured: seq<Byte>)
    requires port.Valid() && Row(ats, off, n) && off + Times(|ats|, n) <= port.size
    ensures captured == Bytes(port.Window(), off, Times(|ats|, n))
  {
    captured := [];
    for i := 0 to |ats|
      invariant off + Times(i, n) <= port.size && captured == Bytes(port.Window(), off, Times(i, n))
    {
      TimesMonotone(i + 1, |ats|, n);
      Extended(port.Window(), off, Times(i, n), n);
      var v := port.Get(ats[i], n);
      captured := captured + v;
    }
  }

  /** The transaction when its first `lo` bytes have been merged. */
  ghost function Front(new_: seq<Byte>, old_: seq<Byte>, masks: seq<Byte>, lo: nat): (r: seq<Byte>)
    requires |new_| == |old_| == |masks| && lo <= |new_|
    ensures |r| == |new_|
  {
    Merge(new_, old_, masks)[..lo] + new_[lo..]
  }

  lemma FrontEnds(new_: seq<Byte>, old_: seq<Byte>, masks: seq<Byte>)
    requires |new_| == |old_| == |masks|
    ensures Front(new_, old_, masks, 0) == new_ && Front(new_, old_, masks, |new_|) == Merge(new_, old_, masks)
  {
  }

  lemma FrontStep(new_: seq<Byte>, old_: seq<Byte>, masks: seq<Byte>, lo: nat, n: nat)
    requires |new_| == |old_| == |masks| && lo + n <= |new_|
    ensures Patched(Front(new_, old_, masks, lo), lo,
                    Merge(Bytes(Front(new_, old_, masks, lo), lo, n), Bytes(old_, lo, n), Bytes(masks, lo, n)))
         == Front(new_, old_, masks, lo + n)
  {
    assert Bytes(Front(new_, old_, masks, lo), lo, n) == Bytes(new_, lo, n);
  }

  lemma PatchedAppend(mem: seq<Byte>, off: nat, a: seq<Byte>, b: seq<Byte>)
    requires off + |a| + |b| <= |mem|
    ensures Patched(mem, off, a + b) == Patched(Patched(mem, off, a), off + |a|, b)
  {
  }

  method StoreBack(data: array<Byte>, at: nat, v: seq<Byte>)
    requires at + |v| <= data.Length
    modifies data
    ensures data[..] == Patched(old(data[..]), at, v)
  {
    forall k | 0 <= k < |v| { data[at + k] := v[k]; }
  }

  /** The first `lo` bytes of the transaction are merged, and stored. */
  ghost predicate Underway(window: seq<Byte>, data: seq<Byte>, new_: seq<Byte>, old_: seq<Byte>, masks: seq<Byte>,
                           lo: nat, window0: seq<Byte>, off: nat)
  {
    && |new_| == |old_| == |masks| && lo <= |new_| && off + |new_| <= |window0|
    && data == Front(new_, old_, masks, lo) && window == Patched(window0, off, Merge(new_, old_, masks)[..lo])
  }

  /** One element further: its merge goes into both. */
  lemma UnderwayStep(window: seq<Byte>, data: seq<Byte>, new_: seq<Byte>, old_: seq<Byte>, masks: seq<Byte>, lo: nat,
                     n: nat, window0: seq<Byte>, off: nat, v: seq<Byte>)
    requires Underway(window, data, new_, old_, masks, lo, window0, off) && lo + n <= |new_|
    requires v == Merge(Bytes(data, lo, n), Bytes(old_, lo, n), Bytes(masks, lo, n))
    ensures Underway(Patched(window, off + lo, v), Patched(data, lo, v), new_, old_, masks, lo + n, window0, off)
  {
    FrontStep(new_, old_, masks, lo, n);
    MergedPiece(new_, old_, masks, lo, n);
    PatchedPiece(window0, off, Merge(new_, old_, masks), lo, n);
  }

  lemma MergedPiece(new_: seq<Byte>, old_: seq<Byte>, masks: seq<Byte>, lo: nat, n: nat)
    requires |new_| == |old_| == |masks| && lo + n <= |new_|
    ensures Merge(Bytes(Front(new_, old_, masks, lo), lo, n), Bytes(old_, lo, n), Bytes(masks, lo, n))
         == Merge(new_, old_, masks)[lo..lo + n]
  {
    assert Bytes(Front(new_, old_, masks, lo), lo, n) == Bytes(new_, lo, n);
  }

  lemma PatchedPiece(w: seq<Byte>, off: nat, m: seq<Byte>, lo: nat, n: nat)
    requires off + |m| <= |w| && lo + n <= |m|
    ensures Patched(Patched(w, off, m[..lo]), off + lo, m[lo..lo + n]) == Patched(w, off, m[..lo + n])
  {
    assert m[..lo + n] == m[..lo] + m[lo..lo + n];
    PatchedAppend(w, off, m[..lo], m[lo..lo + n]);
  }

  /** One round of the loop below. */
  method MaskOne(port: Port, data: array<Byte>, captured: seq<Byte>, at: nat, mask: seq<Byte>, lo: nat, n: nat,
                 ghost window0: seq<Byte>, ghost off: nat, ghost new_: seq<Byte>, ghost joined: seq<Byte>)
    requires port.Valid() && data != port.ram && |window0| == port.size
    requires at == off + lo && lo + n <= |new_| && |mask| == n
    requires Underway(port.Window(), data[..], new_, captured, joined, lo, window0, off) && Bytes(joined, lo, n) == mask
    modifies port.ram, data
    ensures Underway(port.Window(), data[..], new_, captured, joined, lo + n, window0, off)
    ensures port.Kept(old(port.ram[..]))
  {
    ghost var w, d := port.Window(), data[..];
    var v := Merge(Bytes(data[..], lo, n), Bytes(captured, lo, n), mask);
    UnderwayStep(w, d, new_, captured, joined, lo, n, window0, off, v);
    port.Put(at, v);
    assert data[..] == d;
    ghost var w', ram := port.Window(), port.ram[..];
    assert w' == Patched(w, off + lo, v);
    StoreBack(data, lo, v);
    assert port.ram[..] == ram;
    assert port.Window() == w';
    assert data[..] == Patched(d, lo, v);
  }

  /**
   * The loop after the write: every element of the transaction is merged with
   * what was captured, and the merge stored and returned.
   */
  method MaskInPlace(port: Port, data: array<Byte>, captured: seq<Byte>, ats: seq<nat>, masks: seq<seq<Byte>>, n: nat,
                     ghost off: nat)
    requires port.Valid() && data != port.ram && off + data.Length <= port.size
    requires |masks| == |ats| && AllOf(masks, n) && Row(ats, off, n) && data.Length == |captured| == Times(|ats|, n)
    modifies port.ram, data
    ensures data[..] == Merge(old(data[..]), captured, Joined(masks, n))
    ensures port.Window() == Patched(old(port.Window()), off, data[..])
    ensures port.Kept(old(port.ram[..]))
  {
    ghost var new_, w, joined := data[..], port.Window(), Joined(masks, n);
    FrontEnds(new_, captured, joined);
    assert Patched(w, off, Merge(new_, captured, joined)[..0]) == w;
    MaskEach(port, data, captured, ats, masks, n, w, off, new_);
    assert Merge(new_, captured, joined)[..|new_|] == Merge(new_, captured, joined);
  }

  method MaskEach(port: Port, data: array<Byte>, captured: seq<Byte>, ats: seq<nat>, masks: seq<seq<Byte>>, n: nat,
                  ghost window0: seq<Byte>, ghost off: nat, ghost new_: seq<Byte>)
    requires port.Valid() && data != port.ram && |window0| == port.size
    requires |masks| == |ats| && AllOf(masks, n) && Row(ats, off, n)
    requires Underway(port.Window(), data[..], new_, captured, Joined(masks, n), 0, window0, off)
    modifies port.ram, data
    ensures Underway(port.Window(), data[..], new_, captured, Joined(masks, n), |new_|, window0, off)
    ensures port.Kept(old(port.ram[..]))
  {
    var lo := 0;
    for i := 0 to |ats|
      invariant lo == Times(i, n) && port.Kept(old(port.ram[..]))
      invariant Underway(port.Window(), data[..], new_, captured, Joined(masks, n), lo, window0, off)
    {
      TimesMonotone(i + 1, |ats|, n);
      JoinedAt(masks, n, i);
      MaskOne(port, data, captured, ats[i], masks[i], lo, n, window0, off, new_, Joined(masks, n));
      lo := lo + n;
    }
  }
}
