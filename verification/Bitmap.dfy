/** Slot bitmaps: bit 0 is the highest bit of the first byte. */
module Bitmap {
  import opened Common

  /** The mask of one bit of a byte, 0x80 shifted right k times. */
  function Mask(k: int): bv8 {
    if k == 0 then 0x80
    else if k == 1 then 0x40
    else if k == 2 then 0x20
    else if k == 3 then 0x10
    else if k == 4 then 0x08
    else if k == 5 then 0x04
    else if k == 6 then 0x02
    else 0x01
  }

  predicate InBitmap(bm: seq<bv8>, pos: int) {
    0 <= pos < BITMAP_WIDTH * |bm|
  }

  predicate IsSet(bm: seq<bv8>, pos: int)
    requires InBitmap(bm, pos)
  {
    bm[pos / BITMAP_WIDTH] & Mask(pos % BITMAP_WIDTH) != 0
  }

  function Set(bm: seq<bv8>, pos: int): seq<bv8>
    requires InBitmap(bm, pos)
  {
    bm[pos / BITMAP_WIDTH := bm[pos / BITMAP_WIDTH] | Mask(pos % BITMAP_WIDTH)]
  }

  function Reset(bm: seq<bv8>, pos: int): seq<bv8>
    requires InBitmap(bm, pos)
  {
    bm[pos / BITMAP_WIDTH := bm[pos / BITMAP_WIDTH] & !Mask(pos % BITMAP_WIDTH)]
  }

  lemma MasksApart(x: bv8, j: int, k: int)
    requires 0 <= j < 8 && 0 <= k < 8
    ensures (x | Mask(k)) & Mask(j) != 0 <==> j == k || x & Mask(j) != 0
    ensures (x & !Mask(k)) & Mask(j) != 0 <==> j != k && x & Mask(j) != 0
  {
  }

  /** Setting a bit changes that bit and no other. */
  lemma SetApart(bm: seq<bv8>, pos: int, q: int)
    requires InBitmap(bm, pos) && InBitmap(bm, q)
    ensures IsSet(Set(bm, pos), q) <==> q == pos || IsSet(bm, q)
  {
    if pos / 8 == q / 8 {
      MasksApart(bm[pos / 8], q % 8, pos % 8);
    }
  }

  /** Clearing a bit changes that bit and no other. */
  lemma ResetApart(bm: seq<bv8>, pos: int, q: int)
    requires InBitmap(bm, pos) && InBitmap(bm, q)
    ensures IsSet(Reset(bm, pos), q) <==> q != pos && IsSet(bm, q)
  {
    if pos / 8 == q / 8 {
      MasksApart(bm[pos / 8], q % 8, pos % 8);
    }
  }

  /** next_bit: the first position after curr whose bit is as asked, or maxN. */
  method NextBit(bit: bool, bm: seq<bv8>, maxN: int, curr: int) returns (r: int)
    requires -1 <= curr && curr < maxN <= BITMAP_WIDTH * |bm|
    ensures curr < r <= maxN && (r < maxN ==> IsSet(bm, r) == bit)
    ensures forall i :: curr < i < r ==> IsSet(bm, i) != bit
  {
    r := curr + 1;
    while r < maxN
      invariant curr < r <= maxN && forall i :: curr < i < r ==> IsSet(bm, i) != bit
    {
      if IsSet(bm, r) == bit {
        return;
      }
      r := r + 1;
    }
  }

  // ---------- the bits as a sequence ----------

  /** bs are the first bits of bm. */
  ghost predicate Reads(bm: seq<bv8>, bs: seq<bool>) {
    |bs| <= BITMAP_WIDTH * |bm| && forall i {:trigger BitIs(bm, bs, i)} :: 0 <= i < |bs| ==> BitIs(bm, bs, i)
  }

  ghost predicate BitIs(bm: seq<bv8>, bs: seq<bool>, i: int)
    requires 0 <= i < |bs| <= BITMAP_WIDTH * |bm|
  {
    bs[i] == IsSet(bm, i)
  }

  /** Setting a bit sets that element of the sequence and no other. */
  lemma SetReads(bm: seq<bv8>, bs: seq<bool>, pos: int)
    requires Reads(bm, bs) && 0 <= pos < |bs|
    ensures InBitmap(bm, pos) && Reads(Set(bm, pos), bs[pos := true])
  {
    var bm', bs' := Set(bm, pos), bs[pos := true];
    forall i | 0 <= i < |bs'| ensures BitIs(bm', bs', i) {
      assert BitIs(bm, bs, i);
      SetApart(bm, pos, i);
    }
  }

  lemma ResetReads(bm: seq<bv8>, bs: seq<bool>, pos: int)
    requires Reads(bm, bs) && 0 <= pos < |bs|
    ensures InBitmap(bm, pos) && Reads(Reset(bm, pos), bs[pos := false])
  {
    var bm', bs' := Reset(bm, pos), bs[pos := false];
    forall i | 0 <= i < |bs'| ensures BitIs(bm', bs', i) {
      assert BitIs(bm, bs, i);
      ResetApart(bm, pos, i);
    }
  }

  lemma ZerosRead(bm: seq<bv8>, bs: seq<bool>)
    requires |bs| <= BITMAP_WIDTH * |bm|
    requires (forall i :: 0 <= i < |bm| ==> bm[i] == 0) && forall i :: 0 <= i < |bs| ==> !bs[i]
    ensures Reads(bm, bs)
  {
  }

  /** next_bit on a bitmap, in terms of its sequence. */
  method NextOf(bit: bool, bm: seq<bv8>, ghost bs: seq<bool>, n: int, curr: int) returns (r: int)
    requires Reads(bm, bs) && n == |bs| && -1 <= curr < n
    ensures curr < r <= n && (r < n ==> bs[r] == bit) && forall i :: curr < i < r ==> bs[i] != bit
  {
    r := NextBit(bit, bm, n, curr);
    assert r < n ==> BitIs(bm, bs, r);
    forall i | curr < i < r ensures bs[i] != bit {
      assert BitIs(bm, bs, i);
    }
  }

  // ---------- counting ----------

  function Trues(bs: seq<bool>): (c: int)
    ensures 0 <= c <= |bs|
  {
    if bs == [] then 0 else Trues(bs[..|bs| - 1]) + if bs[|bs| - 1] then 1 else 0
  }

  lemma {:induction false} TruesUpdate(bs: seq<bool>, i: nat, b: bool)
    requires i < |bs|
    ensures Trues(bs[i := b]) == Trues(bs) - (if bs[i] then 1 else 0) + if b then 1 else 0
  {
    var n := |bs| - 1;
    if i == n {
      assert bs[i := b][..n] == bs[..n];
    } else {
      assert bs[i := b][..n] == bs[..n][i := b];
      TruesUpdate(bs[..n], i, b);
    }
  }

  /** A page has a free slot exactly when its count is below the number of slots. */
  lemma {:induction false} TruesFull(bs: seq<bool>)
    ensures Trues(bs) == |bs| <==> forall i :: 0 <= i < |bs| ==> bs[i]
  {
    if bs != [] {
      var init := bs[..|bs| - 1];
      TruesFull(init);
      assert forall i :: 0 <= i < |init| ==> init[i] == bs[i];
    }
  }

  lemma {:induction false} TruesNone(bs: seq<bool>)
    requires forall i :: 0 <= i < |bs| ==> !bs[i]
    ensures Trues(bs) == 0
  {
    if bs != [] {
      TruesNone(bs[..|bs| - 1]);
    }
  }
}
