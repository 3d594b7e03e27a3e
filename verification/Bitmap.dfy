/** The slot bitmap of a record page. */
module Bitmap {
  const BITMAP_WIDTH := 8
  const BITMAP_HIGHEST_BIT: bv8 := 0x80

  function BitAt(pos: nat): bv8 {
    BITMAP_HIGHEST_BIT >> (pos % BITMAP_WIDTH)
  }

  predicate IsSet(bm: seq<bv8>, pos: nat)
    requires pos < BITMAP_WIDTH * |bm|
  {
    bm[pos / BITMAP_WIDTH] & BitAt(pos) != 0
  }

  function Set(bm: seq<bv8>, pos: nat): (r: seq<bv8>)
    requires pos < BITMAP_WIDTH * |bm|
    ensures |r| == |bm| && forall p :: 0 <= p < BITMAP_WIDTH * |bm| ==> (IsSet(r, p) <==> p == pos || IsSet(bm, p))
  {
    var b := pos / BITMAP_WIDTH;
    var r := bm[b := bm[b] | BitAt(pos)];
    assert forall p :: 0 <= p < BITMAP_WIDTH * |bm| ==> (IsSet(r, p) <==> p == pos || IsSet(bm, p)) by {
      forall p | 0 <= p < BITMAP_WIDTH * |bm|
        ensures IsSet(r, p) <==> p == pos || IsSet(bm, p)
      {
        SetBit(bm, pos, r, p);
      }
    }
    r
  }

  lemma SetBit(bm: seq<bv8>, pos: nat, r: seq<bv8>, p: nat)
    requires pos < BITMAP_WIDTH * |bm| && p < BITMAP_WIDTH * |bm|
             && r == bm[pos / BITMAP_WIDTH := bm[pos / BITMAP_WIDTH] | BitAt(pos)]
    ensures IsSet(r, p) <==> p == pos || IsSet(bm, p)
  {
    if p / BITMAP_WIDTH == pos / BITMAP_WIDTH { Masks(bm[pos / BITMAP_WIDTH], pos % BITMAP_WIDTH, p % BITMAP_WIDTH); }
  }

  function Reset(bm: seq<bv8>, pos: nat): (r: seq<bv8>)
    requires pos < BITMAP_WIDTH * |bm|
    ensures |r| == |bm| && forall p :: 0 <= p < BITMAP_WIDTH * |bm| ==> (IsSet(r, p) <==> p != pos && IsSet(bm, p))
  {
    var b := pos / BITMAP_WIDTH;
    var r := bm[b := bm[b] & !BitAt(pos)];
    assert forall p :: 0 <= p < BITMAP_WIDTH * |bm| ==> (IsSet(r, p) <==> p != pos && IsSet(bm, p)) by {
      forall p | 0 <= p < BITMAP_WIDTH * |bm|
        ensures IsSet(r, p) <==> p != pos && IsSet(bm, p)
      {
        ResetBit(bm, pos, r, p);
      }
    }
    r
  }

  lemma ResetBit(bm: seq<bv8>, pos: nat, r: seq<bv8>, p: nat)
    requires pos < BITMAP_WIDTH * |bm| && p < BITMAP_WIDTH * |bm|
             && r == bm[pos / BITMAP_WIDTH := bm[pos / BITMAP_WIDTH] & !BitAt(pos)]
    ensures IsSet(r, p) <==> p != pos && IsSet(bm, p)
  {
    if p / BITMAP_WIDTH == pos / BITMAP_WIDTH { Masks(bm[pos / BITMAP_WIDTH], pos % BITMAP_WIDTH, p % BITMAP_WIDTH); }
  }

  /** The bits of a byte are counted from the highest one. */
  lemma HighestFirst(p: nat)
    requires p < 8
    ensures IsSet([0x80], p) <==> p == 0
    ensures IsSet([0x01], p) <==> p == 7
    ensures IsSet([0x00, 0x80], p + 8) <==> p == 0
  {
    assert p in {0, 1, 2, 3, 4, 5, 6, 7};
  }

  /** Setting or clearing one bit of a byte leaves the other seven alone. */
  lemma Masks(b: bv8, i: nat, j: nat)
    requires i < 8 && j < 8
    ensures (b | (0x80 >> i)) & (0x80 >> j) != 0 <==> i == j || b & (0x80 >> j) != 0
    ensures (b & !(0x80 >> i)) & (0x80 >> j) != 0 <==> i != j && b & (0x80 >> j) != 0
  {
  }

  /** The first position after `curr` and below `maxN` whose bit is `bit`, or `maxN`. */
  method NextBit(bit: bool, bm: seq<bv8>, maxN: int, curr: int) returns (r: int)
    requires -1 <= curr && maxN <= BITMAP_WIDTH * |bm|
    ensures r == maxN || curr < r < maxN
    ensures r != maxN ==> IsSet(bm, r) == bit
    ensures forall p :: curr < p < r ==> IsSet(bm, p) != bit
  {
    var i := curr + 1;
    while i < maxN
      invariant curr < i && (i <= maxN || i == curr + 1)
      invariant forall p :: curr < p < i ==> p < maxN && IsSet(bm, p) != bit
    {
      if IsSet(bm, i) == bit { return i; }
      i := i + 1;
    }
    return maxN;
  }

  /** How many of the first `n` bits are set. */
  function Count(bm: seq<bv8>, n: nat): (c: nat)
    requires n <= BITMAP_WIDTH * |bm|
    ensures c <= n
  {
    if n == 0 then 0 else Count(bm, n - 1) + if IsSet(bm, n - 1) then 1 else 0
  }

  lemma {:induction false} CountChange(bm: seq<bv8>, bm': seq<bv8>, n: nat, pos: nat)
    requires |bm| == |bm'| && n <= BITMAP_WIDTH * |bm| && pos < BITMAP_WIDTH * |bm| && !IsSet(bm, pos)
             && IsSet(bm', pos)
    requires forall p :: 0 <= p < n && p != pos ==> (IsSet(bm', p) <==> IsSet(bm, p))
    ensures Count(bm', n) == Count(bm, n) + if pos < n then 1 else 0
  {
    if n > 0 { CountChange(bm, bm', n - 1, pos); }
  }

  /** Setting a clear bit adds one to the count, clearing a set bit takes one off. */
  lemma CountSet(bm: seq<bv8>, n: nat, pos: nat)
    requires n <= BITMAP_WIDTH * |bm| && pos < n && !IsSet(bm, pos)
    ensures Count(Set(bm, pos), n) == Count(bm, n) + 1
  {
    CountChange(bm, Set(bm, pos), n, pos);
  }

  lemma CountReset(bm: seq<bv8>, n: nat, pos: nat)
    requires n <= BITMAP_WIDTH * |bm| && pos < n && IsSet(bm, pos)
    ensures Count(Reset(bm, pos), n) == Count(bm, n) - 1
  {
    CountChange(Reset(bm, pos), bm, n, pos);
  }

  /** The count is full exactly when every bit is set. */
  lemma {:induction false} CountFull(bm: seq<bv8>, n: nat)
    requires n <= BITMAP_WIDTH * |bm|
    ensures Count(bm, n) == n <==> forall p :: 0 <= p < n ==> IsSet(bm, p)
  {
    if n > 0 { CountFull(bm, n - 1); }
  }

  lemma {:induction false} CountSame(bm: seq<bv8>, bm': seq<bv8>, n: nat)
    requires |bm| == |bm'| && n <= BITMAP_WIDTH * |bm|
    requires forall p :: 0 <= p < n ==> (IsSet(bm', p) <==> IsSet(bm, p))
    ensures Count(bm', n) == Count(bm, n)
  {
    if n > 0 { CountSame(bm, bm', n - 1); }
  }

  function Init(size: nat): (bm: seq<bv8>)
    ensures |bm| == size && forall p :: 0 <= p < BITMAP_WIDTH * size ==> !IsSet(bm, p)
  {
    seq(size, _ => 0)
  }

  lemma {:induction false} CountInit(size: nat, n: nat)
    requires n <= BITMAP_WIDTH * size
    ensures Count(Init(size), n) == 0
  {
    if n > 0 { CountInit(size, n - 1); }
  }
}
