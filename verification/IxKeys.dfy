/** Index keys as bytes, and their order. */
module IxKeys {
  import opened Values
  import opened Memory

  datatype ColType = INT | BIGINT | STRING | DATETIME
  datatype ColMeta = ColMeta(name: string, colType: ColType, len: nat)

  function KeyLen(cols: seq<ColMeta>): nat {
    if cols == [] then 0 else cols[0].len + KeyLen(cols[1..])
  }

  function ThreeWay(x: int, y: int): int { if x < y then -1 else if x > y then 1 else 0 }

  function MemCmp(a: seq<Byte>, b: seq<Byte>): (c: int)
    requires |a| == |b|
    ensures -1 <= c <= 1
  {
    if a == [] then 0 else if a[0] < b[0] then -1 else if a[0] > b[0] then 1 else MemCmp(a[1..], b[1..])
  }

  function ColCompare(a: seq<Byte>, b: seq<Byte>, c: ColMeta): (r: int)
    requires |a| == |b| == c.len
    ensures -1 <= r <= 1
  {
    if c.colType in {INT, BIGINT} then ThreeWay(Signed(a), Signed(b)) else MemCmp(a, b)
  }

  /** The first column in which the keys differ decides. */
  function IxCompare(a: seq<Byte>, b: seq<Byte>, cols: seq<ColMeta>): (r: int)
    requires |a| == |b| == KeyLen(cols)
    ensures -1 <= r <= 1
    decreases |cols|
  {
    if cols == [] then 0 else
      var n := cols[0].len;
      var r := ColCompare(a[..n], b[..n], cols[0]);
      if r != 0 then r else IxCompare(a[n..], b[n..], cols[1..])
  }

  method CompareKeys(a: seq<Byte>, b: seq<Byte>, cols: seq<ColMeta>) returns (r: int)
    requires |a| == |b| == KeyLen(cols)
    ensures r == IxCompare(a, b, cols)
  {
    var offset, i := 0, 0;
    while i < |cols|
      invariant 0 <= i <= |cols| && 0 <= offset && offset + KeyLen(cols[i..]) == |a|
      invariant IxCompare(a, b, cols) == IxCompare(a[offset..], b[offset..], cols[i..])
    {
      var n := cols[i].len;
      assert cols[i..][0] == cols[i] && cols[i..][1..] == cols[i+1..];
      assert a[offset..][..n] == a[offset..offset + n] && b[offset..][..n] == b[offset..offset + n];
      assert a[offset..][n..] == a[offset + n..] && b[offset..][n..] == b[offset + n..];
      r := ColCompare(a[offset..offset + n], b[offset..offset + n], cols[i]);
      if r != 0 { return; }
      offset := offset + n;
      i := i + 1;
    }
    return 0;
  }

  // ---------- what the comparison says ----------

  /** Stored integers compare as the integers do, at both widths. */
  lemma IntegerOrder(x: int, y: int, c: ColMeta)
    requires (c.colType == INT && c.len == 4 && Int32(x) && Int32(y))
             || (c.colType == BIGINT && c.len == 8 && Int64(x) && Int64(y))
    ensures var a := if c.colType == INT then IntBytes(x) else BigintBytes(x);
            var b := if c.colType == INT then IntBytes(y) else BigintBytes(y);
            ColCompare(a, b, c) == if x < y then -1 else if x == y then 0 else 1
  {
    if c.colType == INT {
      IntRoundTrip(x);
      IntRoundTrip(y);
    } else {
      BigintRoundTrip(x);
      BigintRoundTrip(y);
    }
  }

  /** The bytes agree before position `i`, and there the first has the lower one. */
  predicate FirstLower(a: seq<Byte>, b: seq<Byte>, i: int)
    requires |a| == |b|
  {
    0 <= i < |a| && a[..i] == b[..i] && a[i] < b[i]
  }

  /** The first byte that differs decides. */
  lemma {:induction false} MemCmpFirst(a: seq<Byte>, b: seq<Byte>)
    requires |a| == |b|
    ensures MemCmp(a, b) == -1 <==> exists i :: FirstLower(a, b, i)
    ensures MemCmp(a, b) == 1 <==> exists i :: FirstLower(b, a, i)
    ensures MemCmp(a, b) == 0 <==> a == b
  {
    MemCmpOrder(a, b);
    if a != [] && a[0] == b[0] {
      MemCmpFirst(a[1..], b[1..]);
      forall i ensures FirstLower(a[1..], b[1..], i) <==> FirstLower(a, b, i + 1) { FirstLowerTail(a, b, i); }
      forall i ensures FirstLower(b[1..], a[1..], i) <==> FirstLower(b, a, i + 1) { FirstLowerTail(b, a, i); }
      if i :| FirstLower(a[1..], b[1..], i) { assert FirstLower(a, b, i + 1); }
      if i :| FirstLower(b[1..], a[1..], i) { assert FirstLower(b, a, i + 1); }
      if i :| FirstLower(a, b, i) { assert FirstLower(a[1..], b[1..], i - 1); }
      if i :| FirstLower(b, a, i) { assert FirstLower(b[1..], a[1..], i - 1); }
    } else if a != [] {
      if a[0] < b[0] { assert FirstLower(a, b, 0); } else { assert FirstLower(b, a, 0); }
      forall i | 0 < i < |a| ensures a[..i] != b[..i] { assert a[..i][0] != b[..i][0]; }
    }
  }

  lemma FirstLowerTail(a: seq<Byte>, b: seq<Byte>, i: int)
    requires |a| == |b| && a != [] && a[0] == b[0]
    ensures FirstLower(a[1..], b[1..], i) <==> FirstLower(a, b, i + 1)
  {
    if 0 <= i < |a| - 1 {
      assert a[..i+1] == [a[0]] + a[1..][..i] && b[..i+1] == [b[0]] + b[1..][..i];
      assert a[1..][..i] == a[..i+1][1..] && b[1..][..i] == b[..i+1][1..];
    }
  }

  lemma {:induction false} KeyLenPrefix(cols: seq<ColMeta>, n: nat)
    requires n < |cols|
    ensures KeyLen(cols[..n+1]) == KeyLen(cols[..n]) + cols[n].len <= KeyLen(cols)
  {
    if n == 0 {
      assert cols[..1][1..] == [];
    } else {
      KeyLenPrefix(cols[1..], n - 1);
      assert cols[..n+1][1..] == cols[1..][..n] && cols[..n][1..] == cols[1..][..n-1];
    }
  }

  /** The bytes of column `i` of a key. */
  function Field(a: seq<Byte>, cols: seq<ColMeta>, i: nat): (f: seq<Byte>)
    requires |a| == KeyLen(cols) && i < |cols|
    ensures |f| == cols[i].len
  {
    KeyLenPrefix(cols, i);
    a[KeyLen(cols[..i])..KeyLen(cols[..i+1])]
  }

  lemma SliceTail(a: seq<Byte>, n: nat, o: nat, e: nat)
    requires o <= e && n + e <= |a|
    ensures a[n..][o..e] == a[n + o..n + e]
  {
  }

  lemma FieldTail(a: seq<Byte>, cols: seq<ColMeta>, i: nat)
    requires |a| == KeyLen(cols) && i + 1 < |cols|
    ensures |a[cols[0].len..]| == KeyLen(cols[1..]) && Field(a[cols[0].len..], cols[1..], i) == Field(a, cols, i + 1)
  {
    hide KeyLen;
    KeyLenHead(cols);
    KeyLenPrefix(cols, i + 1);
    KeyLenPrefix(cols[1..], i);
    OffsetTail(cols, i);
    OffsetTail(cols, i + 1);
    SliceTail(a, cols[0].len, KeyLen(cols[1..][..i]), KeyLen(cols[1..][..i+1]));
  }

  lemma KeyLenHead(cols: seq<ColMeta>)
    requires 0 < |cols|
    ensures KeyLen(cols) == cols[0].len + KeyLen(cols[1..])
  {
  }

  lemma OffsetTail(cols: seq<ColMeta>, i: nat)
    requires i < |cols|
    ensures KeyLen(cols[..i+1]) == cols[0].len + KeyLen(cols[1..][..i])
  {
    assert cols[..i+1][1..] == cols[1..][..i];
  }

  lemma FieldHead(a: seq<Byte>, cols: seq<ColMeta>)
    requires |a| == KeyLen(cols) && 0 < |cols|
    ensures Field(a, cols, 0) == a[..cols[0].len]
  {
    assert cols[..0] == [] && cols[..1] == [cols[0]];
    assert [cols[0]][1..] == [];
  }

  /** The first column that differs decides, by its own comparison. */
  lemma {:induction false} FirstColumnDecides(a: seq<Byte>, b: seq<Byte>, cols: seq<ColMeta>, i: nat)
    requires |a| == |b| == KeyLen(cols) && i < |cols| && Field(a, cols, i) != Field(b, cols, i)
    requires forall j :: 0 <= j < i ==> Field(a, cols, j) == Field(b, cols, j)
    ensures IxCompare(a, b, cols) == ColCompare(Field(a, cols, i), Field(b, cols, i), cols[i]) != 0
    decreases i
  {
    hide Field;
    var n := cols[0].len;
    FieldHead(a, cols);
    FieldHead(b, cols);
    ColCompareOrder(a[..n], b[..n], cols[0]);
    if i > 0 {
      assert Field(a, cols, 0) == Field(b, cols, 0);
      forall j | 0 <= j < i
        ensures Field(a[n..], cols[1..], j) == Field(a, cols, j + 1)
                && Field(b[n..], cols[1..], j) == Field(b, cols, j + 1)
      {
        FieldTail(a, cols, j);
        FieldTail(b, cols, j);
      }
      FirstColumnDecides(a[n..], b[n..], cols[1..], i - 1);
    }
  }

  // ---------- the order is total ----------

  lemma {:induction false} MemCmpOrder(a: seq<Byte>, b: seq<Byte>)
    requires |a| == |b|
    ensures MemCmp(b, a) == -MemCmp(a, b) && (MemCmp(a, b) == 0 <==> a == b)
  {
    if a != [] {
      MemCmpOrder(a[1..], b[1..]);
      assert a == [a[0]] + a[1..] && b == [b[0]] + b[1..];
    }
  }

  lemma {:induction false} MemCmpTransitive(a: seq<Byte>, b: seq<Byte>, c: seq<Byte>)
    requires |a| == |b| == |c| && MemCmp(a, b) <= 0 && MemCmp(b, c) <= 0
    ensures MemCmp(a, c) <= 0
  {
    if a != [] && a[0] == b[0] == c[0] { MemCmpTransitive(a[1..], b[1..], c[1..]); }
  }

  lemma ColCompareOrder(a: seq<Byte>, b: seq<Byte>, c: ColMeta)
    requires |a| == |b| == c.len
    ensures ColCompare(b, a, c) == -ColCompare(a, b, c) && (ColCompare(a, b, c) == 0 <==> a == b)
  {
    if c.colType in {INT, BIGINT} {
      if Signed(a) == Signed(b) { SignedInjective(a, b); }
    } else {
      MemCmpOrder(a, b);
    }
  }

  /** Comparing the other way round gives the opposite, and only equal keys compare equal. */
  lemma {:induction false} IxCompareOrder(a: seq<Byte>, b: seq<Byte>, cols: seq<ColMeta>)
    requires |a| == |b| == KeyLen(cols)
    ensures IxCompare(b, a, cols) == -IxCompare(a, b, cols) && (IxCompare(a, b, cols) == 0 <==> a == b)
    decreases |cols|
  {
    if cols != [] {
      var n := cols[0].len;
      ColCompareOrder(a[..n], b[..n], cols[0]);
      IxCompareOrder(a[n..], b[n..], cols[1..]);
      assert a == a[..n] + a[n..] && b == b[..n] + b[n..];
    }
  }

  lemma {:induction false} IxCompareTransitive(a: seq<Byte>, b: seq<Byte>, c: seq<Byte>, cols: seq<ColMeta>)
    requires |a| == |b| == |c| == KeyLen(cols) && IxCompare(a, b, cols) <= 0 && IxCompare(b, c, cols) <= 0
    ensures IxCompare(a, c, cols) <= 0
    decreases |cols|
  {
    if cols != [] {
      var n := cols[0].len;
      ColCompareOrder(a[..n], b[..n], cols[0]);
      ColCompareOrder(b[..n], c[..n], cols[0]);
      if !(cols[0].colType in {INT, BIGINT}) { MemCmpTransitive(a[..n], b[..n], c[..n]); }
      ColCompareOrder(a[..n], c[..n], cols[0]);
      if a[..n] == b[..n] == c[..n] { IxCompareTransitive(a[n..], b[n..], c[n..], cols[1..]); }
    }
  }

  // ---------- columnwise bounds ----------

  /** In every column the one key is at most the other. */
  predicate Columnwise(a: seq<Byte>, b: seq<Byte>, cols: seq<ColMeta>)
    requires |a| == |b| == KeyLen(cols)
    decreases |cols|
  {
    cols == [] ||
    var n := cols[0].len;
    ColCompare(a[..n], b[..n], cols[0]) <= 0 && Columnwise(a[n..], b[n..], cols[1..])
  }

  lemma {:induction false} ColumnwiseBelow(a: seq<Byte>, b: seq<Byte>, cols: seq<ColMeta>)
    requires |a| == |b| == KeyLen(cols) && Columnwise(a, b, cols)
    ensures IxCompare(a, b, cols) <= 0
    decreases |cols|
  {
    if cols != [] {
      var n := cols[0].len;
      ColumnwiseBelow(a[n..], b[n..], cols[1..]);
    }
  }

  // ---------- keys as numbers ----------

  /** The bytes as a number whose first byte weighs most. */
  function BigEndian(b: seq<Byte>): nat {
    if b == [] then 0 else b[0] * Power256(|b| - 1) + BigEndian(b[1..])
  }

  lemma LeadingDigit(x: nat, y: nat, u: nat, v: nat, n: nat)
    requires u < n && v < n
    ensures ThreeWay(x * n + u, y * n + v) == if x < y then -1 else if x > y then 1 else ThreeWay(u, v)
  {
    if x < y {
      Multiples(x, y, n);
    } else if x > y {
      Multiples(y, x, n);
    }
  }

  lemma {:induction false} BigEndianBound(b: seq<Byte>)
    ensures BigEndian(b) < Power256(|b|)
  {
    if b != [] {
      BigEndianBound(b[1..]);
      Multiples(b[0], 256, Power256(|b| - 1));
    }
  }

  lemma {:induction false} BigEndianOrder(a: seq<Byte>, b: seq<Byte>)
    requires |a| == |b|
    ensures MemCmp(a, b) == ThreeWay(BigEndian(a), BigEndian(b))
  {
    if a != [] {
      BigEndianOrder(a[1..], b[1..]);
      BigEndianBound(a[1..]);
      BigEndianBound(b[1..]);
      LeadingDigit(a[0], b[0], BigEndian(a[1..]), BigEndian(b[1..]), Power256(|a| - 1));
    }
  }

  function ColRank(f: seq<Byte>, c: ColMeta): (r: nat)
    requires |f| == c.len
    ensures r < 2 * Power256(c.len)
  {
    NumberBound(f);
    BigEndianBound(f);
    if c.colType in {INT, BIGINT} then Signed(f) + Power256(c.len) else BigEndian(f)
  }

  /** More than any rank of a key over the columns. */
  function RankSpan(cols: seq<ColMeta>): (n: nat)
    ensures 0 < n
  {
    if cols == [] then 1 else 2 * Power256(cols[0].len) * RankSpan(cols[1..])
  }

  lemma RankRoom(x: nat, s: nat, u: nat, v: nat)
    requires x < s && u < v
    ensures x * v + u < s * v
  {
    Multiples(x, s, v);
  }

  /** The rank of a key: the ranks of its columns as the digits of a number. */
  function Rank(key: seq<Byte>, cols: seq<ColMeta>): nat
    requires |key| == KeyLen(cols)
    decreases |cols|
  {
    if cols == [] then 0 else
      var n := cols[0].len;
      ColRank(key[..n], cols[0]) * RankSpan(cols[1..]) + Rank(key[n..], cols[1..])
  }

  lemma {:induction false} RankBound(key: seq<Byte>, cols: seq<ColMeta>)
    requires |key| == KeyLen(cols)
    ensures Rank(key, cols) < RankSpan(cols)
    decreases |cols|
  {
    hide ColRank;
    if cols != [] {
      var n := cols[0].len;
      RankBound(key[n..], cols[1..]);
      RankRoom(ColRank(key[..n], cols[0]), 2 * Power256(n), Rank(key[n..], cols[1..]), RankSpan(cols[1..]));
    }
  }

  lemma ColRankOrder(a: seq<Byte>, b: seq<Byte>, c: ColMeta)
    requires |a| == |b| == c.len
    ensures ColCompare(a, b, c) == ThreeWay(ColRank(a, c), ColRank(b, c))
  {
    if !(c.colType in {INT, BIGINT}) { BigEndianOrder(a, b); }
  }

  /** Comparing keys is comparing their ranks, so that an index over integers is one over keys. */
  lemma {:induction false} RankOrder(a: seq<Byte>, b: seq<Byte>, cols: seq<ColMeta>)
    requires |a| == |b| == KeyLen(cols)
    ensures IxCompare(a, b, cols) == ThreeWay(Rank(a, cols), Rank(b, cols))
            && (Rank(a, cols) == Rank(b, cols) <==> a == b)
    decreases |cols|
  {
    hide ColCompare, ColRank;
    if cols != [] {
      var n := cols[0].len;
      ColRankOrder(a[..n], b[..n], cols[0]);
      RankOrder(a[n..], b[n..], cols[1..]);
      RankBound(a[n..], cols[1..]);
      RankBound(b[n..], cols[1..]);
      LeadingDigit(ColRank(a[..n], cols[0]), ColRank(b[..n], cols[0]), Rank(a[n..], cols[1..]), Rank(b[n..], cols[1..]),
                   RankSpan(cols[1..]));
    }
    IxCompareOrder(a, b, cols);
  }

  // ---------- the zero key ----------

  lemma {:induction false} LowBytes(s: seq<Byte>, n: nat)
    requires |s| == n
    ensures MemCmp(Zeros(n), s) <= 0
  {
    if n > 0 {
      LowBytes(s[1..], n - 1);
      assert Zeros(n)[1..] == Zeros(n - 1);
    }
  }

  /** A column whose values can be negative. */
  predicate Negative(c: ColMeta) { c.colType in {INT, BIGINT} && 0 < c.len }

  lemma {:induction false} ZeroIsLeast(key: seq<Byte>, cols: seq<ColMeta>)
    requires |key| == KeyLen(cols) && forall i :: 0 <= i < |cols| ==> !Negative(cols[i])
    ensures IxCompare(Zeros(KeyLen(cols)), key, cols) <= 0
    decreases |cols|
  {
    if cols != [] {
      var n, z := cols[0].len, Zeros(KeyLen(cols));
      assert z[..n] == Zeros(n) && z[n..] == Zeros(KeyLen(cols[1..]));
      LowBytes(key[..n], n);
      assert forall i :: 0 <= i < |cols[1..]| ==> cols[1..][i] == cols[i+1];
      ZeroIsLeast(key[n..], cols[1..]);
    }
  }

  lemma {:induction false} HighBit(n: nat)
    ensures Number(Zeros(n)) == 0 && Number(Zeros(n) + [128]) == 128 * Power256(n)
  {
    if n > 0 {
      HighBit(n - 1);
      assert Zeros(n)[1..] == Zeros(n - 1) && (Zeros(n) + [128])[1..] == Zeros(n - 1) + [128];
    }
  }

  lemma {:induction false} BelowZero(cols: seq<ColMeta>, i: nat) returns (key: seq<Byte>)
    requires i < |cols| && Negative(cols[i])
    ensures |key| == KeyLen(cols) && IxCompare(key, Zeros(KeyLen(cols)), cols) < 0
    decreases i
  {
    var n, z := cols[0].len, Zeros(KeyLen(cols));
    assert z[..n] == Zeros(n) && z[n..] == Zeros(KeyLen(cols[1..]));
    if i == 0 {
      HighBit(n - 1);
      HighBit(n);
      key := Zeros(n - 1) + [128] + Zeros(KeyLen(cols[1..]));
      assert key[..n] == Zeros(n - 1) + [128];
    } else {
      var rest := BelowZero(cols[1..], i - 1);
      key := Zeros(n) + rest;
      assert key[..n] == Zeros(n) && key[n..] == rest;
      ColCompareOrder(Zeros(n), Zeros(n), cols[0]);
    }
  }

  /** No key is below the one of zero bytes exactly when no column can hold a negative number. */
  lemma ZeroLeastIff(cols: seq<ColMeta>)
    ensures (forall key: seq<Byte> :: |key| == KeyLen(cols) ==> Rank(Zeros(KeyLen(cols)), cols) <= Rank(key, cols))
            <==> forall i :: 0 <= i < |cols| ==> !Negative(cols[i])
  {
    if i :| 0 <= i < |cols| && Negative(cols[i]) {
      var key := BelowZero(cols, i);
      RankOrder(key, Zeros(KeyLen(cols)), cols);
    } else {
      forall key: seq<Byte> | |key| == KeyLen(cols) ensures Rank(Zeros(KeyLen(cols)), cols) <= Rank(key, cols) {
        ZeroIsLeast(key, cols);
        RankOrder(Zeros(KeyLen(cols)), key, cols);
      }
    }
  }
}
