/** The key range of an index scan: no row that meets the scan conditions has its key outside. */
module KeyRange {
  import opened Wrappers
  import opened Values
  import opened Memory
  import opened Planner
  import opened IxKeys

  // ---------- values and their bytes ----------

  /** After a zero byte there are only zero bytes. */
  predicate Padded(s: seq<Byte>) {
    forall i, j :: 0 <= i < j < |s| && s[i] == 0 ==> s[j] == 0
  }

  /** A value of the column's type that fits the column. */
  predicate Fitting(v: Value, c: ColMeta) {
    match c.colType
    case INT => c.len == 4 && v.Num? && Int32(v.n)
    case BIGINT => false
    case _ => v.Text? && Padded(v.s) && |v.s| <= c.len
  }

  /** The bytes of a value in a column: text is filled up with zeros. */
  function Raw(v: Value, c: ColMeta): (b: seq<Byte>)
    requires Fitting(v, c)
    ensures |b| == c.len
  {
    if v.Num? then IntBytes(v.n) else v.s + Zeros(c.len - |v.s|)
  }

  /** The value read from a column. */
  function Load(b: seq<Byte>, c: ColMeta): Value {
    if c.colType in {INT, BIGINT} then Num(Signed(b)) else Text(b)
  }

  lemma {:induction false} PaddedCompare(s: seq<Byte>, t: seq<Byte>, n: nat)
    requires Padded(s) && Padded(t) && |s| <= n && |t| <= n
    ensures MemCmp(s + Zeros(n - |s|), t + Zeros(n - |t|)) == StrCmp(s, t)
    decreases n
  {
    var a, b := s + Zeros(n - |s|), t + Zeros(n - |t|);
    if n > 0 {
      var x: int := if s == [] then 0 else s[0];
      var y: int := if t == [] then 0 else t[0];
      assert a[0] == x && b[0] == y;
      if x == y {
        if x == 0 {
          assert a == Zeros(n) && b == Zeros(n);
          MemCmpOrder(a, b);
        } else {
          assert a[1..] == s[1..] + Zeros(n - |s|) && b[1..] == t[1..] + Zeros(n - |t|);
          PaddedCompare(s[1..], t[1..], n - 1);
        }
      }
    }
  }

  /** Comparing values agrees with comparing their bytes as the index does. */
  lemma RawOrder(u: Value, v: Value, c: ColMeta)
    requires Fitting(u, c) && Fitting(v, c)
    ensures Compare(u, v) == ColCompare(Raw(u, c), Raw(v, c), c)
  {
    if c.colType == INT {
      IntRoundTrip(u.n);
      IntRoundTrip(v.n);
    } else {
      PaddedCompare(u.s, v.s, c.len);
    }
  }

  lemma CompareTransitive(u: Value, v: Value, w: Value, c: ColMeta)
    requires Fitting(u, c) && Fitting(v, c) && Fitting(w, c) && Compare(u, v) <= 0 && Compare(v, w) <= 0
    ensures Compare(u, w) <= 0
  {
    hide StrCmp, MemCmp, Raw;
    RawOrder(u, v, c);
    RawOrder(v, w, c);
    RawOrder(u, w, c);
    if c.colType != INT { MemCmpTransitive(Raw(u, c), Raw(v, c), Raw(w, c)); }
  }

  lemma CompareMirror(u: Value, v: Value)
    requires Comparable(u, v)
    ensures Compare(v, u) == -Compare(u, v)
  {
    if u.Text? { StrCmpMirror(u.s, v.s); }
  }

  /** A field of a stored row: an integer, or text filled up with zeros. */
  predicate FieldOk(b: seq<Byte>, c: ColMeta) {
    |b| == c.len && (c.colType == INT ==> c.len == 4) && c.colType != BIGINT && (c.colType != INT ==> Padded(b))
  }

  lemma LoadFits(b: seq<Byte>, c: ColMeta)
    requires FieldOk(b, c)
    ensures Fitting(Load(b, c), c) && Raw(Load(b, c), c) == b
  {
    if c.colType == INT {
      NumberBound(b);
      FourBytes();
      IntRoundTrip(Signed(b));
      SignedInjective(IntBytes(Signed(b)), b);
    } else {
      assert b + Zeros(0) == b;
    }
  }

  // ---------- the range of one column ----------

  /** "1000-01-01 00:00:00" and "9999-12-31 23:59:59". */
  const FIRST_DATETIME: seq<Byte> := [49, 48, 48, 48, 45, 48, 49, 45, 48, 49, 32, 48, 48, 58, 48, 48, 58, 48, 48]
  const LAST_DATETIME: seq<Byte> := [57, 57, 57, 57, 45, 49, 50, 45, 51, 49, 32, 50, 51, 58, 53, 57, 58, 53, 57]

  /** Columns that a range can be built for. */
  predicate Rangeable(c: ColMeta) {
    c.colType != BIGINT && (c.colType == INT ==> c.len == 4) && (c.colType == DATETIME ==> |FIRST_DATETIME| <= c.len)
  }

  function Least(c: ColMeta): (v: Value)
    requires Rangeable(c)
    ensures Fitting(v, c)
  {
    if c.colType == INT then Num(-0x8000_0000)
    else if c.colType == DATETIME then Text(FIRST_DATETIME)
    else Text(Zeros(c.len))
  }

  function Greatest(c: ColMeta): (v: Value)
    requires Rangeable(c)
    ensures Fitting(v, c)
  {
    if c.colType == INT then Num(0x7fff_ffff)
    else if c.colType == DATETIME then Text(LAST_DATETIME)
    else Text(seq(c.len, _ => 255))
  }

  predicate OnCol(cond: Condition, c: ColMeta) { cond.lhs.col == c.name && cond.isRhsVal }
  predicate BoundsBelow(op: CompOp) { op in {Eq, Gt, Ge} }
  predicate BoundsAbove(op: CompOp) { op in {Eq, Lt, Le} }

  /** Conditions that compare the column with a constant have one of the column's type. */
  predicate CondsFit(conds: seq<Condition>, c: ColMeta) {
    forall i :: 0 <= i < |conds| && OnCol(conds[i], c) ==> Fitting(conds[i].rhsVal, c)
  }

  /** `lo` is the greatest of the column's least value and the constants that bound it from below. */
  ghost predicate IsLower(lo: Value, c: ColMeta, conds: seq<Condition>)
    requires Rangeable(c) && CondsFit(conds, c)
  {
    && Fitting(lo, c) && Compare(Least(c), lo) <= 0
    && (forall i :: 0 <= i < |conds| && OnCol(conds[i], c) && BoundsBelow(conds[i].op) ==>
        Compare(conds[i].rhsVal, lo) <= 0)
    && (lo == Least(c) ||
        exists i :: 0 <= i < |conds| && OnCol(conds[i], c) && BoundsBelow(conds[i].op) && conds[i].rhsVal == lo)
  }

  ghost predicate IsUpper(hi: Value, c: ColMeta, conds: seq<Condition>)
    requires Rangeable(c) && CondsFit(conds, c)
  {
    && Fitting(hi, c) && Compare(hi, Greatest(c)) <= 0
    && (forall i :: 0 <= i < |conds| && OnCol(conds[i], c) && BoundsAbove(conds[i].op) ==>
        Compare(hi, conds[i].rhsVal) <= 0)
    && (hi == Greatest(c) ||
        exists i :: 0 <= i < |conds| && OnCol(conds[i], c) && BoundsAbove(conds[i].op) && conds[i].rhsVal == hi)
  }

  lemma RaiseLower(lo: Value, lo': Value, c: ColMeta, conds: seq<Condition>, cond: Condition)
    requires Rangeable(c) && CondsFit(conds, c) && (OnCol(cond, c) ==> Fitting(cond.rhsVal, c)) && IsLower(lo, c, conds)
    requires lo' == if OnCol(cond, c) && BoundsBelow(cond.op) && BinOp(Gt, cond.rhsVal, lo) then cond.rhsVal else lo
    ensures CondsFit(conds + [cond], c) && IsLower(lo', c, conds + [cond])
  {
    hide Compare;
    var all := conds + [cond];
    assert all[|conds|] == cond;
    assert forall i :: 0 <= i < |conds| ==> all[i] == conds[i];
    if OnCol(cond, c) { CompareMirror(lo, cond.rhsVal); }
    if lo' != lo {
      CompareTransitive(Least(c), lo, lo', c);
      assert Compare(lo', lo') <= 0 by { SameValue(lo'); }
      forall i | 0 <= i < |conds| && OnCol(conds[i], c) && BoundsBelow(conds[i].op)
        ensures Compare(conds[i].rhsVal, lo') <= 0
      {
        CompareTransitive(conds[i].rhsVal, lo, lo', c);
      }
    }
  }

  lemma LowerUpper(hi: Value, hi': Value, c: ColMeta, conds: seq<Condition>, cond: Condition)
    requires Rangeable(c) && CondsFit(conds, c) && (OnCol(cond, c) ==> Fitting(cond.rhsVal, c)) && IsUpper(hi, c, conds)
    requires hi' == if OnCol(cond, c) && BoundsAbove(cond.op) && BinOp(Lt, cond.rhsVal, hi) then cond.rhsVal else hi
    ensures CondsFit(conds + [cond], c) && IsUpper(hi', c, conds + [cond])
  {
    hide Compare;
    var all := conds + [cond];
    assert all[|conds|] == cond;
    assert forall i :: 0 <= i < |conds| ==> all[i] == conds[i];
    if OnCol(cond, c) { CompareMirror(hi, cond.rhsVal); }
    if hi' != hi {
      CompareTransitive(hi', hi, Greatest(c), c);
      assert Compare(hi', hi') <= 0 by { SameValue(hi'); }
      forall i | 0 <= i < |conds| && OnCol(conds[i], c) && BoundsAbove(conds[i].op)
        ensures Compare(hi', conds[i].rhsVal) <= 0
      {
        CompareTransitive(hi', hi, conds[i].rhsVal, c);
      }
    }
  }

  lemma SameValue(v: Value)
    ensures Compare(v, v) == 0
  {
    CompareMirror(v, v);
  }

  /** The condition is one that ends the use of further columns. */
  predicate Ends(cond: Condition, c: ColMeta) { OnCol(cond, c) && cond.op != Eq }

  /** Narrows the range of a column by all conditions, one after the other. */
  method ColumnRange(c: ColMeta, conds: seq<Condition>) returns (lo: Value, hi: Value, isLast: bool)
    requires Rangeable(c) && CondsFit(conds, c)
    ensures IsLower(lo, c, conds) && IsUpper(hi, c, conds)
    ensures isLast <==> exists i :: 0 <= i < |conds| && Ends(conds[i], c)
  {
    hide Compare, Fitting, IsLower, IsUpper;
    lo, hi, isLast := Least(c), Greatest(c), false;
    var i := 0;
    assert conds[..0] == [] && IsLower(lo, c, []) && IsUpper(hi, c, []) by { NoConds(c); }
    while i < |conds|
      invariant 0 <= i <= |conds| && CondsFit(conds[..i], c) && IsLower(lo, c, conds[..i]) && IsUpper(hi, c, conds[..i])
      invariant isLast <==> exists j :: 0 <= j < i && Ends(conds[j], c)
    {
      var cond := conds[i];
      ghost var lo0, hi0 := lo, hi;
      if OnCol(cond, c) {
        var v := cond.rhsVal;
        assert Comparable(v, lo) && Comparable(v, hi) by { BoundsKind(v, lo, hi, c, conds[..i]); }
        match cond.op {
          case Eq =>
            if BinOp(Gt, v, lo) { lo := v; }
            if BinOp(Lt, v, hi) { hi := v; }
          case Gt =>
            isLast := true;
            if BinOp(Gt, v, lo) { lo := v; }
          case Ge =>
            isLast := true;
            if BinOp(Gt, v, lo) { lo := v; }
          case Lt =>
            isLast := true;
            if BinOp(Lt, v, hi) { hi := v; }
          case Le =>
            isLast := true;
            if BinOp(Lt, v, hi) { hi := v; }
          case Ne =>
            isLast := true;
        }
      }
      RaiseLower(lo0, lo, c, conds[..i], cond);
      LowerUpper(hi0, hi, c, conds[..i], cond);
      assert conds[..i+1] == conds[..i] + [cond];
      i := i + 1;
    }
    assert conds[..i] == conds;
  }

  lemma NoConds(c: ColMeta)
    requires Rangeable(c)
    ensures IsLower(Least(c), c, []) && IsUpper(Greatest(c), c, [])
  {
    SameValue(Least(c));
    SameValue(Greatest(c));
  }

  lemma BoundsKind(v: Value, lo: Value, hi: Value, c: ColMeta, conds: seq<Condition>)
    requires Rangeable(c) && CondsFit(conds, c) && Fitting(v, c) && IsLower(lo, c, conds) && IsUpper(hi, c, conds)
    ensures Comparable(v, lo) && Comparable(v, hi)
  {
  }

  // ---------- the range of the key ----------

  function Concat(fs: seq<seq<Byte>>): seq<Byte> {
    if fs == [] then [] else fs[0] + Concat(fs[1..])
  }

  lemma {:induction false} ConcatSnoc(fs: seq<seq<Byte>>, f: seq<Byte>)
    ensures Concat(fs + [f]) == Concat(fs) + f
  {
    if fs == [] {
      assert (fs + [f])[1..] == [];
    } else {
      ConcatSnoc(fs[1..], f);
      assert (fs + [f])[1..] == fs[1..] + [f];
    }
  }

  predicate Widths(fs: seq<seq<Byte>>, cols: seq<ColMeta>) {
    |fs| == |cols| && forall i :: 0 <= i < |fs| ==> |fs[i]| == cols[i].len
  }

  lemma {:induction false} ConcatLen(fs: seq<seq<Byte>>, cols: seq<ColMeta>)
    requires Widths(fs, cols)
    ensures |Concat(fs)| == KeyLen(cols)
  {
    if fs != [] { ConcatLen(fs[1..], cols[1..]); }
  }

  /** Keys put together from columns compare columnwise as the columns do. */
  lemma {:induction false} ColumnwiseConcat(a: seq<seq<Byte>>, b: seq<seq<Byte>>, cols: seq<ColMeta>)
    requires Widths(a, cols) && Widths(b, cols) && |Concat(a)| == |Concat(b)| == KeyLen(cols)
    requires forall i :: 0 <= i < |cols| ==> ColCompare(a[i], b[i], cols[i]) <= 0
    ensures Columnwise(Concat(a), Concat(b), cols)
    decreases |cols|
  {
    if cols != [] {
      ConcatLen(a[1..], cols[1..]);
      ConcatLen(b[1..], cols[1..]);
      ColumnwiseConcat(a[1..], b[1..], cols[1..]);
      var n := cols[0].len;
      assert Concat(a)[..n] == a[0] && Concat(a)[n..] == Concat(a[1..]);
      assert Concat(b)[..n] == b[0] && Concat(b)[n..] == Concat(b[1..]);
    }
  }

  predicate AllFit(vs: seq<Value>, cols: seq<ColMeta>) {
    |vs| == |cols| && forall i :: 0 <= i < |vs| ==> Fitting(vs[i], cols[i])
  }

  function Raws(vs: seq<Value>, cols: seq<ColMeta>): (fs: seq<seq<Byte>>)
    requires AllFit(vs, cols)
    ensures Widths(fs, cols)
  {
    seq(|vs|, i requires 0 <= i < |vs| => Raw(vs[i], cols[i]))
  }

  /** What the scan demands of its index and conditions. */
  predicate ScanOk(cols: seq<ColMeta>, conds: seq<Condition>) {
    forall i :: 0 <= i < |cols| && cols[i].colType != BIGINT ==> Rangeable(cols[i]) && CondsFit(conds, cols[i])
  }

  predicate EndsAt(c: ColMeta, conds: seq<Condition>) {
    exists j :: 0 <= j < |conds| && Ends(conds[j], c)
  }

  /** The bounds: as narrow as the conditions allow up to the first column with a condition other than equality,
      and the whole range of the column after that. */
  ghost predicate Bounds(los: seq<Value>, his: seq<Value>, cols: seq<ColMeta>, conds: seq<Condition>) {
    && |los| == |his| == |cols|
    && forall i :: 0 <= i < |cols| ==>
        Rangeable(cols[i]) && CondsFit(conds, cols[i]) && BoundsAt(los[i], his[i], cols, conds, i)
  }

  ghost predicate BoundsAt(lo: Value, hi: Value, cols: seq<ColMeta>, conds: seq<Condition>, i: nat)
    requires i < |cols| && Rangeable(cols[i]) && CondsFit(conds, cols[i])
  {
    if exists j :: 0 <= j < i && EndsAt(cols[j], conds) then lo == Least(cols[i]) && hi == Greatest(cols[i])
    else IsLower(lo, cols[i], conds) && IsUpper(hi, cols[i], conds)
  }

  /** Every row that meets the conditions has its key between the two. */
  ghost predicate CoversRows(lo: seq<Byte>, hi: seq<Byte>, cols: seq<ColMeta>, conds: seq<Condition>) {
    && |lo| == |hi| == KeyLen(cols)
    && forall fs :: RowKey(fs, cols) && Meets(fs, cols, conds) ==>
         |Concat(fs)| == KeyLen(cols) && IxCompare(lo, Concat(fs), cols) <= 0 && IxCompare(Concat(fs), hi, cols) <= 0
  }

  /** Builds the least and the greatest key, between which every row lies that meets the conditions; fails for a column
      type without a range. */
  method InitKeyRange(cols: seq<ColMeta>, conds: seq<Condition>, minKey: array<Byte>, maxKey: array<Byte>)
      returns (ok: bool, ghost los: seq<Value>, ghost his: seq<Value>)
    requires ScanOk(cols, conds) && minKey != maxKey && minKey.Length == maxKey.Length == KeyLen(cols)
    modifies minKey, maxKey
    ensures ok <==> forall i :: 0 <= i < |cols| ==> cols[i].colType != BIGINT
    ensures ok ==> Bounds(los, his, cols, conds) && AllFit(los, cols) && AllFit(his, cols)
    ensures ok ==> minKey[..] == Concat(Raws(los, cols)) && maxKey[..] == Concat(Raws(his, cols))
    ensures ok ==> CoversRows(minKey[..], maxKey[..], cols, conds)
  {
    hide CoversRows, Fitting, Rangeable, CondsFit, Raws, Concat, KeyLen, BoundsAt, EndsAt, IsLower, IsUpper, Raw,
         Least, Greatest;
    los, his := [], [];
    var offset, isLast, n := 0, false, 0;
    assert cols[..0] == [] && KeyLen([]) == 0 && Concat(Raws([], [])) == [] by { NoColumns(); }
    while n < |cols|
      invariant 0 <= n <= |cols| && forall i :: 0 <= i < n ==> cols[i].colType != BIGINT
      invariant AllFit(los, cols[..n]) && AllFit(his, cols[..n])
      invariant forall i :: 0 <= i < n ==>
                  Rangeable(cols[i]) && CondsFit(conds, cols[i]) && BoundsAt(los[i], his[i], cols, conds, i)
      invariant isLast <==> exists j :: 0 <= j < n && EndsAt(cols[j], conds)
      invariant 0 <= offset == KeyLen(cols[..n]) <= KeyLen(cols)
      invariant minKey[..offset] == Concat(Raws(los, cols[..n])) && maxKey[..offset] == Concat(Raws(his, cols[..n]))
    {
      var c := cols[n];
      if c.colType == BIGINT { return false, los, his; }
      var lo, hi := Least(c), Greatest(c);
      if !isLast {
        lo, hi, isLast := ColumnRange(c, conds);
        assert isLast <==> EndsAt(c, conds) by { EndsIs(c, conds); }
      }
      BoundsAtIs(lo, hi, cols, conds, n);
      KeyLenPrefix(cols, n);
      RawsSnoc(los, lo, cols, n);
      RawsSnoc(his, hi, cols, n);
      CopyTo(maxKey, offset, Raw(hi, c));
      CopyTo(minKey, offset, Raw(lo, c));
      offset := offset + c.len;
      los, his := los + [lo], his + [hi];
      n := n + 1;
    }
    assert cols[..n] == cols;
    RangeCovers(cols, conds, los, his);
    return true, los, his;
  }

  lemma NoColumns()
    ensures KeyLen([]) == 0 && Concat(Raws([], [])) == []
  {
  }

  lemma EndsIs(c: ColMeta, conds: seq<Condition>)
    ensures EndsAt(c, conds) <==> exists i :: 0 <= i < |conds| && Ends(conds[i], c)
  {
  }

  lemma BoundsAtIs(lo: Value, hi: Value, cols: seq<ColMeta>, conds: seq<Condition>, i: nat)
    requires i < |cols| && Rangeable(cols[i]) && CondsFit(conds, cols[i])
    requires if exists j :: 0 <= j < i && EndsAt(cols[j], conds) then lo == Least(cols[i]) && hi == Greatest(cols[i])
             else IsLower(lo, cols[i], conds) && IsUpper(hi, cols[i], conds)
    ensures BoundsAt(lo, hi, cols, conds, i) && Fitting(lo, cols[i]) && Fitting(hi, cols[i])
  {
  }

  lemma RawsSnoc(vs: seq<Value>, v: Value, cols: seq<ColMeta>, n: nat)
    requires n < |cols| && AllFit(vs, cols[..n]) && Fitting(v, cols[n])
    ensures AllFit(vs + [v], cols[..n+1])
            && Concat(Raws(vs + [v], cols[..n+1])) == Concat(Raws(vs, cols[..n])) + Raw(v, cols[n])
  {
    hide Raw, Fitting, Concat;
    assert Raws(vs + [v], cols[..n+1]) == Raws(vs, cols[..n]) + [Raw(v, cols[n])];
    ConcatSnoc(Raws(vs, cols[..n]), Raw(v, cols[n]));
  }

  // ---------- soundness ----------

  /** The key columns of a stored row. */
  predicate RowKey(fs: seq<seq<Byte>>, cols: seq<ColMeta>) {
    |fs| == |cols| && forall i :: 0 <= i < |cols| ==> FieldOk(fs[i], cols[i]) && Dated(fs[i], cols[i])
  }

  /** Datetimes are of the form that is read, and not on the first day with a tab before the time. */
  predicate Dated(f: seq<Byte>, c: ColMeta) {
    c.colType == DATETIME ==> DatetimeText(f) && !TabOnFirstDay(f)
  }

  // ---------- datetimes ----------

  predicate Digit(b: Byte) { 48 <= b <= 57 }

  /** The number that the digits at `i` and `i + 1` write. */
  function Two(f: seq<Byte>, i: nat): int
    requires i + 1 < |f|
  {
    var x: int, y: int := f[i], f[i+1];
    10 * (x - 48) + (y - 48)
  }

  /** The form `YYYY-MM-DD hh:mm:ss`, with a space or a tab, that the engine reads: years from 1000 on, months 1 to 12,
      days 1 to 31, and hours, minutes and seconds of a day. */
  predicate DatetimeText(f: seq<Byte>) {
    && 19 <= |f| && (forall i :: 19 <= i < |f| ==> f[i] == 0)
    && (forall i :: 0 <= i < 19 && i !in {4, 7, 10, 13, 16} ==> Digit(f[i]))
    && f[4] == 45 && f[7] == 45 && f[10] in {32, 9} && f[13] == 58 && f[16] == 58
    && 10 <= Two(f, 0) && 1 <= Two(f, 5) <= 12 && 1 <= Two(f, 8) <= 31
    && Two(f, 11) <= 23 && Two(f, 14) <= 59 && Two(f, 17) <= 59
  }

  /** On the first of January of the year 1000, with a tab before the time. */
  predicate TabOnFirstDay(f: seq<Byte>)
    requires 19 <= |f|
  {
    f[10] == 9 && Two(f, 0) == 10 && Two(f, 2) == 0 && Two(f, 5) == 1 && Two(f, 8) == 1
  }

  lemma NotBelowFirst(f: seq<Byte>, lo: seq<Byte>, i: nat)
    requires DatetimeText(f) && !TabOnFirstDay(f) && |lo| == |f| && lo == FIRST_DATETIME + Zeros(|f| - 19)
    requires i < |f| && forall j :: 0 <= j < i ==> f[j] == lo[j]
    ensures lo[i] <= f[i]
  {
  }

  lemma NotAboveLast(f: seq<Byte>, hi: seq<Byte>, i: nat)
    requires DatetimeText(f) && |hi| == |f| && hi == LAST_DATETIME + Zeros(|f| - 19)
    requires i < |f| && forall j :: 0 <= j < i ==> f[j] == hi[j]
    ensures f[i] <= hi[i]
  {
  }

  lemma BelowOnFirstDay(f: seq<Byte>, lo: seq<Byte>)
    requires DatetimeText(f) && TabOnFirstDay(f) && |lo| == |f| && lo == FIRST_DATETIME + Zeros(|f| - 19)
    ensures FirstLower(f, lo, 10)
  {
    assert forall j :: 0 <= j < 10 ==> f[j] == lo[j];
  }

  /** Datetimes lie within the range of their column, but for the first day with a tab: a tab is below a space. */
  lemma DatetimeRange(f: seq<Byte>, c: ColMeta)
    requires c.colType == DATETIME && |f| == c.len && Rangeable(c) && DatetimeText(f)
    ensures MemCmp(Raw(Least(c), c), f) <= 0 <==> !TabOnFirstDay(f)
    ensures MemCmp(f, Raw(Greatest(c), c)) <= 0
  {
    hide DatetimeText, TabOnFirstDay, MemCmp;
    var lo, hi := Raw(Least(c), c), Raw(Greatest(c), c);
    assert 19 <= |f| by { LongEnough(f); }
    MemCmpFirst(lo, f);
    MemCmpFirst(f, hi);
    if TabOnFirstDay(f) {
      BelowOnFirstDay(f, lo);
    } else {
      forall i ensures !FirstLower(f, lo, i) {
        if 0 <= i < |f| && f[..i] == lo[..i] {
          assert forall j :: 0 <= j < i ==> f[..i][j] == f[j] && lo[..i][j] == lo[j];
          NotBelowFirst(f, lo, i);
        }
      }
    }
    forall i ensures !FirstLower(hi, f, i) {
      if 0 <= i < |f| && f[..i] == hi[..i] {
        assert forall j :: 0 <= j < i ==> f[..i][j] == f[j] && hi[..i][j] == hi[j];
        NotAboveLast(f, hi, i);
      }
    }
  }

  lemma LongEnough(f: seq<Byte>)
    requires DatetimeText(f)
    ensures 19 <= |f|
  {
  }

  /** `1000-01-01`, a tab, `00:00:00`: a datetime outside the range. */
  lemma TabOutside()
    ensures var f: seq<Byte> := FIRST_DATETIME[10 := 9]; var c := ColMeta("", DATETIME, 19);
            DatetimeText(f) && Rangeable(c) && MemCmp(Raw(Least(c), c), f) > 0
  {
    var f: seq<Byte> := FIRST_DATETIME[10 := 9];
    assert f == [49, 48, 48, 48, 45, 48, 49, 45, 48, 49, 9, 48, 48, 58, 48, 48, 58, 48, 48];
    assert DatetimeText(f) && TabOnFirstDay(f);
    DatetimeRange(f, ColMeta("", DATETIME, 19));
  }

  /** The row meets the conditions that compare key columns with constants. */
  predicate Meets(fs: seq<seq<Byte>>, cols: seq<ColMeta>, conds: seq<Condition>)
    requires |fs| == |cols|
  {
    forall i, j :: 0 <= i < |cols| && 0 <= j < |conds| && OnCol(conds[j], cols[i]) ==>
      BinOp(conds[j].op, Load(fs[i], cols[i]), conds[j].rhsVal)
  }

  lemma {:induction false} HighBytes(s: seq<Byte>, n: nat)
    requires |s| == n
    ensures MemCmp(s, seq(n, _ => 255)) <= 0
  {
    if n > 0 {
      HighBytes(s[1..], n - 1);
      var t: seq<Byte> := seq(n, _ => 255);
      var t1: seq<Byte> := seq(n - 1, _ => 255);
      assert t[1..] == t1;
    }
  }

  /** The whole range of a column holds every field. */
  lemma DomainBounds(f: seq<Byte>, c: ColMeta)
    requires Rangeable(c) && FieldOk(f, c) && Dated(f, c)
    ensures ColCompare(Raw(Least(c), c), f, c) <= 0 && ColCompare(f, Raw(Greatest(c), c), c) <= 0
  {
    LoadFits(f, c);
    var v := Load(f, c);
    if c.colType == STRING {
      assert Raw(Least(c), c) == Zeros(c.len);
      LowBytes(f, c.len);
      var high: seq<Byte> := seq(c.len, _ => 255);
      assert Raw(Greatest(c), c) == high;
      HighBytes(f, c.len);
    } else if c.colType == DATETIME {
      DatetimeRange(f, c);
    } else {
      RawOrder(Least(c), v, c);
      RawOrder(v, Greatest(c), c);
    }
  }

  /** A field that meets the conditions lies within the column's bounds. */
  lemma ColumnSound(f: seq<Byte>, cols: seq<ColMeta>, conds: seq<Condition>, i: nat, lo: Value, hi: Value)
    requires i < |cols| && Rangeable(cols[i]) && CondsFit(conds, cols[i]) && FieldOk(f, cols[i]) && Dated(f, cols[i])
    requires BoundsAt(lo, hi, cols, conds, i) && Fitting(lo, cols[i]) && Fitting(hi, cols[i])
    requires forall j :: 0 <= j < |conds| && OnCol(conds[j], cols[i]) ==>
               BinOp(conds[j].op, Load(f, cols[i]), conds[j].rhsVal)
    ensures ColCompare(Raw(lo, cols[i]), f, cols[i]) <= 0 && ColCompare(f, Raw(hi, cols[i]), cols[i]) <= 0
  {
    hide StrCmp, MemCmp, Raw, Fitting, Padded;
    var c := cols[i];
    DomainBounds(f, c);
    LoadFits(f, c);
    var v := Load(f, c);
    if lo != Least(c) {
      var j :| 0 <= j < |conds| && OnCol(conds[j], c) && BoundsBelow(conds[j].op) && conds[j].rhsVal == lo;
      CompareMirror(v, lo);
      RawOrder(lo, v, c);
    }
    if hi != Greatest(c) {
      var j :| 0 <= j < |conds| && OnCol(conds[j], c) && BoundsAbove(conds[j].op) && conds[j].rhsVal == hi;
      RawOrder(v, hi, c);
    }
  }

  /** Every row that meets the conditions has its key between the least and the greatest key of the range. */
  lemma RangeSound(cols: seq<ColMeta>, conds: seq<Condition>, los: seq<Value>, his: seq<Value>, fs: seq<seq<Byte>>)
    requires Bounds(los, his, cols, conds) && AllFit(los, cols) && AllFit(his, cols) && RowKey(fs, cols)
             && Meets(fs, cols, conds)
    ensures |Concat(Raws(los, cols))| == |Concat(Raws(his, cols))| == |Concat(fs)| == KeyLen(cols)
    ensures IxCompare(Concat(Raws(los, cols)), Concat(fs), cols) <= 0
            && IxCompare(Concat(fs), Concat(Raws(his, cols)), cols) <= 0
  {
    hide Fitting, Rangeable, CondsFit, BoundsAt, Concat, IxCompare, Columnwise, ColCompare, Raw, Load, BinOp;
    var mins, maxs := Raws(los, cols), Raws(his, cols);
    ConcatLen(mins, cols);
    ConcatLen(maxs, cols);
    ConcatLen(fs, cols);
    forall i | 0 <= i < |cols|
      ensures ColCompare(mins[i], fs[i], cols[i]) <= 0 && ColCompare(fs[i], maxs[i], cols[i]) <= 0
    {
      ColumnSound(fs[i], cols, conds, i, los[i], his[i]);
    }
    ColumnwiseConcat(mins, fs, cols);
    ColumnwiseConcat(fs, maxs, cols);
    ColumnwiseBelow(Concat(mins), Concat(fs), cols);
    ColumnwiseBelow(Concat(fs), Concat(maxs), cols);
  }

  lemma RangeCovers(cols: seq<ColMeta>, conds: seq<Condition>, los: seq<Value>, his: seq<Value>)
    requires Bounds(los, his, cols, conds) && AllFit(los, cols) && AllFit(his, cols)
    ensures CoversRows(Concat(Raws(los, cols)), Concat(Raws(his, cols)), cols, conds)
  {
    hide Bounds, AllFit, FieldOk, Dated, Meets, Raws, Concat, IxCompare;
    ConcatLen(Raws(los, cols), cols);
    ConcatLen(Raws(his, cols), cols);
    forall fs | RowKey(fs, cols) && Meets(fs, cols, conds)
      ensures |Concat(fs)| == KeyLen(cols) && IxCompare(Concat(Raws(los, cols)), Concat(fs), cols) <= 0
              && IxCompare(Concat(fs), Concat(Raws(his, cols)), cols) <= 0
    {
      RangeSound(cols, conds, los, his, fs);
    }
  }

  // ---------- rows of a table ----------

  /** The row of table `tab` in the combination has the key columns `fs`. */
  ghost predicate RowOf(db: Database, e: Env, tab: string, cols: seq<ColMeta>, fs: seq<seq<Byte>>) {
    && tab in e && tab in db && e[tab] < |db[tab]| && |fs| == |cols|
    && forall i :: 0 <= i < |cols| ==>
         cols[i].name in db[tab][e[tab]] && db[tab][e[tab]][cols[i].name] == Load(fs[i], cols[i])
  }

  /** A row that satisfies the conditions of its scan meets those on key columns. */
  lemma SatMeets(db: Database, e: Env, tab: string, cols: seq<ColMeta>, fs: seq<seq<Byte>>, conds: seq<Condition>)
    requires RowOf(db, e, tab, cols, fs) && SatAll(db, e, conds)
    requires forall j :: 0 <= j < |conds| && conds[j].isRhsVal ==> conds[j].lhs.tab == tab
    ensures Meets(fs, cols, conds)
  {
    hide BinOp, Load;
    forall i, j | 0 <= i < |cols| && 0 <= j < |conds| && OnCol(conds[j], cols[i])
      ensures BinOp(conds[j].op, Load(fs[i], cols[i]), conds[j].rhsVal)
    {
      assert Sat(db, e, conds[j]);
    }
  }

  /** So its key lies within a range that covers the rows meeting the conditions. */
  lemma SatInRange(db: Database, e: Env, tab: string, cols: seq<ColMeta>, fs: seq<seq<Byte>>, conds: seq<Condition>,
                   lo: seq<Byte>, hi: seq<Byte>)
    requires CoversRows(lo, hi, cols, conds) && RowKey(fs, cols) && RowOf(db, e, tab, cols, fs) && SatAll(db, e, conds)
    requires forall j :: 0 <= j < |conds| && conds[j].isRhsVal ==> conds[j].lhs.tab == tab
    ensures |Concat(fs)| == KeyLen(cols)
    ensures IxCompare(lo, Concat(fs), cols) <= 0 && IxCompare(Concat(fs), hi, cols) <= 0
  {
    hide Meets, SatAll, FieldOk, Dated, IxCompare, Concat, KeyLen, RowOf;
    SatMeets(db, e, tab, cols, fs, conds);
    assert |fs| == |cols|;
  }

  // ---------- the range is no wider ----------

  lemma {:induction false} ConcatField(fs: seq<seq<Byte>>, cols: seq<ColMeta>, i: nat)
    requires Widths(fs, cols) && i < |cols| && |Concat(fs)| == KeyLen(cols)
    ensures Field(Concat(fs), cols, i) == fs[i]
    decreases i
  {
    var n := cols[0].len;
    ConcatLen(fs[1..], cols[1..]);
    assert Concat(fs)[..n] == fs[0] && Concat(fs)[n..] == Concat(fs[1..]);
    if i == 0 {
      FieldHead(Concat(fs), cols);
    } else {
      ConcatField(fs[1..], cols[1..], i - 1);
      FieldTail(Concat(fs), cols, i - 1);
    }
  }

  /** Keys that agree before column `i` and are lower there. */
  lemma LowerThere(a: seq<seq<Byte>>, b: seq<seq<Byte>>, cols: seq<ColMeta>, i: nat)
    requires Widths(a, cols) && Widths(b, cols) && i < |cols| && ColCompare(a[i], b[i], cols[i]) < 0
    requires forall j :: 0 <= j < i ==> a[j] == b[j]
    ensures |Concat(a)| == |Concat(b)| == KeyLen(cols) && IxCompare(Concat(a), Concat(b), cols) < 0
  {
    hide Concat, IxCompare, Field;
    ConcatLen(a, cols);
    ConcatLen(b, cols);
    forall j | 0 <= j <= i ensures Field(Concat(a), cols, j) == a[j] && Field(Concat(b), cols, j) == b[j] {
      ConcatField(a, cols, j);
      ConcatField(b, cols, j);
    }
    ColCompareOrder(a[i], b[i], cols[i]);
    FirstColumnDecides(Concat(a), Concat(b), cols, i);
  }

  /** No column before `i` is compared with a constant by anything but equality. */
  predicate EqualBefore(cols: seq<ColMeta>, conds: seq<Condition>, i: nat)
    requires i <= |cols|
  {
    forall j, h :: 0 <= j < i && 0 <= h < |conds| && conds[h].isRhsVal && conds[h].lhs.col == cols[j].name ==>
        conds[h].op == Eq
  }

  lemma UsedAt(los: seq<Value>, his: seq<Value>, cols: seq<ColMeta>, conds: seq<Condition>, i: nat)
    requires Bounds(los, his, cols, conds) && i < |cols| && EqualBefore(cols, conds, i)
    ensures Rangeable(cols[i]) && CondsFit(conds, cols[i])
    ensures IsLower(los[i], cols[i], conds) && IsUpper(his[i], cols[i], conds)
  {
    assert BoundsAt(los[i], his[i], cols, conds, i);
  }

  /** A key whose columns before `i` are at the lower bound, and whose column `i` is below a constant that the
      conditions ask it to be at or above, lies below the range. */
  lemma BelowRange(cols: seq<ColMeta>, conds: seq<Condition>, los: seq<Value>, his: seq<Value>, fs: seq<seq<Byte>>,
                   i: nat, k: nat)
    requires Bounds(los, his, cols, conds) && AllFit(los, cols) && RowKey(fs, cols) && i < |cols| && k < |conds|
    requires EqualBefore(cols, conds, i) && forall j :: 0 <= j < i ==> fs[j] == Raw(los[j], cols[j])
    requires conds[k].isRhsVal && conds[k].lhs.col == cols[i].name && conds[k].op in {Eq, Gt, Ge}
    requires BinOp(Lt, Load(fs[i], cols[i]), conds[k].rhsVal)
    ensures |Concat(fs)| == |Concat(Raws(los, cols))| == KeyLen(cols)
    ensures IxCompare(Concat(fs), Concat(Raws(los, cols)), cols) < 0
  {
    hide Concat, IxCompare, EqualBefore, Bounds;
    UsedAt(los, his, cols, conds, i);
    BelowBound(fs[i], cols[i], conds, k, los[i]);
    LowerThere(fs, Raws(los, cols), cols, i);
  }

  lemma BelowBound(f: seq<Byte>, c: ColMeta, conds: seq<Condition>, k: nat, lo: Value)
    requires Rangeable(c) && CondsFit(conds, c) && IsLower(lo, c, conds) && FieldOk(f, c) && k < |conds|
    requires OnCol(conds[k], c) && conds[k].op in {Eq, Gt, Ge} && BinOp(Lt, Load(f, c), conds[k].rhsVal)
    ensures ColCompare(f, Raw(lo, c), c) < 0
  {
    hide StrCmp, MemCmp, Raw, Padded;
    var v, w := Load(f, c), conds[k].rhsVal;
    LoadFits(f, c);
    assert Compare(w, lo) <= 0;
    CompareTransitive(v, w, lo, c);
    RawOrder(v, lo, c);
    if Compare(v, lo) == 0 {
      CompareMirror(v, lo);
      CompareTransitive(w, lo, v, c);
      CompareMirror(v, w);
    }
  }

  /** In the same way for the upper bound. */
  lemma AboveRange(cols: seq<ColMeta>, conds: seq<Condition>, los: seq<Value>, his: seq<Value>, fs: seq<seq<Byte>>,
                   i: nat, k: nat)
    requires Bounds(los, his, cols, conds) && AllFit(his, cols) && RowKey(fs, cols) && i < |cols| && k < |conds|
    requires EqualBefore(cols, conds, i) && forall j :: 0 <= j < i ==> fs[j] == Raw(his[j], cols[j])
    requires conds[k].isRhsVal && conds[k].lhs.col == cols[i].name && conds[k].op in {Eq, Lt, Le}
    requires BinOp(Gt, Load(fs[i], cols[i]), conds[k].rhsVal)
    ensures |Concat(fs)| == |Concat(Raws(his, cols))| == KeyLen(cols)
    ensures IxCompare(Concat(Raws(his, cols)), Concat(fs), cols) < 0
  {
    hide Concat, IxCompare, EqualBefore, Bounds;
    UsedAt(los, his, cols, conds, i);
    AboveBound(fs[i], cols[i], conds, k, his[i]);
    LowerThere(Raws(his, cols), fs, cols, i);
  }

  lemma AboveBound(f: seq<Byte>, c: ColMeta, conds: seq<Condition>, k: nat, hi: Value)
    requires Rangeable(c) && CondsFit(conds, c) && IsUpper(hi, c, conds) && FieldOk(f, c) && k < |conds|
    requires OnCol(conds[k], c) && conds[k].op in {Eq, Lt, Le} && BinOp(Gt, Load(f, c), conds[k].rhsVal)
    ensures ColCompare(Raw(hi, c), f, c) < 0
  {
    hide StrCmp, MemCmp, Raw, Padded;
    var v, w := Load(f, c), conds[k].rhsVal;
    LoadFits(f, c);
    assert Compare(hi, w) <= 0;
    CompareMirror(v, w);
    CompareTransitive(hi, w, v, c);
    RawOrder(hi, v, c);
    if Compare(hi, v) == 0 {
      CompareMirror(hi, v);
      CompareTransitive(v, hi, w, c);
    }
  }

  /** Behind a column that is compared with a constant by anything but equality the range is the whole one: of a
      datetime column from `1000-01-01 00:00:00` to `9999-12-31 23:59:59`, which are datetimes themselves. */
  lemma WholeBehind(cols: seq<ColMeta>, conds: seq<Condition>, los: seq<Value>, his: seq<Value>, i: nat, k: nat, j: nat)
    requires Bounds(los, his, cols, conds) && i < j < |cols| && k < |conds|
    requires conds[k].isRhsVal && conds[k].lhs.col == cols[i].name && conds[k].op != Eq
    ensures cols[j].colType == INT ==> los[j] == Num(-0x8000_0000) && his[j] == Num(0x7fff_ffff)
    ensures cols[j].colType == STRING ==>
              los[j] == Text(seq(cols[j].len, _ => 0)) && his[j] == Text(seq(cols[j].len, _ => 255))
    ensures cols[j].colType == DATETIME ==>
              los[j].Text? && his[j].Text? && DatetimeText(los[j].s) && DatetimeText(his[j].s)
    ensures cols[j].colType == DATETIME ==> los[j].s == FIRST_DATETIME && his[j].s == LAST_DATETIME
  {
    hide DatetimeText, Bounds;
    BehindIs(cols, conds, los, his, i, k, j);
    DatetimeEnds();
    assert Zeros(cols[j].len) == seq(cols[j].len, _ => 0);
  }

  lemma BehindIs(cols: seq<ColMeta>, conds: seq<Condition>, los: seq<Value>, his: seq<Value>, i: nat, k: nat, j: nat)
    requires Bounds(los, his, cols, conds) && i < j < |cols| && k < |conds| && OnCol(conds[k], cols[i])
             && conds[k].op != Eq
    ensures |los| == |his| == |cols| && Rangeable(cols[j]) && los[j] == Least(cols[j]) && his[j] == Greatest(cols[j])
  {
    hide Least, Greatest;
    assert Ends(conds[k], cols[i]) && EndsAt(cols[i], conds) && BoundsAt(los[j], his[j], cols, conds, j);
  }

  lemma DatetimeEnds()
    ensures DatetimeText(FIRST_DATETIME) && DatetimeText(LAST_DATETIME)
  {
  }
}
