/** Log records and their bytes. */
module LogCodec {
  import opened Values
  import opened Memory
  import opened RecordPages

  const OFFSET_LOG_TYPE := 0
  const OFFSET_LSN := 4
  const OFFSET_LOG_TOT_LEN := 8
  const OFFSET_LOG_TID := 12
  const OFFSET_PREV_LSN := 16
  const OFFSET_LOG_DATA := 20
  const LOG_HEADER_SIZE := 20

  datatype LogType = UPDATE | INSERT | DELETE | BEGIN | COMMIT | ABORT

  function TypeNo(t: LogType): (n: nat)
    ensures n <= 5
  {
    match t
    case UPDATE => 0
    case INSERT => 1
    case DELETE => 2
    case BEGIN => 3
    case COMMIT => 4
    case ABORT => 5
  }

  /** The changed row: its values (before and after for an update, else one), its place and its table. */
  datatype Change = Change(values: seq<Record>, rid: Rid, table: seq<Byte>)

  datatype LogRecord = LogRecord(logType: LogType, lsn: int, tid: int, prevLsn: int, change: Change)

  predicate IsData(t: LogType) { t in {UPDATE, INSERT, DELETE} }

  /** Only records of row changes have a change, and only updates have two values. */
  predicate WellTyped(r: LogRecord) {
    if IsData(r.logType) then |r.change.values| == (if r.logType == UPDATE then 2 else 1)
    else r.change == Change([], Rid(0, 0), [])
  }

  function ValuesLen(vs: seq<Record>): nat {
    if vs == [] then 0 else 4 + |vs[0]| + ValuesLen(vs[1..])
  }

  function TotLen(r: LogRecord): (n: nat)
    ensures LOG_HEADER_SIZE <= n
  {
    if IsData(r.logType) then LOG_HEADER_SIZE + ValuesLen(r.change.values) + 8 + 8 + |r.change.table|
    else LOG_HEADER_SIZE
  }

  /** The fields fit their machine types. */
  predicate Fits(r: LogRecord) {
    WellTyped(r) && Int32(r.lsn) && Int32(r.tid) && Int32(r.prevLsn) && Int32(r.change.rid.pageNo)
      && Int32(r.change.rid.slotNo) && Int32(TotLen(r))
  }

  function Header(r: LogRecord): (b: seq<Byte>)
    requires Fits(r)
    ensures |b| == LOG_HEADER_SIZE
  {
    IntBytes(TypeNo(r.logType)) + IntBytes(r.lsn) + Bytes(TotLen(r), 4) + IntBytes(r.tid) + IntBytes(r.prevLsn)
  }

  function ValueBytes(vs: seq<Record>): (b: seq<Byte>)
    requires Int32(ValuesLen(vs))
    ensures |b| == ValuesLen(vs)
  {
    if vs == [] then [] else IntBytes(|vs[0]|) + vs[0] + ValueBytes(vs[1..])
  }

  function ChangeBytes(c: Change): (b: seq<Byte>)
    requires Int32(ValuesLen(c.values)) && Int32(c.rid.pageNo) && Int32(c.rid.slotNo)
    ensures |b| == ValuesLen(c.values) + 8 + 8 + |c.table|
  {
    ValueBytes(c.values) + (IntBytes(c.rid.pageNo) + IntBytes(c.rid.slotNo)) + Bytes(|c.table|, 8) + c.table
  }

  /** The bytes of a record. */
  function Encode(r: LogRecord): (b: seq<Byte>)
    requires Fits(r)
    ensures |b| == TotLen(r)
  {
    if IsData(r.logType) then Header(r) + ChangeBytes(r.change) else Header(r)
  }

  // ---------- writing ----------

  method SerializeHeader(r: LogRecord, dest: array<Byte>)
    requires Fits(r) && LOG_HEADER_SIZE <= dest.Length
    modifies dest
    ensures dest[..LOG_HEADER_SIZE] == Header(r)
    ensures forall i :: LOG_HEADER_SIZE <= i < dest.Length ==> dest[i] == old(dest[i])
  {
    hide IntBytes, Bytes;
    CopyTo(dest, OFFSET_LOG_TYPE, IntBytes(TypeNo(r.logType)));
    CopyTo(dest, OFFSET_LSN, IntBytes(r.lsn));
    CopyTo(dest, OFFSET_LOG_TOT_LEN, Bytes(TotLen(r), 4));
    CopyTo(dest, OFFSET_LOG_TID, IntBytes(r.tid));
    CopyTo(dest, OFFSET_PREV_LSN, IntBytes(r.prevLsn));
  }

  method SerializeValues(vs: seq<Record>, dest: array<Byte>, from: nat) returns (offset: nat)
    requires Int32(ValuesLen(vs)) && from + ValuesLen(vs) <= dest.Length
    modifies dest
    ensures offset == from + ValuesLen(vs) && dest[..offset] == old(dest[..from]) + ValueBytes(vs)
    ensures forall i :: offset <= i < dest.Length ==> dest[i] == old(dest[i])
  {
    hide IntBytes;
    offset := from;
    var k := 0;
    ghost var written: seq<Byte> := [];
    while k < |vs|
      invariant 0 <= k <= |vs| && Int32(ValuesLen(vs[k..])) && offset + ValuesLen(vs[k..]) == from + ValuesLen(vs)
      invariant ValueBytes(vs) == written + ValueBytes(vs[k..])
      invariant dest[..offset] == old(dest[..from]) + written
      invariant forall i :: offset <= i < dest.Length ==> dest[i] == old(dest[i])
    {
      var v := vs[k];
      assert vs[k..][0] == v && vs[k..][1..] == vs[k+1..];
      Regroup(written, IntBytes(|v|), v, ValueBytes(vs[k+1..]));
      Regroup(old(dest[..from]), written, IntBytes(|v|), v);
      CopyTo(dest, offset, IntBytes(|v|));
      offset := offset + 4;
      CopyTo(dest, offset, v);
      offset := offset + |v|;
      written := written + IntBytes(|v|) + v;
      k := k + 1;
    }
  }

  lemma Regroup(a: seq<Byte>, b: seq<Byte>, c: seq<Byte>, d: seq<Byte>)
    ensures a + (b + c + d) == (a + b + c) + d && ((a + b) + c) + d == a + (b + c + d)
  {
  }

  /** Writes the record at the start of `dest`, leaving the rest as it was. */
  method Serialize(r: LogRecord, dest: array<Byte>)
    requires Fits(r) && TotLen(r) <= dest.Length
    modifies dest
    ensures dest[..TotLen(r)] == Encode(r)
    ensures forall i :: TotLen(r) <= i < dest.Length ==> dest[i] == old(dest[i])
  {
    hide IntBytes, Bytes, Header, ValueBytes, ValuesLen;
    SerializeHeader(r, dest);
    if !IsData(r.logType) { return; }
    var c := r.change;
    var offset := SerializeValues(c.values, dest, OFFSET_LOG_DATA);
    var rid := IntBytes(c.rid.pageNo) + IntBytes(c.rid.slotNo);
    CopyTo(dest, offset, rid);
    offset := offset + 8;
    CopyTo(dest, offset, Bytes(|c.table|, 8));
    offset := offset + 8;
    CopyTo(dest, offset, c.table);
    Regroup2(Header(r), ValueBytes(c.values), rid, Bytes(|c.table|, 8), c.table);
  }

  lemma Regroup2(a: seq<Byte>, b: seq<Byte>, c: seq<Byte>, d: seq<Byte>, e: seq<Byte>)
    ensures (((a + b) + c) + d) + e == a + (b + c + d + e)
  {
  }

  // ---------- reading ----------

  predicate At(src: seq<Byte>, o: nat, b: seq<Byte>) {
    o + |b| <= |src| && src[o..o + |b|] == b
  }

  lemma Piece(src: seq<Byte>, a: seq<Byte>, b: seq<Byte>, c: seq<Byte>)
    requires a + b + c <= src
    ensures At(src, |a|, b)
  {
    assert (a + b + c)[|a|..|a| + |b|] == b;
    assert src[..|a| + |b| + |c|] == a + b + c;
    assert src[|a|..|a| + |b|] == src[..|a| + |b| + |c|][|a|..|a| + |b|];
  }

  lemma HeaderPieces(src: seq<Byte>, r: LogRecord)
    requires Fits(r) && Header(r) <= src
    ensures At(src, OFFSET_LOG_TYPE, IntBytes(TypeNo(r.logType))) && At(src, OFFSET_LSN, IntBytes(r.lsn))
    ensures At(src, OFFSET_LOG_TOT_LEN, Bytes(TotLen(r), 4))
    ensures At(src, OFFSET_LOG_TID, IntBytes(r.tid)) && At(src, OFFSET_PREV_LSN, IntBytes(r.prevLsn))
  {
    hide IntBytes, Bytes, At;
    var t, l, n := IntBytes(TypeNo(r.logType)), IntBytes(r.lsn), Bytes(TotLen(r), 4);
    var i, p := IntBytes(r.tid), IntBytes(r.prevLsn);
    assert Header(r) == [] + t + (l + n + i + p) == t + l + (n + i + p) == (t + l) + n + (i + p);
    assert Header(r) == (t + l + n) + i + p == (t + l + n + i) + p + [];
    Piece(src, [], t, l + n + i + p);
    Piece(src, t, l, n + i + p);
    Piece(src, t + l, n, i + p);
    Piece(src, t + l + n, i, p);
    Piece(src, t + l + n + i, p, []);
  }

  method ReadInt(src: seq<Byte>, offset: nat, ghost x: int) returns (y: int)
    requires Int32(x) && At(src, offset, IntBytes(x))
    ensures y == x
  {
    IntRoundTrip(x);
    return Signed(src[offset..offset + 4]);
  }

  function TypeOf(n: int): LogType {
    if n == 0 then UPDATE else if n == 1 then INSERT else if n == 2 then DELETE
    else if n == 3 then BEGIN else if n == 4 then COMMIT else ABORT
  }

  /** Reading back: whatever follows it, a record is read as it was written. */
  method Deserialize(src: seq<Byte>, ghost r: LogRecord) returns (d: LogRecord)
    requires Fits(r) && Encode(r) <= src
    ensures d == r
  {
    hide IntBytes, Bytes, Header, ChangeBytes;
    EncodePieces(src, r);
    var t := ReadInt(src, OFFSET_LOG_TYPE, TypeNo(r.logType));
    var lsn := ReadInt(src, OFFSET_LSN, r.lsn);
    var tid := ReadInt(src, OFFSET_LOG_TID, r.tid);
    var prev := ReadInt(src, OFFSET_PREV_LSN, r.prevLsn);
    var c := Change([], Rid(0, 0), []);
    if IsData(TypeOf(t)) {
      c := DeserializeChange(src, if TypeOf(t) == UPDATE then 2 else 1, r.change);
    }
    return LogRecord(TypeOf(t), lsn, tid, prev, c);
  }

  lemma EncodePieces(src: seq<Byte>, r: LogRecord)
    requires Fits(r) && Encode(r) <= src
    ensures Header(r) <= src && (IsData(r.logType) ==> At(src, OFFSET_LOG_DATA, ChangeBytes(r.change)))
    ensures At(src, OFFSET_LOG_TYPE, IntBytes(TypeNo(r.logType))) && At(src, OFFSET_LSN, IntBytes(r.lsn))
    ensures At(src, OFFSET_LOG_TID, IntBytes(r.tid)) && At(src, OFFSET_PREV_LSN, IntBytes(r.prevLsn))
  {
    hide IntBytes, Bytes, Header, ChangeBytes;
    if IsData(r.logType) {
      assert Encode(r) == Header(r) + ChangeBytes(r.change) + [];
      Piece(src, Header(r), ChangeBytes(r.change), []);
    }
    HeaderPieces(src, r);
  }

  lemma LenField(src: seq<Byte>, r: LogRecord)
    requires Fits(r) && Encode(r) <= src
    ensures |src| >= TotLen(r) && src[OFFSET_LOG_TOT_LEN..OFFSET_LOG_TOT_LEN + 4] == Bytes(TotLen(r), 4)
  {
    hide IntBytes, Bytes, Header, ChangeBytes;
    EncodePieces(src, r);
    HeaderPieces(src, r);
  }

  method DeserializeChange(src: seq<Byte>, n: nat, ghost c: Change) returns (d: Change)
    requires |c.values| == n && Int32(ValuesLen(c.values)) && Int32(c.rid.pageNo) && Int32(c.rid.slotNo)
             && Int32(|c.table|)
    requires At(src, OFFSET_LOG_DATA, ChangeBytes(c))
    ensures d == c
  {
    hide IntBytes, Bytes, At, ValueBytes;
    var offset: nat := OFFSET_LOG_DATA;
    ChangePieces(src, offset, c);
    var values: seq<Record> := [];
    while |values| < n
      invariant |values| <= n && values == c.values[..|values|] && Int32(ValuesLen(c.values[|values|..]))
      invariant offset + ValuesLen(c.values[|values|..]) == OFFSET_LOG_DATA + ValuesLen(c.values)
      invariant At(src, offset, ValueBytes(c.values[|values|..]))
    {
      ghost var rest := c.values[|values|..];
      assert rest[0] == c.values[|values|] && rest[1..] == c.values[|values| + 1..];
      ValuePieces(src, offset, rest);
      var size := ReadInt(src, offset, |rest[0]|);
      assert At(src, offset + 4, rest[0]) ==>
               src[offset + 4..offset + 4 + size] == rest[0]
                 && offset + 4 + size <= |src| by { AtIs(src, offset + 4, rest[0]); }
      values := values + [src[offset + 4..offset + 4 + size]];
      offset := offset + size + 4;
    }
    assert c.values[|values|..] == [] && values == c.values;
    var pageNo := ReadInt(src, offset, c.rid.pageNo);
    var slotNo := ReadInt(src, offset + 4, c.rid.slotNo);
    offset := offset + 8;
    AtIs(src, offset, Bytes(|c.table|, 8));
    SizeRead(|c.table|);
    var tableSize := Number(src[offset..offset + 8]);
    offset := offset + 8;
    AtIs(src, offset, c.table);
    return Change(values, Rid(pageNo, slotNo), src[offset..offset + tableSize]);
  }

  lemma AtIs(src: seq<Byte>, o: nat, b: seq<Byte>)
    requires At(src, o, b)
    ensures o + |b| <= |src| && src[o..o + |b|] == b
  {
  }

  lemma SizeRead(n: nat)
    requires Int32(n)
    ensures Number(Bytes(n, 8)) == n
  {
    FourBytes();
    NumberBytes(n, 8);
  }

  lemma AtPart(src: seq<Byte>, o: nat, a: seq<Byte>, b: seq<Byte>, c: seq<Byte>)
    requires At(src, o, a + b + c)
    ensures At(src, o + |a|, b) && At(src, o + |a| + |b|, c)
  {
    var all := a + b + c;
    assert |all| == |a| + |b| + |c|;
    assert forall i :: 0 <= i < |all| ==> src[o + i] == src[o..o + |all|][i] == all[i];
    assert forall i :: 0 <= i < |b| ==> src[o + |a| + i] == src[o + (|a| + i)] == all[|a| + i] == b[i];
    assert forall i :: 0 <= i < |c| ==>
             src[o + |a| + |b| + i] == src[o + (|a| + |b| + i)] == all[|a| + |b| + i] == c[i];
  }

  lemma ValuePieces(src: seq<Byte>, o: nat, vs: seq<Record>)
    requires vs != [] && Int32(ValuesLen(vs)) && At(src, o, ValueBytes(vs))
    ensures At(src, o, IntBytes(|vs[0]|)) && At(src, o + 4, vs[0]) && At(src, o + 4 + |vs[0]|, ValueBytes(vs[1..]))
  {
    hide IntBytes, At;
    var a, v, rest := IntBytes(|vs[0]|), vs[0], ValueBytes(vs[1..]);
    assert ValueBytes(vs) == a + v + rest == [] + a + (v + rest);
    AtPart(src, o, a, v, rest);
    AtPart(src, o, [], a, v + rest);
  }

  lemma ChangePieces(src: seq<Byte>, o: nat, c: Change)
    requires Int32(ValuesLen(c.values)) && Int32(c.rid.pageNo) && Int32(c.rid.slotNo) && At(src, o, ChangeBytes(c))
    ensures At(src, o, ValueBytes(c.values))
    ensures var e := o + ValuesLen(c.values);
            && At(src, e, IntBytes(c.rid.pageNo)) && At(src, e + 4, IntBytes(c.rid.slotNo))
            && At(src, e + 8, Bytes(|c.table|, 8)) && At(src, e + 16, c.table)
  {
    hide IntBytes, Bytes, At, ValueBytes;
    var v, p, s, n := ValueBytes(c.values), IntBytes(c.rid.pageNo), IntBytes(c.rid.slotNo), Bytes(|c.table|, 8);
    assert ChangeBytes(c) == [] + v + (p + s + n + c.table) == v + p + (s + n + c.table);
    assert ChangeBytes(c) == (v + p) + s + (n + c.table) == (v + p + s) + n + c.table;
    AtPart(src, o, [], v, p + s + n + c.table);
    AtPart(src, o, v, p, s + n + c.table);
    AtPart(src, o, v + p, s, n + c.table);
    AtPart(src, o, v + p + s, n, c.table);
  }

  // ---------- the format, byte by byte ----------

  lemma IntAt(src: seq<Byte>, o: nat, x: int)
    requires Int32(x) && At(src, o, IntBytes(x))
    ensures o + 4 <= |src| && Signed(src[o..o + 4]) == x
  {
    IntRoundTrip(x);
  }

  lemma TypeBytes(t: LogType)
    ensures IntBytes(TypeNo(t)) == [TypeNo(t), 0, 0, 0]
  {
    var n := TypeNo(t);
    assert n % 256 == n && n / 256 == 0;
    assert Bytes(0, 3) == [0, 0, 0];
  }

  /** The header: the number of the type, the log number, the length, the transaction and the log number before, each of
      four bytes. */
  lemma HeaderFormat(r: LogRecord)
    requires Fits(r)
    ensures var b := Encode(r);
            && 20 <= |b| && b[1] == 0 && b[2] == 0 && b[3] == 0
            && (r.logType == UPDATE ==> b[0] == 0) && (r.logType == INSERT ==> b[0] == 1)
            && (r.logType == DELETE ==> b[0] == 2)
            && (r.logType == BEGIN ==> b[0] == 3) && (r.logType == COMMIT ==> b[0] == 4)
            && (r.logType == ABORT ==> b[0] == 5)
            && Signed(b[4..8]) == r.lsn && Number(b[8..12]) == |b|
            && Signed(b[12..16]) == r.tid && Signed(b[16..20]) == r.prevLsn
  {
    hide IntBytes, Bytes, Header, ChangeBytes, Encode, Signed, Number, TotLen;
    var b := Encode(r);
    EncodePieces(b, r);
    TypeBytes(r.logType);
    AtIs(b, 0, IntBytes(TypeNo(r.logType)));
    assert forall i :: 0 <= i < 4 ==> b[i] == b[0..4][i];
    IntAt(b, 4, r.lsn);
    IntAt(b, 12, r.tid);
    IntAt(b, 16, r.prevLsn);
    LenField(b, r);
    assert Number(Bytes(TotLen(r), 4)) == TotLen(r) by { LenRead(r); }
  }

  lemma LenRead(r: LogRecord)
    requires Fits(r)
    ensures Number(Bytes(TotLen(r), 4)) == TotLen(r)
  {
    FourBytes();
    NumberBytes(TotLen(r), 4);
  }

  /** The row from byte `o` on: page and slot of four bytes each, the length of the table's name of eight, and the
      name. */
  predicate RowFormat(b: seq<Byte>, o: nat, c: Change) {
    && o + 16 + |c.table| == |b|
    && Signed(b[o..o + 4]) == c.rid.pageNo && Signed(b[o + 4..o + 8]) == c.rid.slotNo
    && Number(b[o + 8..o + 16]) == |c.table| && b[o + 16..] == c.table
  }

  /** A value at byte `o`: its size of four bytes, and its bytes. */
  predicate ValueFormat(b: seq<Byte>, o: nat, v: Record) {
    o + 4 + |v| <= |b| && Signed(b[o..o + 4]) == |v| && b[o + 4..o + 4 + |v|] == v
  }

  lemma RowFormatIs(b: seq<Byte>, o: nat, c: Change)
    requires Int32(ValuesLen(c.values)) && Int32(c.rid.pageNo) && Int32(c.rid.slotNo) && Int32(|c.table|)
    requires At(b, o, ChangeBytes(c)) && o + ValuesLen(c.values) + 16 + |c.table| == |b|
    ensures RowFormat(b, o + ValuesLen(c.values), c)
  {
    hide IntBytes, Bytes, ValueBytes, ChangeBytes, Signed, Number, ValuesLen;
    var e := o + ValuesLen(c.values);
    ChangePieces(b, o, c);
    IntAt(b, e, c.rid.pageNo);
    IntAt(b, e + 4, c.rid.slotNo);
    SizeRead(|c.table|);
  }

  lemma ValueFormatIs(b: seq<Byte>, o: nat, vs: seq<Record>)
    requires vs != [] && Int32(ValuesLen(vs)) && At(b, o, ValueBytes(vs))
    ensures ValueFormat(b, o, vs[0]) && At(b, o + 4 + |vs[0]|, ValueBytes(vs[1..]))
    ensures ValuesLen(vs) == 4 + |vs[0]| + ValuesLen(vs[1..])
  {
    hide IntBytes, ValueBytes, Signed;
    ValuePieces(b, o, vs);
    IntAt(b, o, |vs[0]|);
  }

  /** An insert or delete has one value from byte 20 on and then the row. */
  lemma OneValueFormat(r: LogRecord)
    requires Fits(r) && r.logType in {INSERT, DELETE}
    ensures var v := r.change.values[0]; ValueFormat(Encode(r), 20, v) && RowFormat(Encode(r), 24 + |v|, r.change)
  {
    hide IntBytes, Bytes, ValueBytes, ChangeBytes, Header, Signed, Number, Encode, ValueFormat, RowFormat;
    var b := Encode(r);
    var vs: seq<Record> := r.change.values;
    EncodePieces(b, r);
    ChangePieces(b, 20, r.change);
    ValueFormatIs(b, 20, vs);
    var none: seq<Record> := [];
    assert vs[1..] == none && ValuesLen(none) == 0;
    RowFormatIs(b, 20, r.change);
  }

  /** An update has the old value from byte 20 on, then the new one, and then the row. */
  lemma TwoValueFormat(r: LogRecord)
    requires Fits(r) && r.logType == UPDATE
    ensures var v, w := r.change.values[0], r.change.values[1];
            && ValueFormat(Encode(r), 20, v) && ValueFormat(Encode(r), 24 + |v|, w)
            && RowFormat(Encode(r), 28 + |v| + |w|, r.change)
  {
    hide IntBytes, Bytes, ValueBytes, ChangeBytes, Header, Signed, Number, Encode, ValueFormat, RowFormat;
    var b := Encode(r);
    var vs: seq<Record> := r.change.values;
    EncodePieces(b, r);
    ChangePieces(b, 20, r.change);
    ValueFormatIs(b, 20, vs);
    ValueFormatIs(b, 24 + |vs[0]|, vs[1..]);
    var none: seq<Record> := [];
    assert vs[1..][1..] == none && ValuesLen(none) == 0;
    RowFormatIs(b, 20, r.change);
  }
}
