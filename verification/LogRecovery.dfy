/** The analysis pass of recovery: reading the log in buffers, and the transactions left unfinished. */
module LogRecovery {
  import opened Config
  import opened Values
  import opened Memory
  import opened LogCodec
  import opened LogManagement

  // ---------- the table of active transactions ----------

  type Att = map<int, seq<int>>

  function Zeros(n: int): seq<int> { seq(if n < 0 then 0 else n, _ => 0) }

  /** A begin enters the transaction, unless it is there, with as many zeros as its log number says; a change
      appends its log number; a commit or abort removes the transaction. */
  function Enter(att: Att, r: LogRecord): Att {
    match r.logType
    case BEGIN => if r.tid in att then att else att[r.tid := Zeros(r.lsn)]
    case COMMIT => att - {r.tid}
    case ABORT => att - {r.tid}
    case _ => att[r.tid := (if r.tid in att then att[r.tid] else []) + [r.lsn]]
  }

  function AttOf(rs: seq<LogRecord>): Att {
    if rs == [] then map[] else Enter(AttOf(rs[..|rs|-1]), rs[|rs|-1])
  }

  function ByLsn(rs: seq<LogRecord>): map<int, LogRecord> {
    if rs == [] then map[] else ByLsn(rs[..|rs|-1])[rs[|rs|-1].lsn := rs[|rs|-1]]
  }

  predicate Ends(r: LogRecord, tid: int) { r.tid == tid && r.logType in {COMMIT, ABORT} }
  predicate Works(r: LogRecord, tid: int) { r.tid == tid && r.logType !in {COMMIT, ABORT} }

  /** The transaction has a begin or a change after its last commit or abort. */
  predicate Unfinished(rs: seq<LogRecord>, tid: int) {
    exists i :: 0 <= i < |rs| && Works(rs[i], tid) && forall j :: i < j < |rs| ==> !Ends(rs[j], tid)
  }

  /** Exactly the unfinished transactions are in the table. */
  lemma {:induction false} AttIsUnfinished(rs: seq<LogRecord>, tid: int)
    ensures tid in AttOf(rs) <==> Unfinished(rs, tid)
  {
    if rs != [] {
      var n := |rs| - 1;
      AttIsUnfinished(rs[..n], tid);
      if Unfinished(rs[..n], tid) && !Ends(rs[n], tid) {
        var i :| 0 <= i < n && Works(rs[..n][i], tid) && forall j :: i < j < n ==> !Ends(rs[..n][j], tid);
        assert Works(rs[i], tid) && forall j :: i < j < |rs| ==> !Ends(rs[j], tid);
      }
      if Works(rs[n], tid) { assert Unfinished(rs, tid); }
      if Unfinished(rs, tid) && !Works(rs[n], tid) {
        var i :| 0 <= i < |rs| && Works(rs[i], tid) && forall j :: i < j < |rs| ==> !Ends(rs[j], tid);
        assert Works(rs[..n][i], tid) && forall j :: i < j < n ==> !Ends(rs[..n][j], tid);
      }
    }
  }

  /** The log numbers of the changes of a transaction since it last ended. */
  function ChangesSince(rs: seq<LogRecord>, tid: int): seq<int> {
    if rs == [] then [] else
      var (r, before) := (rs[|rs|-1], rs[..|rs|-1]);
      if Ends(r, tid) then []
      else if r.tid == tid && IsData(r.logType) then ChangesSince(before, tid) + [r.lsn]
      else ChangesSince(before, tid)
  }

  /** Record `i` is the one with which the transaction has become active for the last time. */
  predicate Opens(rs: seq<LogRecord>, tid: int, i: int) {
    0 <= i < |rs| && Works(rs[i], tid) && !Unfinished(rs[..i], tid) && forall j :: i < j < |rs| ==> !Ends(rs[j], tid)
  }

  /** The list of an active transaction: as many zeros as the log number of the begin record that opened it says, or
      none if a change opened it, and then the log numbers of its changes, in order. */
  lemma {:induction false} AttLists(rs: seq<LogRecord>, tid: int) returns (i: nat)
    requires tid in AttOf(rs)
    ensures Opens(rs, tid, i)
    ensures AttOf(rs)[tid] == Zeros(if rs[i].logType == BEGIN then rs[i].lsn else 0) + ChangesSince(rs, tid)
  {
    hide Unfinished;
    var n := |rs| - 1;
    var r, before := rs[n], rs[..n];
    if tid in AttOf(before) {
      i := AttLists(before, tid);
      assert before[..i] == rs[..i];
    } else {
      i := n;
      AttIsUnfinished(before, tid);
      NoChanges(before, tid);
    }
  }

  /** Record `i` is a change of the transaction since it last ended. */
  predicate ChangeSince(rs: seq<LogRecord>, tid: int, i: int) {
    0 <= i < |rs| && rs[i].tid == tid && IsData(rs[i].logType) && forall j :: i < j < |rs| ==> !Ends(rs[j], tid)
  }

  predicate Ascending(ns: seq<int>) { forall i, j :: 0 <= i < j < |ns| ==> ns[i] < ns[j] }

  predicate LsnsAscend(rs: seq<LogRecord>) { forall i, j :: 0 <= i < j < |rs| ==> rs[i].lsn < rs[j].lsn }

  /** Exactly these records are listed. */
  lemma {:induction false} ChangesAre(rs: seq<LogRecord>, tid: int)
    ensures forall x :: x in ChangesSince(rs, tid) <==> exists i :: ChangeSince(rs, tid, i) && rs[i].lsn == x
  {
    if rs != [] {
      var n := |rs| - 1;
      var before := rs[..n];
      ChangesAre(before, tid);
      forall i | ChangeSince(rs, tid, i) && i < n ensures ChangeSince(before, tid, i) && before[i] == rs[i] { }
      forall i | ChangeSince(before, tid, i) && !Ends(rs[n], tid)
        ensures ChangeSince(rs, tid, i) && before[i] == rs[i]
      {
      }
      if Ends(rs[n], tid) {
        forall i ensures !ChangeSince(rs, tid, i) { assert i < n ==> !ChangeSince(rs, tid, i); }
      }
      ListedSince(rs, tid);
    }
  }

  /** They are listed in the order of the log. */
  lemma {:induction false} ChangesAscend(rs: seq<LogRecord>, tid: int)
    requires LsnsAscend(rs)
    ensures Ascending(ChangesSince(rs, tid))
  {
    if rs != [] {
      var n := |rs| - 1;
      var old' := ChangesSince(rs[..n], tid);
      ChangesAscend(rs[..n], tid);
      ChangesAre(rs[..n], tid);
      ListedSince(rs, tid);
      forall x | x in old' ensures x < rs[n].lsn {
        var i :| ChangeSince(rs[..n], tid, i) && rs[..n][i].lsn == x;
        assert rs[i] == rs[..n][i];
      }
      forall i | 0 <= i < |old'| ensures old'[i] < rs[n].lsn { assert old'[i] in old'; }
    }
  }

  /** Under each log number stands the last record that has it. */
  lemma {:induction false} ByLsnLast(rs: seq<LogRecord>, i: nat)
    requires i < |rs| && forall j :: i < j < |rs| ==> rs[j].lsn != rs[i].lsn
    ensures rs[i].lsn in ByLsn(rs) && ByLsn(rs)[rs[i].lsn] == rs[i]
  {
    var n := |rs| - 1;
    if i < n { ByLsnLast(rs[..n], i); }
  }

  lemma ListedSince(rs: seq<LogRecord>, tid: int)
    requires rs != []
    ensures Ends(rs[|rs|-1], tid) ==> ChangesSince(rs, tid) == []
    ensures !Ends(rs[|rs|-1], tid) ==>
              ChangesSince(rs, tid) ==
              ChangesSince(rs[..|rs|-1], tid) + if ChangeSince(rs, tid, |rs| - 1) then [rs[|rs|-1].lsn] else []
  {
  }

  lemma {:induction false} NoChanges(rs: seq<LogRecord>, tid: int)
    requires tid !in AttOf(rs)
    ensures ChangesSince(rs, tid) == []
  {
    if rs != [] {
      var n := |rs| - 1;
      if !Ends(rs[n], tid) { NoChanges(rs[..n], tid); }
    }
  }

  // ---------- reading in buffers ----------

  /** How many records from `k` on end before the end of a buffer that has `used` bytes taken. */
  function Fit(rs: seq<LogRecord>, k: nat, used: nat): (j: nat)
    requires k <= |rs|
    ensures k <= j <= |rs|
    decreases |rs| - k
  {
    if k == |rs| || used + TotLen(rs[k]) >= LOG_BUFFER_SIZE then k else Fit(rs, k + 1, used + TotLen(rs[k]))
  }

  /** How reading goes: to the end of the log; or round and round without taking a record; or over the end of the buffer
      for the length of a record. */
  datatype Fate = Finishes | Repeats | Overreads

  /** How reading goes from record `k` on, buffer by buffer. */
  function FateFrom(rs: seq<LogRecord>, k: nat): Fate
    requires k <= |rs|
    decreases |rs| - k
  {
    var j := Fit(rs, k, 0);
    if Size(rs[..j]) - Size(rs[..k]) + OFFSET_LOG_TOT_LEN + 4 > LOG_BUFFER_SIZE + 1 then Overreads
    else if j == |rs| then Finishes
    else if j == k then Repeats
    else FateFrom(rs, j)
  }

  predicate Readable(rs: seq<LogRecord>, k: nat)
    requires k <= |rs|
  {
    FateFrom(rs, k) == Finishes
  }

  lemma {:induction false} FitAll(rs: seq<LogRecord>, k: nat, used: nat)
    requires k <= |rs| && used + Size(rs) - Size(rs[..k]) < LOG_BUFFER_SIZE && AllFit(rs)
    ensures Fit(rs, k, used) == |rs|
    decreases |rs| - k
  {
    hide AllFit, EncodeAll, TotLen, Size;
    if k < |rs| {
      RecordAt(rs, k);
      FitAll(rs, k + 1, used + TotLen(rs[k]));
    }
  }

  /** A buffer that starts with record `k` takes the records before `j`: they stay below the size of the buffer, and one
      more would not. */
  predicate BufferTakes(rs: seq<LogRecord>, k: nat, j: nat)
    requires k <= j <= |rs|
  {
    && Size(rs[..j]) - Size(rs[..k]) < LOG_BUFFER_SIZE
    && (j < |rs| ==> Size(rs[..j+1]) - Size(rs[..k]) >= LOG_BUFFER_SIZE)
  }

  lemma {:induction false} FitIs(rs: seq<LogRecord>, k: nat, i: nat, j: nat, used: nat)
    requires AllFit(rs) && k <= i <= j <= |rs| && BufferTakes(rs, k, j) && used == Size(rs[..i]) - Size(rs[..k])
    ensures Fit(rs, i, used) == j
    decreases j - i
  {
    hide AllFit, EncodeAll, TotLen, Size;
    if i < |rs| {
      RecordAt(rs, i);
      if i < j {
        Monotone(rs, i + 1, j);
        FitIs(rs, k, i + 1, j, used + TotLen(rs[i]));
      }
    }
  }

  lemma {:induction false} Monotone(rs: seq<LogRecord>, i: nat, j: nat)
    requires AllFit(rs) && i <= j <= |rs|
    ensures Size(rs[..i]) <= Size(rs[..j])
    decreases j - i
  {
    hide AllFit, EncodeAll, TotLen, Size;
    if i < j {
      RecordAt(rs, i);
      Monotone(rs, i + 1, j);
    }
  }

  /** Reading overreads exactly if the records of a buffer leave less than eleven of its bytes unused. Otherwise it
      finishes if they are the last ones, repeats if there are none, and goes on behind them if there are. */
  lemma FateIs(rs: seq<LogRecord>, k: nat, j: nat)
    requires AllFit(rs) && k <= j <= |rs| && BufferTakes(rs, k, j)
    ensures FateFrom(rs, k) ==
            if Size(rs[..j]) - Size(rs[..k]) + 11 > LOG_BUFFER_SIZE then Overreads
            else if j == |rs| then Finishes else if j == k then Repeats else FateFrom(rs, j)
  {
    FitIs(rs, k, k, j, 0);
  }

  /** A log that leaves some bytes of one buffer unused is readable. */
  lemma ShortLogReadable(rs: seq<LogRecord>)
    requires AllFit(rs) && Size(rs) + OFFSET_LOG_TOT_LEN + 4 <= LOG_BUFFER_SIZE + 1
    ensures Readable(rs, 0)
  {
    assert rs[..0] == [] && rs[..|rs|] == rs;
    FitAll(rs, 0, 0);
  }

  lemma {:induction false} FitStops(rs: seq<LogRecord>, i: nat, k: nat, used: nat)
    requires k <= i < |rs| && TotLen(rs[i]) >= LOG_BUFFER_SIZE
    ensures Fit(rs, k, used) <= i
    decreases |rs| - k
  {
    if k < i && used + TotLen(rs[k]) < LOG_BUFFER_SIZE { FitStops(rs, i, k + 1, used + TotLen(rs[k])); }
  }

  /** A log with a record as long as the buffer is not. */
  lemma {:induction false} LongRecordUnreadable(rs: seq<LogRecord>, i: nat, k: nat)
    requires k <= i < |rs| && TotLen(rs[i]) >= LOG_BUFFER_SIZE
    ensures !Readable(rs, k)
    decreases |rs| - k
  {
    FitStops(rs, i, k, 0);
    var j := Fit(rs, k, 0);
    if k < j { LongRecordUnreadable(rs, i, j); }
  }

  /** Finished with its tables; or going round forever; or reading a length from behind the buffer. */
  datatype Outcome = Done(att: Att, lsn2log: map<int, LogRecord>) | Diverges | PastBuffer

  /** The buffer after a read of `n` log bytes from `pos`: those bytes, then zeros. */
  predicate Filled(buffer: seq<Byte>, log: seq<Byte>, pos: nat, n: nat) {
    && |buffer| == LOG_BUFFER_SIZE + 1 && n <= LOG_BUFFER_SIZE && pos + n <= |log|
    && (forall i :: 0 <= i < n ==> buffer[i] == log[pos + i])
    && (forall i :: n <= i < |buffer| ==> buffer[i] == 0)
  }

  method ReadLog(log: seq<Byte>, pos: nat) returns (n: nat, buffer: seq<Byte>)
    requires pos <= |log|
    ensures n == if |log| - pos < LOG_BUFFER_SIZE then |log| - pos else LOG_BUFFER_SIZE
    ensures Filled(buffer, log, pos, n)
  {
    n := if |log| - pos < LOG_BUFFER_SIZE then |log| - pos else LOG_BUFFER_SIZE;
    buffer := log[pos..pos + n] + seq(LOG_BUFFER_SIZE + 1 - n, _ => 0);
  }

  lemma LowBytes(len: nat)
    requires len < 0x100_0000
    ensures Bytes(len, 4)[3] == 0
  {
    assert Bytes(len, 4)[1..] == Bytes(len / 256, 3);
    assert Bytes(len / 256, 3)[1..] == Bytes(len / 256 / 256, 2);
    assert Bytes(len / 256 / 256, 2)[1..] == Bytes(len / 256 / 256 / 256, 1);
  }

  /** A length field that starts in the buffer is read right, even when its last byte is the one behind it. */
  lemma FieldRead(buffer: seq<Byte>, log: seq<Byte>, pos: nat, n: nat, o: nat, len: nat)
    requires Filled(buffer, log, pos, n) && len < 0x100_0000
    requires pos + o + 12 <= |log| && log[pos + o + 8..pos + o + 12] == Bytes(len, 4)
    requires o + 12 <= LOG_BUFFER_SIZE + 1 && (n == LOG_BUFFER_SIZE || o + 12 <= n)
    ensures Number(buffer[o + 8..o + 12]) == len
  {
    LowBytes(len);
    var field, bytes := buffer[o + 8..o + 12], Bytes(len, 4);
    forall i | 0 <= i < 4 ensures field[i] == bytes[i] {
      assert bytes[i] == log[pos + o + 8..pos + o + 12][i] == log[pos + (o + 8 + i)];
      assert field[i] == buffer[o + 8 + i];
    }
    assert field == bytes;
    FourBytes();
    NumberBytes(len, 4);
  }

  /** Behind the last record a length of zero is read. */
  lemma ZeroRead(buffer: seq<Byte>, log: seq<Byte>, pos: nat, n: nat, o: nat)
    requires Filled(buffer, log, pos, n) && n <= o && o + 12 <= LOG_BUFFER_SIZE + 1
    ensures Number(buffer[o + 8..o + 12]) == 0
  {
    var field := buffer[o + 8..o + 12];
    assert forall i :: 0 <= i < 4 ==> field[i] == buffer[o + 8 + i] == 0;
    ZeroNumber(field);
  }

  lemma {:induction false} ZeroNumber(b: seq<Byte>)
    requires forall i :: 0 <= i < |b| ==> b[i] == 0
    ensures Number(b) == 0
  {
    if b != [] { ZeroNumber(b[1..]); }
  }

  predicate Loggable(rs: seq<LogRecord>) {
    AllFit(rs) && forall i :: 0 <= i < |rs| ==> TotLen(rs[i]) <= LOG_BUFFER_SIZE + 1
  }

  lemma RecordField(rs: seq<LogRecord>, log: seq<Byte>, j: nat)
    requires Loggable(rs) && log == EncodeAll(rs) && j < |rs|
    ensures var p := Size(rs[..j]); p + TotLen(rs[j]) <= |log| && log[p + 8..p + 12] == Bytes(TotLen(rs[j]), 4)
  {
    hide Encode, EncodeAll, Fits, Bytes, Size, TotLen;
    var p := Size(rs[..j]);
    RecordAt(rs, j);
    LenField(log[p..], rs[j]);
    assert log[p..][8..12] == log[p + 8..p + 12];
  }

  /** What the length field at the current place reads as. */
  lemma NextLength(rs: seq<LogRecord>, log: seq<Byte>, buffer: seq<Byte>, pos: nat, n: nat, j: nat, o: nat)
    requires Loggable(rs) && log == EncodeAll(rs) && j <= |rs| && pos <= |log| && pos + o == Size(rs[..j])
    requires Filled(buffer, log, pos, n) && n == if |log| - pos < LOG_BUFFER_SIZE then |log| - pos else LOG_BUFFER_SIZE
    requires o + 12 <= LOG_BUFFER_SIZE + 1
    ensures |buffer| == LOG_BUFFER_SIZE + 1 && Number(buffer[o + 8..o + 12]) == if j == |rs| then 0 else TotLen(rs[j])
  {
    hide EncodeAll, Size, Number, Fits, Bytes;
    if j == |rs| {
      assert rs[..j] == rs;
      ZeroRead(buffer, log, pos, n, o);
    } else {
      RecordField(rs, log, j);
      assert o + 12 <= n || n == LOG_BUFFER_SIZE;
      FieldRead(buffer, log, pos, n, o, TotLen(rs[j]));
    }
  }

  /** A record that ends within the buffer can be read from it. */
  lemma NextRecord(rs: seq<LogRecord>, log: seq<Byte>, buffer: seq<Byte>, pos: nat, n: nat, j: nat, o: nat)
    requires Loggable(rs) && log == EncodeAll(rs) && j < |rs| && pos + o == Size(rs[..j])
    requires Filled(buffer, log, pos, n) && o + TotLen(rs[j]) <= n
    ensures |buffer| == LOG_BUFFER_SIZE + 1 && Encode(rs[j]) <= buffer[o..]
  {
    hide Encode, EncodeAll, Fits;
    RecordAt(rs, j);
    var e := Encode(rs[j]);
    forall i | 0 <= i < |e| ensures buffer[o..][i] == e[i] {
      assert e[i] == log[pos + o..][i] == log[pos + (o + i)];
    }
  }

  lemma EncodeLength(rs: seq<LogRecord>, k: nat)
    requires AllFit(rs) && k <= |rs|
    ensures Size(rs[..k]) <= Size(rs) == |EncodeAll(rs)|
  {
    if k < |rs| { RecordAt(rs, k); } else { assert rs[..k] == rs; }
  }

  lemma PrefixStep(rs: seq<LogRecord>, j: nat)
    requires AllFit(rs) && j < |rs|
    ensures AttOf(rs[..j+1]) == Enter(AttOf(rs[..j]), rs[j]) && ByLsn(rs[..j+1]) == ByLsn(rs[..j])[rs[j].lsn := rs[j]]
    ensures Size(rs[..j+1]) == Size(rs[..j]) + TotLen(rs[j]) <= Size(rs) == |EncodeAll(rs)|
  {
    hide Enter, EncodeAll, Encode, Fits, TotLen;
    RecordAt(rs, j);
    var p := rs[..j+1];
    assert p[..|p|-1] == rs[..j] && p[|p|-1] == rs[j];
  }

  /** Reads the log and collects the unfinished transactions and the records by number. Finishes exactly for
      readable logs, and then has read every record once and in order. */
  method Analyze(log: seq<Byte>, ghost rs: seq<LogRecord>) returns (out: Outcome)
    requires Loggable(rs) && log == EncodeAll(rs)
    ensures out.Done? <==> FateFrom(rs, 0) == Finishes
    ensures out.Diverges? <==> FateFrom(rs, 0) == Repeats
    ensures out.PastBuffer? <==> FateFrom(rs, 0) == Overreads
    ensures out.Done? ==> out.att == AttOf(rs) && out.lsn2log == ByLsn(rs)
  {
    hide Encode, EncodeAll, Fits, Filled, Enter, Number, AttOf, ByLsn, Size, TotLen;
    var logOffset, att, lsn2log := 0, map[], map[];
    ghost var k := 0;
    assert rs[..0] == [] && Size([]) == 0 && AttOf([]) == map[] && ByLsn([]) == map[] by { NoRecords(); }
    while true
      invariant k <= |rs| && logOffset == Size(rs[..k]) && att == AttOf(rs[..k]) && lsn2log == ByLsn(rs[..k])
      invariant FateFrom(rs, 0) == FateFrom(rs, k)
      decreases |rs| - k
    {
      EncodeLength(rs, k);
      var logBytes, buffer := ReadLog(log, logOffset);
      var offset := 0;
      ghost var j := k;
      while true
        invariant k <= j <= |rs| && logOffset == Size(rs[..j]) <= |log| && att == AttOf(rs[..j])
                  && lsn2log == ByLsn(rs[..j])
        invariant 0 <= offset == logOffset - Size(rs[..k]) < LOG_BUFFER_SIZE && (offset == 0 ==> j == k)
        invariant Fit(rs, j, offset) == Fit(rs, k, 0)
        decreases |rs| - j
      {
        if offset + OFFSET_LOG_TOT_LEN + 4 > LOG_BUFFER_SIZE + 1 { return PastBuffer; }
        NextLength(rs, log, buffer, Size(rs[..k]), logBytes, j, offset);
        var len := Number(buffer[offset + OFFSET_LOG_TOT_LEN..offset + OFFSET_LOG_TOT_LEN + 4]);
        if offset + len >= LOG_BUFFER_SIZE || len == 0 { break; }
        PrefixStep(rs, j);
        NextRecord(rs, log, buffer, Size(rs[..k]), logBytes, j, offset);
        var r := Deserialize(buffer[offset..], rs[j]);
        offset := offset + TotLen(r);
        logOffset := logOffset + TotLen(r);
        att := Enter(att, r);
        lsn2log := lsn2log[r.lsn := r];
        j := j + 1;
      }
      if j < |rs| { PrefixStep(rs, j); } else { assert rs[..j] == rs; }
      if logBytes < LOG_BUFFER_SIZE { return Done(att, lsn2log); }
      // Nothing was taken from a full buffer: the next round starts in the same state.
      if offset == 0 { return Diverges; }
      k := j;
    }
  }

  lemma NoRecords()
    ensures Size([]) == 0 && AttOf([]) == map[] && ByLsn([]) == map[]
  {
  }
}
