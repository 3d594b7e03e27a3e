/** Appending records to the log. */
module LogManagement {
  import opened Config
  import opened Values
  import opened Memory
  import opened LogCodec

  predicate AllFit(rs: seq<LogRecord>) {
    forall i :: 0 <= i < |rs| ==> Fits(rs[i])
  }

  /** The bytes of a sequence of records. */
  function EncodeAll(rs: seq<LogRecord>): (b: seq<Byte>)
    requires AllFit(rs)
    ensures |b| == Size(rs)
  {
    if rs == [] then [] else EncodeAll(rs[..|rs|-1]) + Encode(rs[|rs|-1])
  }

  /** The number of bytes of a sequence of records. */
  function Size(rs: seq<LogRecord>): nat {
    if rs == [] then 0 else Size(rs[..|rs|-1]) + TotLen(rs[|rs|-1])
  }

  lemma EncodeSnoc(rs: seq<LogRecord>, r: LogRecord)
    requires AllFit(rs) && Fits(r)
    ensures AllFit(rs + [r]) && EncodeAll(rs + [r]) == EncodeAll(rs) + Encode(r)
  {
    assert (rs + [r])[..|rs|] == rs;
  }

  /** The record at index `k` starts at the sum of the lengths of those before it. */
  lemma {:induction false} RecordAt(rs: seq<LogRecord>, k: nat)
    requires AllFit(rs) && k < |rs|
    ensures Size(rs[..k]) + TotLen(rs[k]) == Size(rs[..k+1]) <= Size(rs)
    ensures Encode(rs[k]) <= EncodeAll(rs)[Size(rs[..k])..]
  {
    hide Encode, Fits;
    assert rs[..k+1][..k] == rs[..k];
    var n := |rs| - 1;
    if k == n {
      assert rs[..n+1] == rs;
    } else {
      RecordAt(rs[..n], k);
      assert rs[..n][..k] == rs[..k] && rs[..n][..k+1] == rs[..k+1];
      Extended(EncodeAll(rs[..n]), Encode(rs[n]), Size(rs[..k]), Encode(rs[k]));
    }
  }

  lemma Extended(a: seq<Byte>, b: seq<Byte>, o: nat, c: seq<Byte>)
    requires o <= |a| && c <= a[o..]
    ensures c <= (a + b)[o..]
  {
    assert (a + b)[o..] == a[o..] + b;
  }

  class LogBuffer {
    const buffer: array<Byte>
    var offset: nat

    constructor ()
      ensures offset == 0 && fresh(buffer) && buffer.Length == LOG_BUFFER_SIZE + 1
    {
      buffer := new Byte[LOG_BUFFER_SIZE + 1];
      offset := 0;
    }

    predicate IsFull(appendSize: nat)
      reads this
    {
      offset + appendSize > LOG_BUFFER_SIZE
    }
  }

  class LogManager {
    const logBuffer: LogBuffer
    var globalLsn: int
    var persistLsn: int
    var logFile: seq<Byte>

    ghost var records: seq<LogRecord>

    /** The log file is the bytes of the records, which have consecutive numbers; nothing waits in the buffer. */
    ghost predicate Valid()
      reads this, logBuffer
    {
      && logBuffer.buffer.Length == LOG_BUFFER_SIZE + 1 && logBuffer.offset == 0
      && AllFit(records) && logFile == EncodeAll(records)
      && |records| <= globalLsn && (forall i :: 0 <= i < |records| ==> records[i].lsn == globalLsn - |records| + i)
    }

    constructor ()
      ensures Valid() && records == [] && globalLsn == 0 && fresh(logBuffer) && fresh(logBuffer.buffer)
    {
      logBuffer := new LogBuffer();
      globalLsn, persistLsn, logFile, records := 0, -1, [], [];
    }

    method WriteLog(bytes: seq<Byte>)
      modifies this`logFile
      ensures logFile == old(logFile) + bytes
    {
      logFile := logFile + bytes;
    }

    /** Gives the record the next number and appends its bytes to the log. */
    method AddLogToBuffer(r: LogRecord) returns (lsn: int)
      requires Valid() && Fits(r) && Int32(globalLsn) && TotLen(r) <= LOG_BUFFER_SIZE + 1
      modifies this, logBuffer, logBuffer.buffer
      ensures Valid() && lsn == old(globalLsn) && globalLsn == lsn + 1 && persistLsn == lsn
      ensures records == old(records) + [r.(lsn := lsn)]
      ensures logFile == old(logFile) + Encode(r.(lsn := lsn))
    {
      hide Encode, EncodeAll;
      if logBuffer.IsFull(TotLen(r)) {
        WriteLog(logBuffer.buffer[..logBuffer.offset]);
        logBuffer.offset := 0;
        persistLsn := globalLsn - 1;
        assert logFile == old(logFile);
      }
      lsn := globalLsn;
      var numbered := r.(lsn := lsn);
      globalLsn := globalLsn + 1;
      var data := new Byte[TotLen(r)];
      Serialize(numbered, data);
      CopyTo(logBuffer.buffer, logBuffer.offset, data[..]);
      logBuffer.offset := logBuffer.offset + TotLen(r);
      assert logBuffer.buffer[..logBuffer.offset] == Encode(numbered);
      WriteLog(logBuffer.buffer[..logBuffer.offset]);
      logBuffer.offset := 0;
      persistLsn := globalLsn - 1;
      EncodeSnoc(records, numbered);
      records := records + [numbered];
    }
  }
}
