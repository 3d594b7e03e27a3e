/** Pins over whole runs: a page is pinned as often as it was taken and not yet given back. */
module BufferPoolPins {
  import opened Wrappers
  import opened LruReplacer
  import opened BufferPool
  import opened BufferPoolRuns

  /** The pins of a page; a page that is not in the pool has none. */
  function PinsOf(p: Pool, id: PageId): nat
    requires InRange(p)
  {
    if id in p.table then p.frames[p.table[id]].pin else 0
  }

  /** The operation has given the page to its caller. */
  predicate Took(s: State, op: Op, id: PageId)
    requires Sized(s)
  {
    match op
    case FetchPage(q) => q == id && Fetch(s.pool, q).0.Some?
    case NewPage(fd) => New(s.pool, fd).0.Some? && New(s.pool, fd).0.value.1 == id
    case _ => false
  }

  /** The operation has taken the page back from its caller. */
  predicate Gave(s: State, op: Op, id: PageId)
    requires Sized(s)
  {
    op.Release? && op.id == id && Unpin(s.pool, id, op.dirty).0
  }

  /** How often the page was taken in a run. */
  function Takes(s: State, ops: seq<Op>, id: PageId): nat
    requires Sized(s) && LegalRun(s, ops)
    decreases |ops|
  {
    if ops == [] then 0 else (if Took(s, ops[0], id) then 1 else 0) + Takes(Step(s, ops[0]), ops[1..], id)
  }

  /** How often the page was given back in a run. */
  function Gives(s: State, ops: seq<Op>, id: PageId): nat
    requires Sized(s) && LegalRun(s, ops)
    decreases |ops|
  {
    if ops == [] then 0 else (if Gave(s, ops[0], id) then 1 else 0) + Gives(Step(s, ops[0]), ops[1..], id)
  }

  // ---------- one operation ----------

  lemma HitPins(p: Pool, q: PageId, id: PageId)
    requires PoolOk(p) && InRange(p) && q in p.table
    ensures InRange(Fetch(p, q).1) && Fetch(p, q).0.Some?
    ensures PinsOf(Fetch(p, q).1, id) == PinsOf(p, id) + if id == q then 1 else 0
  {
    HitKeeps(p, q);
    OkInRange(Fetch(p, q).1);
  }

  lemma ReusePins(p: Pool, f: nat, q: PageId, data: Content, p': Pool, id: PageId)
    requires Taken(p, f) && InRange(p) && q !in p.table && ReusedIs(p, f, q, data, p') && InRange(p')
    ensures PinsOf(p', id) == PinsOf(p, id) + if id == q then 1 else 0
  {
  }

  lemma FetchPins(p: Pool, q: PageId, id: PageId)
    requires PoolOk(p) && InRange(p) && FetchSafe(p, q) && Allocated(p.next, q)
    ensures InRange(Fetch(p, q).1)
    ensures PinsOf(Fetch(p, q).1, id) == PinsOf(p, id) + if id == q && Fetch(p, q).0.Some? then 1 else 0
  {
    hide TableOk, HeldOk, LruOk, AllocOk, FreeOk, Taken, Reused, ReusedIs;
    FetchKeeps(p, q);
    OkInRange(Fetch(p, q).1);
    if q in p.table {
      HitPins(p, q, id);
    } else {
      VictimTaken(p);
      var (v, p1) := FindVictim(p);
      if v.Some? {
        TakenInRange(p1, v.value);
        var data := Read(WriteBack(p1, v.value).disk, q);
        FetchIsReuse(p, q);
        ReusedFields(p1, v.value, q, data);
        VictimInRange(p);
        ReusePins(p1, v.value, q, data, Fetch(p, q).1, id);
      }
    }
  }

  lemma VictimInRange(p: Pool)
    requires InRange(p)
    ensures InRange(FindVictim(p).1)
  {
  }

  lemma NewPins(p: Pool, fd: int, id: PageId)
    requires PoolOk(p) && InRange(p)
    ensures InRange(New(p, fd).1)
    ensures PinsOf(New(p, fd).1, id) ==
            PinsOf(p, id) + if New(p, fd).0.Some? && New(p, fd).0.value.1 == id then 1 else 0
  {
    hide TableOk, HeldOk, LruOk, AllocOk, FreeOk, Taken, Reused, ReusedIs, New, InRange, FindVictim, PinsOf;
    NewInRange(p, fd);
    var (v, p1) := FindVictim(p);
    if v == None {
      NewFails(p, fd);
    } else {
      var q := PageId(fd, NextNo(p.next, fd));
      var p2 := p1.(next := p.next[fd := q.pageNo + 1]);
      NewIsReuse(p, fd);
      NotYetKnown(p, q);
      VictimTaken(p);
      CounterUp(p1, v.value, fd);
      TakenInRange(p2, v.value);
      ReusedFields(p2, v.value, q, ZeroPage());
      VictimInRange(p);
      SamePins(p, p2, id);
      ReusePins(p2, v.value, q, ZeroPage(), New(p, fd).1, id);
    }
  }

  lemma SamePins(p: Pool, p': Pool, id: PageId)
    requires InRange(p) && p'.table == p.table && p'.frames == p.frames && p'.free == FindVictim(p).1.free
             && p'.lru == FindVictim(p).1.lru
    ensures InRange(p') && PinsOf(p', id) == PinsOf(p, id)
  {
  }

  lemma UnpinPins(p: Pool, q: PageId, dirty: bool, id: PageId)
    requires PoolOk(p) && InRange(p) && InRange(Unpin(p, q, dirty).1)
    ensures PinsOf(Unpin(p, q, dirty).1, id) == PinsOf(p, id) - if id == q && Unpin(p, q, dirty).0 then 1 else 0
  {
  }

  lemma OtherPins(p: Pool, q: PageId, id: PageId)
    requires PoolOk(p) && InRange(p) && InRange(Flush(p, q).1) && InRange(Delete(p, q).1)
    ensures PinsOf(Flush(p, q).1, id) == PinsOf(p, id) == PinsOf(Delete(p, q).1, id)
  {
  }

  /** A fetch or a new page that succeeds adds one pin to its page, a release that succeeds takes one off, and nothing
      else changes the pins of any page. */
  lemma StepPins(s: State, op: Op, model: map<PageId, Content>, id: PageId)
    requires Good(s, model) && Legal(s, op)
    ensures Sized(Step(s, op))
    ensures PinsOf(Step(s, op).pool, id) ==
            PinsOf(s.pool, id) + (if Took(s, op, id) then 1 else 0) - (if Gave(s, op, id) then 1 else 0)
  {
    hide PoolOk, WritersOk, Fetch, New, Unpin, Flush, Delete, InRange, FetchSafe, Serves, PinsOf;
    var p := s.pool;
    StepServes(s, op, model);
    ServesSized(p, s.writers, model);
    match op {
      case FetchPage(q) => FetchPins(p, q, id);
      case NewPage(fd) => NewPins(p, fd, id);
      case StartWrite(q) =>
      case Write(q, data) => WritePins(p, q, data, id);
      case Release(q, dirty, wrote) => UnpinPins(p, q, dirty, id);
      case FlushPage(q) =>
        DeleteKeeps(p, q);
        OkInRange(Delete(p, q).1);
        OtherPins(p, q, id);
      case DeletePage(q) =>
        FlushKeeps(p, q);
        OkInRange(Flush(p, q).1);
        OtherPins(p, q, id);
    }
  }

  lemma WritePins(p: Pool, q: PageId, data: Content, id: PageId)
    requires InRange(p) && q in p.table
    ensures var p' := p.(frames := p.frames[p.table[q] := p.frames[p.table[q]].(data := data)]);
            InRange(p') && PinsOf(p', id) == PinsOf(p, id)
  {
  }

  // ---------- runs ----------

  lemma {:induction false} RunPins(s: State, ops: seq<Op>, model: map<PageId, Content>, id: PageId)
    requires Good(s, model) && LegalRun(s, ops)
    ensures Sized(Run(s, ops))
    ensures PinsOf(Run(s, ops).pool, id) + Gives(s, ops, id) == PinsOf(s.pool, id) + Takes(s, ops, id)
    decreases |ops|
  {
    hide Serves, Step, Legal, PinsOf, Took, Gave;
    if ops != [] {
      StepServes(s, ops[0], model);
      StepPins(s, ops[0], model, id);
      RunPins(Step(s, ops[0]), ops[1..], Written(model, ops[0]), id);
    }
  }

  /** In every legal run from an empty pool a page has as many pins as it was taken, by fetches and as a new page, less
      as often as it was given back. */
  lemma PinsAreBalance(n: nat, disk: map<PageId, Content>, next: map<int, int>, ops: seq<Op>, id: PageId)
    requires (forall q :: q in disk ==> Allocated(next, q)) && NextNo(next, -1) >= 0
    requires LegalRun(Init(n, disk, next), ops)
    ensures var s0 := Init(n, disk, next);
            Sized(Run(s0, ops)) && PinsOf(Run(s0, ops).pool, id) == Takes(s0, ops, id) - Gives(s0, ops, id)
  {
    InitGood(n, disk, next);
    RunPins(Init(n, disk, next), ops, disk, id);
  }

  lemma NonePinned(p: Pool)
    requires PoolOk(p) && InRange(p) && forall id :: PinsOf(p, id) == 0
    ensures forall f :: 0 <= f < |p.frames| ==> p.frames[f].pin == 0
  {
    forall f | 0 <= f < |p.frames| ensures p.frames[f].pin == 0 {
      if f !in p.free { assert PinsOf(p, p.frames[f].id) == 0; }
    }
  }

  lemma {:induction false} FramesStay(s: State, ops: seq<Op>, model: map<PageId, Content>)
    requires Good(s, model) && LegalRun(s, ops)
    ensures |Run(s, ops).pool.frames| == |s.pool.frames|
    decreases |ops|
  {
    hide Serves, Legal;
    if ops != [] {
      StepServes(s, ops[0], model);
      FramesStay(Step(s, ops[0]), ops[1..], Written(model, ops[0]));
    }
  }

  /** Once every page has been given back as often as it was taken, no frame is pinned, and with at least one frame no
      fetch and no new page fails. */
  lemma AllGivenBack(n: nat, disk: map<PageId, Content>, next: map<int, int>, ops: seq<Op>)
    requires (forall q :: q in disk ==> Allocated(next, q)) && NextNo(next, -1) >= 0
    requires LegalRun(Init(n, disk, next), ops)
    requires forall id :: Takes(Init(n, disk, next), ops, id) == Gives(Init(n, disk, next), ops, id)
    ensures Sized(Run(Init(n, disk, next), ops))
    ensures var p := Run(Init(n, disk, next), ops).pool;
            && |p.frames| == n && (forall f :: 0 <= f < n ==> p.frames[f].pin == 0)
            && (0 < n ==> forall id :: Fetch(p, id).0.Some?) && (0 < n ==> forall fd :: New(p, fd).0.Some?)
  {
    hide Serves, PinsOf, Fetch, New;
    var s0 := Init(n, disk, next);
    InitGood(n, disk, next);
    RunServes(s0, ops, disk);
    FramesStay(s0, ops, disk);
    var s := Run(s0, ops);
    ServesSized(s.pool, s.writers, AfterWrites(disk, ops));
    forall id ensures PinsOf(s.pool, id) == 0 { PinsAreBalance(n, disk, next, ops, id); }
    NonePinned(s.pool);
    if 0 < n {
      assert s.pool.frames[0].pin == 0;
      forall id ensures Fetch(s.pool, id).0.Some? { FetchSucceeds(s.pool, id); }
      forall fd ensures New(s.pool, fd).0.Some? { NewSucceeds(s.pool, fd); }
    }
  }

  lemma FetchSucceeds(p: Pool, id: PageId)
    requires PoolOk(p) && InRange(p)
    ensures Fetch(p, id).0.Some? <==> id in p.table || exists f :: 0 <= f < |p.frames| && p.frames[f].pin == 0
    ensures Fetch(p, id).0 == None ==> Fetch(p, id).1 == p
  {
    VictimTaken(p);
  }

  lemma NewSucceeds(p: Pool, fd: int)
    requires PoolOk(p) && InRange(p)
    ensures New(p, fd).0.Some? <==> exists f :: 0 <= f < |p.frames| && p.frames[f].pin == 0
    ensures New(p, fd).0 == None ==> New(p, fd).1 == p
  {
    VictimTaken(p);
  }

  // ---------- page numbers ----------

  /** How many new pages of a file a run has made. */
  function NewPages(s: State, ops: seq<Op>, fd: int): nat
    requires Sized(s) && LegalRun(s, ops)
    decreases |ops|
  {
    if ops == [] then 0
    else (if ops[0] == NewPage(fd) && New(s.pool, fd).0.Some? then 1 else 0) + NewPages(Step(s, ops[0]), ops[1..], fd)
  }

  lemma StepNumbers(s: State, op: Op, fd: int)
    requires Sized(s) && Legal(s, op)
    ensures NextNo(Step(s, op).pool.next, fd) ==
            NextNo(s.pool.next, fd) + if op == NewPage(fd) && New(s.pool, fd).0.Some? then 1 else 0
    ensures op == NewPage(fd) && New(s.pool, fd).0.Some? ==>
              New(s.pool, fd).0.value.1 == PageId(fd, NextNo(s.pool.next, fd))
  {
    hide New, Fetch, Unpin, Flush, Delete;
    var p := s.pool;
    if op.NewPage? {
      NewNumbers(p, op.fd, fd);
    } else if op.FetchPage? {
      FetchNext(p, op.id);
    } else if op.Release? {
      UnpinNext(p, op.id, op.dirty);
    } else if op.FlushPage? || op.DeletePage? {
      FlushNext(p, op.id);
    }
  }

  lemma NewNumbers(p: Pool, fd: int, fd': int)
    requires InRange(p)
    ensures NextNo(New(p, fd).1.next, fd') == NextNo(p.next, fd') + if fd == fd' && New(p, fd).0.Some? then 1 else 0
    ensures New(p, fd).0.Some? ==> New(p, fd).0.value.1 == PageId(fd, NextNo(p.next, fd))
  {
  }

  lemma FetchNext(p: Pool, id: PageId)
    requires InRange(p)
    ensures Fetch(p, id).1.next == p.next
  {
  }

  lemma UnpinNext(p: Pool, id: PageId, dirty: bool)
    requires InRange(p)
    ensures Unpin(p, id, dirty).1.next == p.next
  {
  }

  lemma FlushNext(p: Pool, id: PageId)
    requires InRange(p)
    ensures Flush(p, id).1.next == p.next == Delete(p, id).1.next
  {
  }

  /** The pages of a file are numbered without gaps: after a run the next new page has the number of the first one
      plus the number of pages made since. */
  lemma {:induction false} NumbersWithoutGaps(s: State, ops: seq<Op>, model: map<PageId, Content>, fd: int)
    requires Good(s, model) && LegalRun(s, ops)
    ensures Sized(Run(s, ops)) && NextNo(Run(s, ops).pool.next, fd) == NextNo(s.pool.next, fd) + NewPages(s, ops, fd)
    ensures New(Run(s, ops).pool, fd).0.Some? ==>
              New(Run(s, ops).pool, fd).0.value.1 == PageId(fd, NextNo(s.pool.next, fd) + NewPages(s, ops, fd))
    decreases |ops|
  {
    hide Serves, Step, Legal;
    if ops == [] {
      assert Legal(s, NewPage(fd)) by { LegalNew(s, fd); }
      StepNumbers(s, NewPage(fd), fd);
    } else {
      StepServes(s, ops[0], model);
      StepNumbers(s, ops[0], fd);
      NumbersWithoutGaps(Step(s, ops[0]), ops[1..], Written(model, ops[0]), fd);
    }
  }

  lemma LegalNew(s: State, fd: int)
    requires Sized(s)
    ensures Legal(s, NewPage(fd))
  {
  }
}
