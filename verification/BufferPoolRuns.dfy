/** Whole runs of clients over a buffer pool: every page reads as last written, whatever is evicted. */
module BufferPoolRuns {
  import opened Wrappers
  import opened Values
  import opened LruReplacer
  import opened BufferPool

  /** What a client does. It announces a write before it writes, and releases with `wrote` set once
      it has; `dirty` is the flag it passes to the pool. */
  datatype Op =
    | FetchPage(id: PageId) | NewPage(fd: int)
    | StartWrite(id: PageId) | Write(id: PageId, data: Content) | Release(id: PageId, dirty: bool, wrote: bool)
    | FlushPage(id: PageId) | DeletePage(id: PageId)

  /** The pool, and how many of the pins of each frame are writers. */
  datatype State = State(pool: Pool, writers: seq<nat>)

  predicate Sized(s: State) { InRange(s.pool) && |s.writers| == |s.pool.frames| }

  /** The rules for clients: only allocated pages are fetched, a page is written by one who has it pinned and
      announced the write, and released as dirty by one who wrote it. The last rule is about the pool: no free
      frame but the next one to be used may remember a page that is fetched. */
  predicate Legal(s: State, op: Op)
    requires Sized(s)
  {
    var p := s.pool;
    match op
    case FetchPage(id) => Allocated(p.next, id) && FetchSafe(p, id)
    case StartWrite(id) => id in p.table && s.writers[p.table[id]] < p.frames[p.table[id]].pin
    case Write(id, data) => id in p.table && 0 < s.writers[p.table[id]]
    case Release(id, dirty, wrote) =>
      id in p.table && 0 < p.frames[p.table[id]].pin ==>
        if wrote then dirty && 0 < s.writers[p.table[id]] else s.writers[p.table[id]] < p.frames[p.table[id]].pin
    case _ => true
  }

  function Step(s: State, op: Op): State
    requires Sized(s) && Legal(s, op)
  {
    var (p, w) := (s.pool, s.writers);
    match op
    case FetchPage(id) => State(Fetch(p, id).1, w)
    case NewPage(fd) => State(New(p, fd).1, w)
    case StartWrite(id) => State(p, w[p.table[id] := w[p.table[id]] + 1])
    case Write(id, data) => var f := p.table[id]; State(p.(frames := p.frames[f := p.frames[f].(data := data)]), w)
    case Release(id, dirty, wrote) =>
      var (ok, p') := Unpin(p, id, dirty);
      State(p', if ok && wrote then w[p.table[id] := w[p.table[id]] - 1] else w)
    case FlushPage(id) => State(Flush(p, id).1, w)
    case DeletePage(id) => State(Delete(p, id).1, w)
  }

  /** What the pages hold after an operation: only writes count. */
  function Written(model: map<PageId, Content>, op: Op): map<PageId, Content> {
    if op.Write? then model[op.id := op.data] else model
  }

  ghost predicate Good(s: State, model: map<PageId, Content>) {
    Sized(s) && Serves(s.pool, s.writers, model)
  }

  lemma ServesSized(p: Pool, w: seq<nat>, model: map<PageId, Content>)
    requires Serves(p, w, model)
    ensures |w| == |p.frames| && InRange(p) && PoolOk(p)
  {
  }

  lemma StartWriteServes(p: Pool, w: seq<nat>, model: map<PageId, Content>, f: nat)
    requires Serves(p, w, model) && f < |w| && w[f] < p.frames[f].pin
    ensures Serves(p, w[f := w[f] + 1], model)
  {
  }

  /** Every legal operation keeps the pool in order and changes no page except by writing it. */
  lemma StepServes(s: State, op: Op, model: map<PageId, Content>)
    requires Good(s, model) && Legal(s, op)
    ensures Good(Step(s, op), Written(model, op))
  {
    hide Serves, Fetch, New, Unpin, Flush, Delete, FetchSafe;
    var (p, w) := (s.pool, s.writers);
    match op {
      case FetchPage(id) => FetchServes(p, w, model, id);
      case NewPage(fd) => NewServes(p, w, model, fd);
      case StartWrite(id) => StartWriteServes(p, w, model, p.table[id]);
      case Write(id, data) =>
        ServesSized(p, w, model);
        InTable(p, id);
        WriteServes(p, w, model, p.table[id], data);
      case Release(id, dirty, wrote) =>
        assert Unpin(p, id, dirty).0 <==> id in p.table && 0 < p.frames[p.table[id]].pin by { UnpinOk(p, id, dirty); }
        if Unpin(p, id, dirty).0 {
          UnpinServes(p, w, model, id, dirty, wrote);
        } else {
          UnpinOk(p, id, dirty);
        }
      case FlushPage(id) => FlushServes(p, w, model, id);
      case DeletePage(id) => DeleteServes(p, w, model, id);
    }
    ServesSized(Step(s, op).pool, Step(s, op).writers, Written(model, op));
  }

  lemma UnpinOk(p: Pool, id: PageId, dirty: bool)
    requires InRange(p)
    ensures Unpin(p, id, dirty).0 <==> id in p.table && 0 < p.frames[p.table[id]].pin
    ensures !Unpin(p, id, dirty).0 ==> Unpin(p, id, dirty).1 == p
  {
  }

  // ---------- runs ----------

  predicate LegalRun(s: State, ops: seq<Op>)
    requires Sized(s)
    decreases |ops|
  {
    ops == [] || (Legal(s, ops[0]) && Sized(Step(s, ops[0])) && LegalRun(Step(s, ops[0]), ops[1..]))
  }

  function Run(s: State, ops: seq<Op>): State
    requires Sized(s) && LegalRun(s, ops)
    decreases |ops|
  {
    if ops == [] then s else Run(Step(s, ops[0]), ops[1..])
  }

  /** The bytes last written to each page, told from the operations alone. */
  function AfterWrites(model: map<PageId, Content>, ops: seq<Op>): map<PageId, Content>
    decreases |ops|
  {
    if ops == [] then model else AfterWrites(Written(model, ops[0]), ops[1..])
  }

  lemma {:induction false} RunServes(s: State, ops: seq<Op>, model: map<PageId, Content>)
    requires Good(s, model) && LegalRun(s, ops)
    ensures Sized(Run(s, ops)) && Good(Run(s, ops), AfterWrites(model, ops))
    decreases |ops|
  {
    hide Serves, Step, Legal;
    if ops != [] {
      StepServes(s, ops[0], model);
      RunServes(Step(s, ops[0]), ops[1..], Written(model, ops[0]));
    }
  }

  const NOWHERE := PageId(-1, -1)

  /** A pool of `n` frames over a disk: all frames free, none holding a page. */
  function Init(n: nat, disk: map<PageId, Content>, next: map<int, int>): State {
    State(Pool(map[], seq(n, _ => Frame(NOWHERE, ZeroPage(), false, 0)), seq(n, i => i), [], disk, next),
          seq(n, _ => 0))
  }

  lemma InitGood(n: nat, disk: map<PageId, Content>, next: map<int, int>)
    requires (forall q :: q in disk ==> Allocated(next, q)) && NextNo(next, -1) >= 0
    ensures Good(Init(n, disk, next), disk)
  {
    var p := Init(n, disk, next).pool;
    forall f | 0 <= f < n ensures f in p.free { assert p.free[f] == f; }
    assert TableOk(p) && FreeOk(p) && HeldOk(p) && LruOk(p) && AllocOk(p);
  }

  /** In every legal run from an empty pool a page that is fetched has the bytes last written to it, or
      those the disk had at the start, whatever has been evicted, flushed or deleted in between; a new
      page has a number never used before and zero bytes. */
  lemma FetchSeesLastWrite(n: nat, disk: map<PageId, Content>, next: map<int, int>, ops: seq<Op>, id: PageId)
    requires (forall q :: q in disk ==> Allocated(next, q)) && NextNo(next, -1) >= 0
    requires LegalRun(Init(n, disk, next), ops)
    ensures Sized(Run(Init(n, disk, next), ops))
    ensures var s := Run(Init(n, disk, next), ops);
            Legal(s, FetchPage(id)) ==>
              var (v, p) := Fetch(s.pool, id);
              if v.Some? then v.value < |p.frames| && p.frames[v.value].id == id
                              && p.frames[v.value].data == Read(AfterWrites(disk, ops), id)
              else forall f :: 0 <= f < |p.frames| ==> p.frames[f].pin > 0
  {
    hide Serves, Fetch, FetchSafe;
    var s0 := Init(n, disk, next);
    InitGood(n, disk, next);
    RunServes(s0, ops, disk);
    var s := Run(s0, ops);
    if Legal(s, FetchPage(id)) {
      FetchServes(s.pool, s.writers, AfterWrites(disk, ops), id);
      FetchFails(s.pool, s.writers, AfterWrites(disk, ops), id);
    }
  }

  lemma FetchFails(p: Pool, w: seq<nat>, model: map<PageId, Content>, id: PageId)
    requires Serves(p, w, model)
    ensures Fetch(p, id).0 == None ==> forall f :: 0 <= f < |Fetch(p, id).1.frames| ==> Fetch(p, id).1.frames[f].pin > 0
  {
    VictimTaken(p);
  }

  // ---------- runs without deletes ----------

  /** Free frames remember no page. */
  ghost predicate FreeBlank(p: Pool) {
    forall i :: 0 <= i < |p.free| ==> p.free[i] < |p.frames| && p.frames[p.free[i]].id == NOWHERE
  }

  /** The rules for clients alone, when no page is deleted. */
  predicate Polite(s: State, op: Op)
    requires Sized(s)
  {
    match op
    case FetchPage(id) => Allocated(s.pool.next, id) && 0 <= id.pageNo
    case DeletePage(id) => false
    case _ => Legal(s, op)
  }

  predicate PoliteRun(s: State, ops: seq<Op>)
    requires Sized(s)
    decreases |ops|
  {
    ops == [] || (Polite(s, ops[0])
                  && (Legal(s, ops[0]) && Sized(Step(s, ops[0])) ==> PoliteRun(Step(s, ops[0]), ops[1..])))
  }

  lemma ReuseBlank(p: Pool, next: map<int, int>, f: nat, id: PageId, data: Content)
    requires PoolOk(p) && FreeBlank(p) && FindVictim(p).0 == Some(f) && f < |p.frames|
    ensures FreeBlank(Reused(FindVictim(p).1.(next := next), f, id, data))
  {
    hide TableOk, HeldOk, LruOk, AllocOk;
    var free := FindVictim(p).1.free;
    forall i | 0 <= i < |free| ensures free[i] != f && free[i] < |p.frames| && p.frames[free[i]].id == NOWHERE {
      if p.free != [] { assert free[i] == p.free[i+1]; }
    }
  }

  lemma StepBlank(s: State, op: Op, model: map<PageId, Content>)
    requires Good(s, model) && FreeBlank(s.pool) && Legal(s, op) && !op.DeletePage?
    ensures FreeBlank(Step(s, op).pool)
  {
    hide PoolOk, WritersOk;
    var p := s.pool;
    if op.FetchPage? && op.id !in p.table && FindVictim(p).0.Some? {
      var (v, p1) := FindVictim(p);
      FetchIsReuse(p, op.id);
      assert p1 == p1.(next := p.next);
      ReuseBlank(p, p.next, v.value, op.id, Read(WriteBack(p1, v.value).disk, op.id));
    } else if op.NewPage? && FindVictim(p).0.Some? {
      var (v, p1) := FindVictim(p);
      var id := PageId(op.fd, NextNo(p.next, op.fd));
      NewIsReuse(p, op.fd);
      ReuseBlank(p, p.next[op.fd := id.pageNo + 1], v.value, id, ZeroPage());
    }
  }

  /** Without deletes the rule about free frames always holds. */
  lemma {:induction false} PoliteIsLegal(s: State, ops: seq<Op>, model: map<PageId, Content>)
    requires Good(s, model) && FreeBlank(s.pool) && PoliteRun(s, ops)
    ensures LegalRun(s, ops)
    decreases |ops|
  {
    if ops != [] {
      hide Serves, Step;
      assert FetchSafe(s.pool, if ops[0].FetchPage? then ops[0].id else PageId(0, 0));
      assert Legal(s, ops[0]);
      StepServes(s, ops[0], model);
      StepBlank(s, ops[0], model);
      PoliteIsLegal(Step(s, ops[0]), ops[1..], Written(model, ops[0]));
    }
  }

  /** In every run of fetches, new pages, writes, releases and flushes by clients that keep to their rules, every
      fetch sees the bytes last written. */
  lemma PoliteFetchSeesLastWrite(n: nat, disk: map<PageId, Content>, next: map<int, int>, ops: seq<Op>, id: PageId)
    requires (forall q :: q in disk ==> Allocated(next, q)) && NextNo(next, -1) >= 0
    requires PoliteRun(Init(n, disk, next), ops + [FetchPage(id)])
    ensures LegalRun(Init(n, disk, next), ops) && Sized(Run(Init(n, disk, next), ops))
    ensures var s := Run(Init(n, disk, next), ops); var (v, p) := Fetch(s.pool, id);
            if v.Some? then v.value < |p.frames| && p.frames[v.value].id == id
                            && p.frames[v.value].data == Read(AfterWrites(disk, ops), id)
            else forall f :: 0 <= f < |p.frames| ==> p.frames[f].pin > 0
  {
    hide Serves, Fetch, FetchSafe, Step, Run, AfterWrites;
    var s0 := Init(n, disk, next);
    InitGood(n, disk, next);
    assert FreeBlank(s0.pool) by { InitBlank(n, disk, next); }
    PoliteIsLegal(s0, ops + [FetchPage(id)], disk);
    LegalPrefix(s0, ops, FetchPage(id));
    FetchSeesLastWrite(n, disk, next, ops, id);
  }

  lemma InitBlank(n: nat, disk: map<PageId, Content>, next: map<int, int>)
    ensures FreeBlank(Init(n, disk, next).pool)
  {
  }

  lemma {:induction false} LegalPrefix(s: State, ops: seq<Op>, op: Op)
    requires Sized(s) && LegalRun(s, ops + [op])
    ensures LegalRun(s, ops) && Sized(Run(s, ops)) && Legal(Run(s, ops), op)
    decreases |ops|
  {
    hide Step, Legal;
    var all := ops + [op];
    if ops != [] {
      assert all[0] == ops[0] && all[1..] == ops[1..] + [op];
      LegalPrefix(Step(s, ops[0]), ops[1..], op);
    }
  }

  // ---------- pinned pages stay ----------

  /** Frame `f` holds page `id` for somebody. */
  predicate Holds(p: Pool, f: nat, id: PageId) {
    f < |p.frames| && p.frames[f].pin > 0 && p.frames[f].id == id && id in p.table && p.table[id] == f
  }

  /** Pool `p'` still has page `id` in frame `f`, with the bytes `data` and `pin` pins. */
  predicate Kept(p': Pool, f: nat, id: PageId, data: Content, pin: int) {
    f < |p'.frames| && p'.frames[f].id == id && id in p'.table && p'.table[id] == f && p'.frames[f].data == data
      && p'.frames[f].pin == pin
  }

  lemma ReusedStays(p: Pool, f: nat, id: PageId, g: nat, data: Content, q: PageId)
    requires Taken(p, g) && q !in p.table && Holds(p, f, id)
    ensures Kept(Reused(p, g, q, data), f, id, p.frames[f].data, p.frames[f].pin)
  {
  }

  lemma OnlyPage(p: Pool, f: nat, id: PageId)
    requires PoolOk(p) && Holds(p, f, id)
    ensures forall q :: q in p.table && p.table[q] == f ==> q == id
  {
  }

  lemma FetchStays(p: Pool, f: nat, id: PageId, q: PageId)
    requires PoolOk(p) && InRange(p) && Holds(p, f, id)
    ensures Kept(Fetch(p, q).1, f, id, p.frames[f].data, p.frames[f].pin + if q == id then 1 else 0)
  {
    hide TableOk, HeldOk, LruOk, AllocOk, FreeOk, Taken, Reused;
    OnlyPage(p, f, id);
    if q !in p.table {
      VictimTaken(p);
      var (v, p1) := FindVictim(p);
      if v.Some? {
        var data := Read(WriteBack(p1, v.value).disk, q);
        ReusedStays(p1, f, id, v.value, data, q);
        FetchIsReuse(p, q);
      }
    }
  }

  lemma FetchIsReuse(p: Pool, q: PageId)
    requires InRange(p) && q !in p.table && FindVictim(p).0.Some?
    ensures var (v, p1) := FindVictim(p); Fetch(p, q).1 == Reused(p1, v.value, q, Read(WriteBack(p1, v.value).disk, q))
  {
  }

  lemma NewStays(p: Pool, f: nat, id: PageId, fd: int)
    requires PoolOk(p) && InRange(p) && Holds(p, f, id)
    ensures Kept(New(p, fd).1, f, id, p.frames[f].data, p.frames[f].pin)
  {
    hide TableOk, HeldOk, LruOk, AllocOk, FreeOk, Taken;
    VictimTaken(p);
    var (v, p1) := FindVictim(p);
    if v.Some? {
      var q := PageId(fd, NextNo(p.next, fd));
      NotYetKnown(p, q);
      CounterUp(p1, v.value, fd);
      ReusedStays(p1.(next := p.next[fd := q.pageNo + 1]), f, id, v.value, ZeroPage(), q);
    }
  }

  /** While a page is pinned no operation moves it to another frame or takes it off the table, only a write
      changes its bytes, and only fetches and releases of the page itself change the number of pins. */
  lemma PinnedStays(s: State, op: Op, model: map<PageId, Content>, f: nat, id: PageId)
    requires Good(s, model) && Legal(s, op) && Holds(s.pool, f, id)
    ensures Kept(Step(s, op).pool, f, id, if op.Write? && op.id == id then op.data else s.pool.frames[f].data,
                 s.pool.frames[f].pin
                 + (if op == FetchPage(id) then 1 else if op.Release? && op.id == id then -1 else 0))
  {
    hide TableOk, HeldOk, LruOk, AllocOk, FreeOk, WritersOk, Fetch, New;
    OnlyPage(s.pool, f, id);
    if op.FetchPage? {
      FetchStays(s.pool, f, id, op.id);
    } else if op.NewPage? {
      NewStays(s.pool, f, id, op.fd);
    } else if op.id in s.pool.table {
      InTable(s.pool, op.id);
    }
  }

  // ---------- why the rule about free frames is needed ----------

  const A := PageId(0, 0)
  const B := PageId(0, 1)

  function Clean(id: PageId, pin: nat): Frame { Frame(id, ZeroPage(), false, pin) }

  function TwoFrames(table: map<PageId, nat>, f0: Frame, f1: Frame, free: seq<nat>, lru: seq<nat>): Pool {
    Pool(table, [f0, f1], free, lru, map[], map[0 := 2])
  }

  /** Page A has been read into frame 0, released and deleted: frame 0 is last in the free list and still
      remembers A. */
  function StaleFrame(): Pool {
    TwoFrames(map[], Clean(A, 0), Clean(NOWHERE, 0), [1, 0], [0])
  }

  lemma SameFields(p: Pool, p': Pool)
    requires p.table == p'.table && p.free == p'.free && p.lru == p'.lru && p.disk == p'.disk && p.next == p'.next
    requires |p.frames| == |p'.frames| == 2 && p.frames[0] == p'.frames[0] && p.frames[1] == p'.frames[1]
    ensures p == p'
  {
    assert p.frames == p'.frames;
  }

  lemma StaleFrameReached()
    ensures var p0 := Init(2, map[], map[0 := 2]).pool; InRange(p0) && FetchSafe(p0, A) && InRange(Fetch(p0, A).1)
    ensures var p1 := Fetch(Init(2, map[], map[0 := 2]).pool, A).1; InRange(Unpin(p1, A, false).1)
    ensures var p1 := Fetch(Init(2, map[], map[0 := 2]).pool, A).1; Delete(Unpin(p1, A, false).1, A).1 == StaleFrame()
  {
    var p0 := Init(2, map[], map[0 := 2]).pool;
    assert p0.frames == [Clean(NOWHERE, 0), Clean(NOWHERE, 0)] && p0.free == [0, 1];
    var p1 := TwoFrames(map[A := 0], Clean(A, 1), Clean(NOWHERE, 0), [1], []);
    assert Fetch(p0, A).1 == p1 by { SameFields(Fetch(p0, A).1, p1); }
    ReleaseAndDelete();
  }

  lemma ReleaseAndDelete()
    ensures var p1 := TwoFrames(map[A := 0], Clean(A, 1), Clean(NOWHERE, 0), [1], []);
            && InRange(p1) && InRange(Unpin(p1, A, false).1) && Delete(Unpin(p1, A, false).1, A).1 == StaleFrame()
  {
    var p1 := TwoFrames(map[A := 0], Clean(A, 1), Clean(NOWHERE, 0), [1], []);
    var p2 := TwoFrames(map[A := 0], Clean(A, 0), Clean(NOWHERE, 0), [1], [0]);
    assert Unpin(p1, A, false).1 == p2 by { SameFields(Unpin(p1, A, false).1, p2); }
    SameFields(Delete(p2, A).1, StaleFrame());
  }

  /** A is then not safe to fetch. */
  lemma StaleFrameUnsafe()
    ensures InRange(StaleFrame()) && Allocated(StaleFrame().next, A) && !FetchSafe(StaleFrame(), A)
  {
    assert StaleFrame().free[1] == 0;
  }

  // ---------- what an unsafe fetch leads to ----------

  /** Frame `f` holds the pinned page `id`, and only free frames may remember the page besides. The table may have
      lost it. */
  ghost predicate Loose(p: Pool, f: nat, id: PageId) {
    && TableOk(p) && AllocOk(p) && f < |p.frames| && p.frames[f].id == id && p.frames[f].pin > 0 && f !in p.free
    && Distinct(p.free) && (forall g :: g in p.free ==> g < |p.frames| && p.frames[g].pin == 0 && !p.frames[g].dirty)
    && (forall g :: g in p.lru ==> g < |p.frames| && p.frames[g].pin == 0)
    && (forall g :: 0 <= g < |p.frames| && g != f && g !in p.free ==> p.frames[g].id != id)
  }

  lemma LooseInRange(p: Pool, f: nat, id: PageId)
    requires Loose(p, f, id)
    ensures InRange(p)
  {
    assert forall i :: 0 <= i < |p.free| ==> p.free[i] in p.free;
    assert forall i :: 0 <= i < |p.lru| ==> p.lru[i] in p.lru;
  }

  lemma NewInRange(p: Pool, fd: int)
    requires InRange(p)
    ensures InRange(New(p, fd).1)
  {
    hide New;
    if FindVictim(p).0 == None {
      NewFails(p, fd);
    } else {
      var (v, p1) := FindVictim(p);
      NewIsReuse(p, fd);
      WithoutInRange(p1.lru, v.value, |p.frames|);
    }
  }

  lemma WithoutInRange(s: seq<nat>, f: nat, n: nat)
    requires forall i :: 0 <= i < |s| ==> s[i] < n
    ensures forall i :: 0 <= i < |Without(s, f)| ==> Without(s, f)[i] < n
  {
    var r := Without(s, f);
    forall i | 0 <= i < |r| ensures r[i] < n { assert r[i] in r && r[i] in s; }
  }

  /** The pool after `n` new pages. */
  function News(p: Pool, fd: int, n: nat): Pool
    requires InRange(p)
    decreases n
  {
    NewInRange(p, fd);
    if n == 0 then p else News(New(p, fd).1, fd, n - 1)
  }

  function LastNew(p: Pool, fd: int): PageId { PageId(fd, NextNo(p.next, fd) - 1) }

  function Overwrite(p: Pool, f: nat, x: Content): Pool
    requires f < |p.frames|
  {
    p.(frames := p.frames[f := p.frames[f].(data := x)])
  }

  /** The unsafe fetch itself. */
  lemma UnsafeFetch(p: Pool, id: PageId, x: Content) returns (f: nat)
    requires PoolOk(p) && InRange(p) && Allocated(p.next, id) && !FetchSafe(p, id)
    ensures Fetch(p, id).0 == Some(f) && f < |Fetch(p, id).1.frames|
    ensures var p1 := Overwrite(Fetch(p, id).1, f, x);
            && Loose(p1, f, id) && p1.frames[f] == Frame(id, x, false, 1) && p1.disk == p.disk
            && exists i :: 0 <= i < |p1.free| && p1.free[i] < |p1.frames| && p1.frames[p1.free[i]].id == id
  {
    hide TableOk, HeldOk, LruOk, AllocOk, Loose, Reused, ReusedIs;
    if id in p.table { TableNotFree(p, id); }
    var i :| 1 <= i < |p.free| && p.frames[p.free[i]].id == id;
    f := p.free[0];
    var tail := p.(free := p.free[1..]);
    FreeTaken(p);
    assert f in p.free && p.free[i] in p.free && p.free[i] != f && tail.free[i-1] == p.free[i];
    var p1 := Reused(tail, f, id, Read(p.disk, id));
    ReusedFields(tail, f, id, Read(p.disk, id));
    FetchIsReuse(p, id);
    assert WriteBack(tail, f).disk == p.disk;
    assert Fetch(p, id) == (Some(f), p1);
    UnsafeLoose(tail, f, id, Read(p.disk, id), p1, x);
    ReusedAround(tail, f, id, Read(p.disk, id), p1, p.free[i]);
    assert Overwrite(p1, f, x).frames[p.free[i]] == p.frames[p.free[i]];
  }

  lemma ReusedAround(p: Pool, f: nat, id: PageId, data: Content, p': Pool, g: nat)
    requires f < |p.frames| && g < |p.frames| && g != f && ReusedIs(p, f, id, data, p') && p.frames[f].pin == 0
             && !p.frames[f].dirty
    ensures |p'.frames| == |p.frames| && p'.frames[g] == p.frames[g] && p'.frames[f] == Frame(id, data, false, 1)
    ensures p'.free == p.free && p'.disk == p.disk
  {
  }

  lemma UnsafeLoose(p: Pool, f: nat, id: PageId, data: Content, p': Pool, x: Content)
    requires Taken(p, f) && id !in p.table && Allocated(p.next, id) && ReusedIs(p, f, id, data, p')
    ensures Loose(Overwrite(p', f, x), f, id)
  {
    ReuseTable(p, f, id, data, p');
  }

  /** A new page takes the first free frame, and what it remembers off the table. */
  lemma NewTakes(p: Pool, f: nat, id: PageId, fd: int)
    requires Loose(p, f, id) && InRange(p) && p.free != []
    ensures var q := New(p, fd).1; var g := p.free[0];
            && Loose(q, f, id) && q.free == p.free[1..] && q.disk == p.disk && |q.frames| == |p.frames|
            && (forall h :: 0 <= h < |p.frames| && h != g ==> q.frames[h] == p.frames[h])
            && LastNew(q, fd) in q.table && q.table[LastNew(q, fd)] == g && g != f && q.frames[g].pin == 1
            && (id in q.table ==> id in p.table) && (p.frames[g].id == id ==> id !in q.table)
  {
    hide New, Reused;
    var g, n := p.free[0], PageId(fd, NextNo(p.next, fd));
    assert g in p.free;
    var p1 := p.(free := p.free[1..], next := p.next[fd := n.pageNo + 1]);
    NewIsReuse(p, fd);
    assert forall q :: q in p.table ==> Allocated(p.next, q);
    assert n != id by { assert Allocated(p.next, p.frames[f].id); }
    ReusedFields(p1, g, n, ZeroPage());
    assert p.free == [g] + p.free[1..];
    TakeLoose(p, f, id, g, n, New(p, fd).1);
  }

  lemma TakeLoose(p: Pool, f: nat, id: PageId, g: nat, n: PageId, q: Pool)
    requires Loose(p, f, id) && p.free != [] && g == p.free[0] && g < |p.frames| && g != f && n != id && n !in p.table
    requires n.pageNo == NextNo(p.next, n.fd)
    requires ReusedIs(p.(free := p.free[1..], next := p.next[n.fd := n.pageNo + 1]), g, n, ZeroPage(), q)
    ensures Loose(q, f, id)
  {
    assert p.free == [g] + p.free[1..] && forall h :: h in p.free <==> h == g || h in p.free[1..];
    assert g !in p.free[1..];
  }

  /** New pages until the first frame is reused that remembers the page. */
  lemma {:induction false} NewsTake(p: Pool, f: nat, id: PageId, fd: int, i: nat)
    requires Loose(p, f, id) && InRange(p) && i < |p.free| && p.free[i] < |p.frames| && p.frames[p.free[i]].id == id
    ensures var q := News(p, fd, i + 1);
            && Loose(q, f, id) && q.disk == p.disk && |q.frames| == |p.frames| && q.frames[f] == p.frames[f]
            && id !in q.table
            && LastNew(q, fd) in q.table && q.table[LastNew(q, fd)] != f && q.frames[q.table[LastNew(q, fd)]].pin == 1
    decreases i
  {
    hide Loose, New;
    NewTakes(p, f, id, fd);
    var q := New(p, fd).1;
    NewInRange(p, fd);
    assert News(p, fd, i + 1) == News(q, fd, i);
    LooseFacts(p, f, id);
    LooseFacts(q, f, id);
    if i == 0 {
      assert News(q, fd, 0) == q;
    } else {
      assert q.free[i-1] == p.free[i] && p.free[i] != p.free[0];
      NewsTake(q, f, id, fd, i - 1);
    }
  }

  lemma LooseFacts(p: Pool, f: nat, id: PageId)
    requires Loose(p, f, id)
    ensures f < |p.frames| && Distinct(p.free) && TableOk(p)
  {
  }

  lemma UnpinLoose(p: Pool, f: nat, id: PageId, last: PageId)
    requires Loose(p, f, id) && InRange(p) && last in p.table && p.table[last] != f && p.frames[p.table[last]].pin == 1
    ensures var q := Unpin(p, last, false).1;
            && Loose(q, f, id) && q.lru != [] && q.disk == p.disk && q.frames[f] == p.frames[f] && q.table == p.table
  {
    var g := p.table[last];
    assert forall h :: h in Released(p.lru, g) <==> h == g || h in p.lru;
  }

  /** Fetching the page again reads the disk into another frame. */
  lemma FetchLoose(p: Pool, f: nat, id: PageId)
    requires Loose(p, f, id) && InRange(p) && id !in p.table && p.lru != []
    ensures var (v, q) := Fetch(p, id);
            && v.Some? && v.value != f && v.value < |q.frames| && f < |q.frames| && q.frames[f] == p.frames[f]
            && q.frames[v.value].id == id && q.frames[v.value].data == Read(p.disk, id)
  {
    hide TableOk, AllocOk, Reused;
    var (v, p1) := FindVictim(p);
    assert v.value in if p.free != [] then p.free else p.lru;
    FetchIsReuse(p, id);
    ReusedFields(p1, v.value, id, Read(WriteBack(p1, v.value).disk, id));
  }

  /** From every pool in order, an unsafe fetch leads to a stale read. The client writes the page. New pages are taken
      until the frame is reused that remembers it, and the last of them is released. The page is then fetched again,
      into another frame and with the bytes it had on the disk, while it is still pinned with the bytes written. */
  lemma StaleRead(p: Pool, id: PageId, fd: int, x: Content) returns (f: nat, n: nat)
    requires PoolOk(p) && InRange(p) && Allocated(p.next, id) && !FetchSafe(p, id)
    ensures Fetch(p, id).0 == Some(f) && f < |Fetch(p, id).1.frames| && InRange(Overwrite(Fetch(p, id).1, f, x))
    ensures var q := News(Overwrite(Fetch(p, id).1, f, x), fd, n);
            && InRange(q) && LastNew(q, fd) != id && Unpin(q, LastNew(q, fd), false).0
            && InRange(Unpin(q, LastNew(q, fd), false).1)
            && var (v, q') := Fetch(Unpin(q, LastNew(q, fd), false).1, id);
            && v.Some? && v.value != f && v.value < |q'.frames| && f < |q'.frames|
            && q'.frames[f] == Frame(id, x, false, 1) && q'.frames[v.value].id == id
            && q'.frames[v.value].data == Read(p.disk, id)
  {
    hide Loose, Fetch, News, Unpin, PoolOk;
    f := UnsafeFetch(p, id, x);
    var p1 := Overwrite(Fetch(p, id).1, f, x);
    LooseInRange(p1, f, id);
    var i :| 0 <= i < |p1.free| && p1.free[i] < |p1.frames| && p1.frames[p1.free[i]].id == id;
    n := i + 1;
    NewsTake(p1, f, id, fd, i);
    var q := News(p1, fd, n);
    LooseInRange(q, f, id);
    UnpinLoose(q, f, id, LastNew(q, fd));
    UnpinOk(q, LastNew(q, fd), false);
    LooseInRange(Unpin(q, LastNew(q, fd), false).1, f, id);
    FetchLoose(Unpin(q, LastNew(q, fd), false).1, f, id);
  }
}
