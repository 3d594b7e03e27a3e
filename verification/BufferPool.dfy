/** The buffer pool as a value: its operations, its invariant, and the page map it stands for. */
module BufferPool {
  import opened Wrappers
  import opened Config
  import opened Values
  import opened LruReplacer

  datatype PageId = PageId(fd: int, pageNo: int)
  type Content = seq<Byte>

  function ZeroPage(): (z: Content)
    ensures |z| == 4096 && forall i :: 0 <= i < 4096 ==> z[i] == 0
  {
    seq(PAGE_SIZE, _ => 0)
  }

  /** A frame: the page it holds or last held, the bytes, and its bookkeeping. */
  datatype Frame = Frame(id: PageId, data: Content, dirty: bool, pin: nat)

  /** Page table, frames, free list, evictable frames, disk, and the next page number of each file. */
  datatype Pool = Pool(table: map<PageId, nat>, frames: seq<Frame>, free: seq<nat>, lru: seq<nat>,
                       disk: map<PageId, Content>, next: map<int, int>)

  /** A page never written reads as zero bytes. */
  function Read(disk: map<PageId, Content>, id: PageId): Content {
    if id in disk then disk[id] else ZeroPage()
  }

  function NextNo(next: map<int, int>, fd: int): int {
    if fd in next then next[fd] else 0
  }

  predicate Allocated(next: map<int, int>, id: PageId) {
    id.pageNo < NextNo(next, id.fd)
  }

  // ---------- operations ----------

  predicate InRange(p: Pool) {
    && (forall q :: q in p.table ==> p.table[q] < |p.frames|)
    && (forall i :: 0 <= i < |p.free| ==> p.free[i] < |p.frames|)
    && (forall i :: 0 <= i < |p.lru| ==> p.lru[i] < |p.frames|)
  }

  /** A frame to reuse: from the free list if possible, else the replacer's choice. */
  function FindVictim(p: Pool): (Option<nat>, Pool) {
    if p.free != [] then (Some(p.free[0]), p.(free := p.free[1..]))
    else if p.lru != [] then (Some(p.lru[|p.lru|-1]), p.(lru := p.lru[..|p.lru|-1]))
    else (None, p)
  }

  /** Writes frame `f` back if needed and takes its page off the table. */
  function WriteBack(p: Pool, f: nat): Pool
    requires f < |p.frames|
  {
    var fr := p.frames[f];
    p.(disk := if fr.dirty then p.disk[fr.id := fr.data] else p.disk,
       frames := p.frames[f := fr.(dirty := false)],
       table := p.table - {fr.id})
  }

  /** Gives frame `f` to page `id`, unless the table already has that page. */
  function Assign(p: Pool, f: nat, id: PageId): Pool
    requires f < |p.frames|
  {
    p.(frames := p.frames[f := p.frames[f].(id := id)],
       table := if id in p.table then p.table else p.table[id := f])
  }

  /** Writes contents into frame `f`, takes it off the replacer and pins it once more. */
  function Pinned(p: Pool, f: nat, data: Content): Pool
    requires f < |p.frames|
  {
    p.(frames := p.frames[f := p.frames[f].(data := data, pin := p.frames[f].pin + 1)], lru := Without(p.lru, f))
  }

  function Fetch(p: Pool, id: PageId): (Option<nat>, Pool)
    requires InRange(p)
  {
    if id in p.table then
      var f := p.table[id];
      (Some(f), Pinned(p, f, p.frames[f].data))
    else
      var (v, p1) := FindVictim(p);
      if v == None then (None, p)
      else
        var p2 := Assign(WriteBack(p1, v.value), v.value, id);
        (v, Pinned(p2, v.value, Read(p2.disk, id)))
  }

  function New(p: Pool, fd: int): (Option<(nat, PageId)>, Pool)
    requires InRange(p)
  {
    var (v, p1) := FindVictim(p);
    if v == None then (None, p)
    else
      var id := PageId(fd, NextNo(p.next, fd));
      var p2 := Assign(WriteBack(p1.(next := p.next[fd := id.pageNo + 1]), v.value), v.value, id);
      (Some((v.value, id)), Pinned(p2, v.value, ZeroPage()))
  }

  function Unpin(p: Pool, id: PageId, dirty: bool): (bool, Pool)
    requires InRange(p)
  {
    if id !in p.table || p.frames[p.table[id]].pin == 0 then (false, p)
    else
      var f := p.table[id];
      var fr := p.frames[f];
      (true, p.(frames := p.frames[f := fr.(pin := fr.pin - 1, dirty := fr.dirty || dirty)],
                lru := if fr.pin == 1 then Released(p.lru, f) else p.lru))
  }

  function Flush(p: Pool, id: PageId): (bool, Pool)
    requires InRange(p)
  {
    if id !in p.table then (false, p)
    else
      var f := p.table[id];
      (true, p.(disk := p.disk[id := p.frames[f].data], frames := p.frames[f := p.frames[f].(dirty := false)]))
  }

  function Delete(p: Pool, id: PageId): (bool, Pool)
    requires InRange(p)
  {
    if id !in p.table then (true, p)
    else if p.frames[p.table[id]].pin != 0 then (false, p)
    else
      var f := p.table[id];
      var p1 := WriteBack(p, f);
      (true, p1.(free := p1.free + [f]))
  }

  // ---------- invariant ----------

  ghost predicate TableOk(p: Pool) {
    forall q :: q in p.table ==> p.table[q] < |p.frames| && p.frames[p.table[q]].id == q
  }

  /** A free frame is clean, unpinned, and remembers no page that the table knows. */
  ghost predicate FreeOk(p: Pool) {
    && Distinct(p.free)
    && forall f :: f in p.free ==>
         f < |p.frames| && p.frames[f].pin == 0 && !p.frames[f].dirty && p.frames[f].id !in p.table
  }

  /** Every other frame holds a page that the table leads to it for. */
  ghost predicate HeldOk(p: Pool) {
    forall f :: 0 <= f < |p.frames| && f !in p.free ==> p.frames[f].id in p.table && p.table[p.frames[f].id] == f
  }

  /** The replacer knows only unpinned frames, and all of those that hold a page. */
  ghost predicate LruOk(p: Pool) {
    && Distinct(p.lru)
    && (forall f :: f in p.lru ==> f < |p.frames| && p.frames[f].pin == 0)
    && (forall f :: 0 <= f < |p.frames| && f !in p.free && p.frames[f].pin == 0 ==> f in p.lru)
  }

  /** Every page that a frame remembers or the disk holds is below the file's allocation counter. */
  ghost predicate AllocOk(p: Pool) {
    && (forall f :: 0 <= f < |p.frames| ==> Allocated(p.next, p.frames[f].id))
    && (forall q :: q in p.disk ==> Allocated(p.next, q))
  }

  ghost predicate PoolOk(p: Pool) {
    TableOk(p) && FreeOk(p) && HeldOk(p) && LruOk(p) && AllocOk(p)
  }

  /** How many of the pins of each frame belong to clients that have written and not yet released it.
      Such a client releases the frame as dirty. A clean frame without writers equals its disk page. */
  ghost predicate WritersOk(p: Pool, w: seq<nat>) {
    && |w| == |p.frames|
    && (forall f :: 0 <= f < |w| ==> w[f] <= p.frames[f].pin)
    && (forall f :: 0 <= f < |w| && f !in p.free && !p.frames[f].dirty && w[f] == 0 ==>
          p.frames[f].data == Read(p.disk, p.frames[f].id))
  }

  /** The bytes a reader of a page gets to see. */
  function Contents(p: Pool, id: PageId): Content
    requires InRange(p)
  {
    if id in p.table then p.frames[p.table[id]].data else Read(p.disk, id)
  }

  lemma OkInRange(p: Pool)
    requires PoolOk(p)
    ensures InRange(p)
  {
    assert forall i :: 0 <= i < |p.free| ==> p.free[i] in p.free;
    assert forall i :: 0 <= i < |p.lru| ==> p.lru[i] in p.lru;
  }

  // ---------- reusing a frame ----------

  /** `p` is a good pool apart from frame `f`, which has just been taken off the free list or the
      replacer: nobody holds it, and only it may still be in the table under its old page. */
  ghost predicate Taken(p: Pool, f: nat) {
    && f < |p.frames| && f !in p.free && p.frames[f].pin == 0
    && TableOk(p) && FreeOk(p) && Distinct(p.lru) && AllocOk(p)
    && (forall g :: 0 <= g < |p.frames| && g != f && g !in p.free ==>
        p.frames[g].id in p.table && p.table[p.frames[g].id] == g)
    && (forall g :: g in p.lru ==> g < |p.frames| && p.frames[g].pin == 0)
    && (forall g :: 0 <= g < |p.frames| && g != f && g !in p.free && p.frames[g].pin == 0 ==> g in p.lru)
    && (p.frames[f].id in p.table ==> p.table[p.frames[f].id] == f)
  }

  lemma FreeTaken(p: Pool)
    requires PoolOk(p) && p.free != []
    ensures Taken(p.(free := p.free[1..]), p.free[0])
  {
    var f, s := p.free[0], p.free[1..];
    assert p.free == [f] + s && f in p.free;
    assert forall g :: g in p.free <==> g == f || g in s;
  }

  lemma LruTaken(p: Pool)
    requires PoolOk(p) && p.free == [] && p.lru != []
    ensures Taken(p.(lru := p.lru[..|p.lru|-1]), p.lru[|p.lru|-1])
  {
    var s, v := p.lru[..|p.lru|-1], p.lru[|p.lru|-1];
    assert p.lru == s + [v] && v in p.lru;
    assert forall g :: g in p.lru <==> g in s || g == v;
  }

  /** Eviction takes a frame that nobody has pinned, and fails only when every frame is pinned. */
  lemma VictimTaken(p: Pool)
    requires PoolOk(p)
    ensures var (v, p1) := FindVictim(p); v.Some? ==> Taken(p1, v.value) && p1.frames == p.frames && p1.table == p.table
    ensures FindVictim(p).0 == None <==> forall f :: 0 <= f < |p.frames| ==> p.frames[f].pin > 0
  {
    if p.free != [] {
      FreeTaken(p);
      assert p.free[0] in p.free;
    } else if p.lru != [] {
      LruTaken(p);
      assert p.lru[|p.lru|-1] in p.lru;
    }
  }

  /** Frame `f` given to page `id` with contents `data` and pinned. */
  function Reused(p: Pool, f: nat, id: PageId, data: Content): Pool
    requires f < |p.frames|
  {
    Pinned(Assign(WriteBack(p, f), f, id), f, data)
  }

  /** The fields of the pool after a reuse, frame by frame and page by page. */
  ghost predicate ReusedIs(p: Pool, f: nat, id: PageId, data: Content, p': Pool)
    requires f < |p.frames|
  {
    && |p'.frames| == |p.frames| && p'.free == p.free && p'.next == p.next && p'.lru == Without(p.lru, f)
    && p'.frames[f] == Frame(id, data, false, p.frames[f].pin + 1)
    && (forall g :: 0 <= g < |p.frames| && g != f ==> p'.frames[g] == p.frames[g])
    && p'.table == (p.table - {p.frames[f].id})[id := f]
    && p'.disk == if p.frames[f].dirty then p.disk[p.frames[f].id := p.frames[f].data] else p.disk
  }

  lemma ReusedFields(p: Pool, f: nat, id: PageId, data: Content)
    requires f < |p.frames| && id !in p.table
    ensures ReusedIs(p, f, id, data, Reused(p, f, id, data))
  {
  }

  lemma ReuseTable(p: Pool, f: nat, id: PageId, data: Content, p': Pool)
    requires Taken(p, f) && id !in p.table && Allocated(p.next, id) && ReusedIs(p, f, id, data, p')
    ensures TableOk(p') && HeldOk(p') && AllocOk(p')
  {
  }

  lemma ReuseLru(p: Pool, f: nat, id: PageId, data: Content, p': Pool)
    requires Taken(p, f) && ReusedIs(p, f, id, data, p')
    ensures LruOk(p')
  {
    WithoutDistinct(p.lru, f);
  }

  lemma ReuseFree(p: Pool, f: nat, id: PageId, data: Content, p': Pool)
    requires Taken(p, f) && id !in p.table && ReusedIs(p, f, id, data, p')
    ensures FreeOk(p') <==> forall g :: g in p.free ==> p.frames[g].id != id
  {
    if FreeOk(p') {
      forall g | g in p.free ensures p.frames[g].id != id {
        assert g in p'.free && p'.frames[g] == p.frames[g];
      }
    }
  }

  /** A page may be given a frame exactly when no other free frame remembers the page: otherwise the
      reuse of that frame would later take the page off the table. */
  lemma ReuseKeeps(p: Pool, f: nat, id: PageId, data: Content)
    requires Taken(p, f) && id !in p.table && Allocated(p.next, id)
    ensures PoolOk(Reused(p, f, id, data)) <==> forall g :: g in p.free ==> p.frames[g].id != id
  {
    hide Reused, Taken, TableOk, HeldOk, LruOk, AllocOk, FreeOk, ReusedIs;
    assert f < |p.frames| by { TakenInRange(p, f); }
    var p' := Reused(p, f, id, data);
    ReusedFields(p, f, id, data);
    ReuseTable(p, f, id, data, p');
    ReuseLru(p, f, id, data, p');
    ReuseFree(p, f, id, data, p');
  }

  lemma TakenInRange(p: Pool, f: nat)
    requires Taken(p, f)
    ensures f < |p.frames|
  {
  }

  // ---------- every operation keeps the invariant ----------

  /** No free frame but the one to be used next remembers the page. */
  predicate FetchSafe(p: Pool, id: PageId)
    requires InRange(p)
  {
    forall i :: 1 <= i < |p.free| ==> p.frames[p.free[i]].id != id
  }

  lemma HitKeeps(p: Pool, id: PageId)
    requires PoolOk(p) && id in p.table
    ensures PoolOk(Pinned(p, p.table[id], p.frames[p.table[id]].data))
  {
    WithoutDistinct(p.lru, p.table[id]);
  }

  /** A fetch keeps the invariant exactly when no other free frame remembers the page. */
  lemma FetchKeeps(p: Pool, id: PageId)
    requires PoolOk(p) && InRange(p) && Allocated(p.next, id)
    ensures PoolOk(Fetch(p, id).1) <==> FetchSafe(p, id)
  {
    hide Taken, TableOk, HeldOk, LruOk, AllocOk, FreeOk;
    if id in p.table {
      HitKeeps(p, id);
      assert FetchSafe(p, id) by { TableNotFree(p, id); }
    } else {
      VictimTaken(p);
      var (v, p1) := FindVictim(p);
      if v.Some? {
        var data := Read(WriteBack(p1, v.value).disk, id);
        ReuseKeeps(p1, v.value, id, data);
        assert Fetch(p, id).1 == Reused(p1, v.value, id, data);
        FreeTail(p.free, p1.free, p.frames, id);
      }
    }
  }

  lemma TableNotFree(p: Pool, id: PageId)
    requires PoolOk(p) && InRange(p) && id in p.table
    ensures FetchSafe(p, id)
  {
    assert forall i :: 0 <= i < |p.free| ==> p.free[i] in p.free;
  }

  lemma FreeTail(free: seq<nat>, tail: seq<nat>, frames: seq<Frame>, id: PageId)
    requires tail == if free == [] then [] else free[1..]
    requires forall i :: 0 <= i < |free| ==> free[i] < |frames|
    ensures (forall g :: g in tail ==> g < |frames| && frames[g].id != id) <==>
              forall i :: 1 <= i < |free| ==> frames[free[i]].id != id
  {
    assert forall i :: 1 <= i < |free| ==> tail[i-1] == free[i];
    if forall g :: g in tail ==> g < |frames| && frames[g].id != id {
      forall i | 1 <= i < |free| ensures frames[free[i]].id != id { assert tail[i-1] in tail; }
    }
  }

  lemma NewIsReuse(p: Pool, fd: int)
    requires InRange(p) && FindVictim(p).0.Some?
    ensures var (v, p1) := FindVictim(p); var id := PageId(fd, NextNo(p.next, fd));
            && New(p, fd) == (Some((v.value, id)),
                              Reused(p1.(next := p.next[fd := id.pageNo + 1]), v.value, id, ZeroPage()))
            && p1.next == p.next && v.value < |p.frames|
  {
  }

  lemma NewFails(p: Pool, fd: int)
    requires InRange(p) && FindVictim(p).0 == None
    ensures New(p, fd) == (None, p)
  {
  }

  lemma NewKeeps(p: Pool, fd: int)
    requires PoolOk(p) && InRange(p)
    ensures PoolOk(New(p, fd).1)
  {
    hide PoolOk, New, InRange, Taken, Reused, FindVictim;
    VictimTaken(p);
    var (v, p1) := FindVictim(p);
    if v == None {
      NewFails(p, fd);
    } else {
      var id := PageId(fd, NextNo(p.next, fd));
      NewIsReuse(p, fd);
      NotYetKnown(p, id);
      CounterUp(p1, v.value, fd);
      var p2 := p1.(next := p.next[fd := id.pageNo + 1]);
      assert Allocated(p2.next, id);
      ReuseKeeps(p2, v.value, id, ZeroPage());
      FreePages(p1, v.value, p, id);
    }
  }

  lemma FreePages(p1: Pool, f: nat, p: Pool, id: PageId)
    requires Taken(p1, f) && p1.frames == p.frames && forall g :: 0 <= g < |p.frames| ==> p.frames[g].id != id
    ensures forall g :: g in p1.free ==> g < |p1.frames| && p1.frames[g].id != id
  {
  }

  lemma NotYetKnown(p: Pool, id: PageId)
    requires PoolOk(p) && !Allocated(p.next, id)
    ensures id !in p.table && id !in p.disk && forall f :: 0 <= f < |p.frames| ==> p.frames[f].id != id
  {
  }

  lemma CounterUp(p: Pool, f: nat, fd: int)
    requires Taken(p, f)
    ensures Taken(p.(next := p.next[fd := NextNo(p.next, fd) + 1]), f)
  {
  }

  lemma UnpinLru(p: Pool, id: PageId, dirty: bool)
    requires LruOk(p) && HeldOk(p) && InRange(p) && id in p.table && p.table[id] !in p.free
    ensures LruOk(Unpin(p, id, dirty).1)
  {
  }

  lemma UnpinKeeps(p: Pool, id: PageId, dirty: bool)
    requires PoolOk(p) && InRange(p)
    ensures PoolOk(Unpin(p, id, dirty).1)
  {
    if id in p.table {
      assert p.table[id] !in p.free;
      UnpinLru(p, id, dirty);
      hide LruOk;
      assert PoolOk(Unpin(p, id, dirty).1);
    }
  }

  lemma FlushKeeps(p: Pool, id: PageId)
    requires PoolOk(p) && InRange(p)
    ensures PoolOk(Flush(p, id).1)
  {
  }

  /** A release succeeds exactly for a pinned page. It takes one pin off, the frame can be evicted exactly if that was
      the last one, and it is dirty if it was or the caller says so. */
  lemma UnpinDoes(p: Pool, id: PageId, dirty: bool)
    requires PoolOk(p) && InRange(p)
    ensures var (ok, p') := Unpin(p, id, dirty);
            && (ok <==> id in p.table && p.frames[p.table[id]].pin > 0) && (!ok ==> p' == p)
            && (ok ==> var f := p.table[id];
                       && |p'.frames| == |p.frames| && p'.frames[f].pin == p.frames[f].pin - 1
                       && (p'.frames[f].dirty <==> p.frames[f].dirty || dirty)
                       && (f in p'.lru <==> p'.frames[f].pin == 0)
                       && p'.table == p.table && p'.disk == p.disk)
  {
    if id in p.table { assert p.table[id] in p.lru ==> p.frames[p.table[id]].pin == 0; }
  }

  /** A flush succeeds exactly for pages in the pool. It puts the page's bytes on the disk, where no other page
      changes, and the frame is clean then. */
  lemma FlushDoes(p: Pool, id: PageId)
    requires PoolOk(p) && InRange(p)
    ensures var (ok, p') := Flush(p, id);
            && (ok <==> id in p.table) && (!ok ==> p' == p)
            && (ok ==>
                |p'.frames| == |p.frames| && !p'.frames[p.table[id]].dirty && Read(p'.disk, id) == Contents(p, id))
            && (forall q :: q != id ==> Read(p'.disk, q) == Read(p.disk, q)) && p'.table == p.table
  {
  }

  /** A delete fails exactly for a pinned page, and changes nothing then. Otherwise the page is no longer in the pool,
      the others are where they were, and its frame, if it had one, is free. */
  lemma DeleteDoes(p: Pool, id: PageId)
    requires PoolOk(p) && InRange(p)
    ensures var (ok, p') := Delete(p, id);
            && (ok <==> !(id in p.table && p.frames[p.table[id]].pin > 0)) && (!ok ==> p' == p)
            && (ok ==> id !in p'.table) && (ok && id in p.table ==> p.table[id] in p'.free)
            && (forall q :: q != id ==>
                (q in p'.table <==> q in p.table) && (q in p.table ==> p'.table[q] == p.table[q]))
  {
  }

  /** While a frame is free no page leaves the pool. */
  lemma NoEviction(p: Pool, id: PageId, fd: int, q: PageId)
    requires PoolOk(p) && InRange(p) && p.free != [] && q in p.table
    ensures q in Fetch(p, id).1.table && Fetch(p, id).1.table[q] == p.table[q]
    ensures q in New(p, fd).1.table && New(p, fd).1.table[q] == p.table[q]
  {
    assert p.free[0] in p.free;
    assert p.frames[p.free[0]].id !in p.table;
  }

  lemma DeleteKeeps(p: Pool, id: PageId)
    requires PoolOk(p) && InRange(p)
    ensures PoolOk(Delete(p, id).1)
  {
    var p' := Delete(p, id).1;
    if p'.free != p.free {
      var f := p.table[id];
      assert f !in p.free;
      assert forall g :: g in p'.free <==> g in p.free || g == f;
    }
  }

  // ---------- every operation keeps what the pool stands for ----------

  lemma ReuseWriters(p: Pool, w: seq<nat>, f: nat, id: PageId, data: Content, p': Pool)
    requires Taken(p, f) && id !in p.table && ReusedIs(p, f, id, data, p') && data == Read(p'.disk, id)
    requires |w| == |p.frames| && w[f] == 0 && forall g :: 0 <= g < |w| ==> w[g] <= p.frames[g].pin
    requires forall g :: 0 <= g < |w| && g != f && g !in p.free && !p.frames[g].dirty && w[g] == 0 ==>
               p.frames[g].data == Read(p.disk, p.frames[g].id)
    ensures WritersOk(p', w)
  {
  }

  /** A reuse changes nothing that a reader of any page sees. */
  lemma ReuseContents(p: Pool, f: nat, id: PageId, data: Content, p': Pool, q: PageId)
    requires Taken(p, f) && id !in p.table && ReusedIs(p, f, id, data, p') && data == Read(p'.disk, id)
    requires p.frames[f].id in p.table && !p.frames[f].dirty ==> p.frames[f].data == Read(p.disk, p.frames[f].id)
    requires p.frames[f].id !in p.table ==> !p.frames[f].dirty
    requires InRange(p) && InRange(p')
    ensures Contents(p', q) == Contents(p, q)
  {
  }

  ghost predicate Serves(p: Pool, w: seq<nat>, model: map<PageId, Content>) {
    PoolOk(p) && WritersOk(p, w) && InRange(p) && forall q :: Contents(p, q) == Read(model, q)
  }

  lemma VictimClean(p: Pool, w: seq<nat>)
    requires PoolOk(p) && WritersOk(p, w) && FindVictim(p).0.Some?
    ensures var (v, p1) := FindVictim(p); var f := v.value;
            && f < |w| && w[f] == 0 && p1.disk == p.disk && p1.next == p.next
            && (p.frames[f].id in p.table && !p.frames[f].dirty ==> p.frames[f].data == Read(p.disk, p.frames[f].id))
            && (p.frames[f].id !in p.table ==> !p.frames[f].dirty)
            && (forall g :: 0 <= g < |w| && g != f && g !in p1.free && !p.frames[g].dirty && w[g] == 0 ==>
                  p.frames[g].data == Read(p.disk, p.frames[g].id))
  {
    if p.free != [] {
      assert p.free[0] in p.free && p.free == [p.free[0]] + p.free[1..];
    } else {
      assert p.lru[|p.lru|-1] in p.lru;
    }
  }

  lemma HitServes(p: Pool, w: seq<nat>, model: map<PageId, Content>, id: PageId)
    requires Serves(p, w, model) && id in p.table
    ensures Serves(Pinned(p, p.table[id], p.frames[p.table[id]].data), w, model)
  {
    HitKeeps(p, id);
    var p' := Pinned(p, p.table[id], p.frames[p.table[id]].data);
    OkInRange(p');
    assert forall q :: Contents(p', q) == Contents(p, q);
  }

  /** Reusing the victim for a page the table does not have changes no page. */
  lemma ReuseServes(p: Pool, w: seq<nat>, model: map<PageId, Content>, next: map<int, int>, f: nat, id: PageId,
                    data: Content, p': Pool)
    requires Serves(p, w, model) && FindVictim(p).0 == Some(f) && id !in p.table && f < |p.frames|
    requires var p1 := FindVictim(p).1.(next := next); Taken(p1, f) && ReusedIs(p1, f, id, data, p')
    requires data == Read(p'.disk, id) && PoolOk(p')
    ensures Serves(p', w, model)
  {
    hide TableOk, HeldOk, LruOk, AllocOk, FreeOk, Taken, WritersOk;
    var p1 := FindVictim(p).1.(next := next);
    VictimClean(p, w);
    OkInRange(p');
    assert InRange(p1);
    WriterPins(p, w);
    ReuseWriters(p1, w, f, id, data, p');
    forall q ensures Contents(p', q) == Read(model, q) {
      ReuseContents(p1, f, id, data, p', q);
      assert Contents(p1, q) == Contents(p, q);
    }
  }

  /** A fetch that finds a frame delivers the page, and no page reads differently afterwards. */
  lemma FetchServes(p: Pool, w: seq<nat>, model: map<PageId, Content>, id: PageId)
    requires Serves(p, w, model) && Allocated(p.next, id) && FetchSafe(p, id)
    ensures var (v, p') := Fetch(p, id);
            && Serves(p', w, model)
            && (v.Some? ==>
                v.value < |p'.frames| && p'.frames[v.value].id == id && p'.frames[v.value].data == Read(model, id))
  {
    hide TableOk, HeldOk, LruOk, AllocOk, FreeOk, Taken, WritersOk;
    var (v, p') := Fetch(p, id);
    FetchKeeps(p, id);
    if id in p.table {
      HitServes(p, w, model, id);
      assert Contents(p, id) == Read(model, id);
      InTable(p, id);
    } else if v.Some? {
      VictimTaken(p);
      var data := p'.frames[v.value].data;
      var p1 := FindVictim(p).1;
      ReusedFields(p1, v.value, id, data);
      assert p1 == p1.(next := p.next);
      ReuseServes(p, w, model, p.next, v.value, id, data, p');
      assert Contents(p', id) == Read(model, id);
    }
  }

  lemma InTable(p: Pool, id: PageId)
    requires PoolOk(p) && id in p.table
    ensures p.table[id] < |p.frames| && p.frames[p.table[id]].id == id
  {
  }

  lemma WriterPins(p: Pool, w: seq<nat>)
    requires WritersOk(p, w)
    ensures |w| == |p.frames| && forall g :: 0 <= g < |w| ==> w[g] <= p.frames[g].pin
  {
  }

  lemma ReuseForNew(p: Pool, w: seq<nat>, model: map<PageId, Content>, next: map<int, int>, f: nat, id: PageId)
    requires Serves(p, w, model) && FindVictim(p).0 == Some(f) && !Allocated(p.next, id) && f < |p.frames|
    requires var p1 := FindVictim(p).1.(next := next); Taken(p1, f) && PoolOk(Reused(p1, f, id, ZeroPage()))
    ensures var p' := Reused(FindVictim(p).1.(next := next), f, id, ZeroPage());
            && Serves(p', w, model) && f < |p'.frames| && p'.frames[f].id == id && p'.frames[f].data == ZeroPage()
            && p'.next == next
    ensures Read(model, id) == ZeroPage()
  {
    hide PoolOk, Taken, Reused, WritersOk;
    var p1 := FindVictim(p).1.(next := next);
    NotYetKnown(p, id);
    ReusedFields(p1, f, id, ZeroPage());
    assert Contents(p, id) == ZeroPage();
    var p' := Reused(p1, f, id, ZeroPage());
    assert Read(p'.disk, id) == ZeroPage();
    ReuseServes(p, w, model, next, f, id, ZeroPage(), p');
  }

  /** A new page has a number no page had before, reads as zero bytes, and no page reads differently. */
  lemma NewServes(p: Pool, w: seq<nat>, model: map<PageId, Content>, fd: int)
    requires Serves(p, w, model)
    ensures Serves(New(p, fd).1, w, model)
    ensures New(p, fd).0.Some? ==>
              var f, id, p' := New(p, fd).0.value.0, New(p, fd).0.value.1, New(p, fd).1;
              && !Allocated(p.next, id) && Allocated(p'.next, id)
              && f < |p'.frames| && p'.frames[f].id == id && p'.frames[f].data == ZeroPage() == Read(model, id)
  {
    hide PoolOk, WritersOk, Taken, Reused, InRange, Contents, New, FindVictim;
    assert PoolOk(p) && InRange(p);
    NewKeeps(p, fd);
    VictimTaken(p);
    var (v, p1) := FindVictim(p);
    if v == None {
      NewFails(p, fd);
    } else {
      var id := PageId(fd, NextNo(p.next, fd));
      NewIsReuse(p, fd);
      CounterUp(p1, v.value, fd);
      ReuseForNew(p, w, model, p.next[fd := id.pageNo + 1], v.value, id);
    }
  }

  lemma FlushServes(p: Pool, w: seq<nat>, model: map<PageId, Content>, id: PageId)
    requires Serves(p, w, model)
    ensures Serves(Flush(p, id).1, w, model)
  {
    FlushKeeps(p, id);
    var p' := Flush(p, id).1;
    OkInRange(p');
    assert forall q :: Contents(p', q) == Contents(p, q);
  }

  lemma DeleteWriters(p: Pool, w: seq<nat>, id: PageId)
    requires PoolOk(p) && WritersOk(p, w) && InRange(p)
    ensures WritersOk(Delete(p, id).1, w)
  {
    hide HeldOk, LruOk, AllocOk;
    var p' := Delete(p, id).1;
    if id in p.table && p.frames[p.table[id]].pin == 0 {
      var f := p.table[id];
      assert f in p'.free && forall g :: g in p.free ==> g in p'.free;
      forall g | 0 <= g < |w| && g !in p'.free && !p'.frames[g].dirty && w[g] == 0
        ensures p'.frames[g].data == Read(p'.disk, p'.frames[g].id)
      {
        assert p'.frames[g] == p.frames[g] && g !in p.free;
        assert p.frames[g].id != id by { HeldApart(p, g, f); }
      }
    }
  }

  /** No two frames hold the same page. */
  lemma HeldApart(p: Pool, g: nat, f: nat)
    requires PoolOk(p) && g < |p.frames| && f < |p.frames| && g != f && g !in p.free && f !in p.free
    ensures p.frames[g].id != p.frames[f].id
  {
  }

  lemma DeleteContents(p: Pool, w: seq<nat>, id: PageId, q: PageId)
    requires PoolOk(p) && WritersOk(p, w) && InRange(p) && InRange(Delete(p, id).1)
    ensures Contents(Delete(p, id).1, q) == Contents(p, q)
  {
    hide HeldOk, LruOk, AllocOk;
    if id in p.table && p.frames[p.table[id]].pin == 0 {
      var f := p.table[id];
      assert f !in p.free && w[f] == 0;
    }
  }

  /** Deleting a page drops it from the pool only: its bytes are still read from the disk. */
  lemma DeleteServes(p: Pool, w: seq<nat>, model: map<PageId, Content>, id: PageId)
    requires Serves(p, w, model)
    ensures Serves(Delete(p, id).1, w, model)
  {
    hide PoolOk, WritersOk, InRange;
    DeleteKeeps(p, id);
    OkInRange(Delete(p, id).1);
    DeleteWriters(p, w, id);
    forall q ensures Contents(Delete(p, id).1, q) == Read(model, q) {
      DeleteContents(p, w, id, q);
    }
  }

  /** A client releases a page; one that has written releases it as dirty. */
  lemma UnpinServes(p: Pool, w: seq<nat>, model: map<PageId, Content>, id: PageId, dirty: bool, wrote: bool)
    requires Serves(p, w, model) && id in p.table && 0 < p.frames[p.table[id]].pin
    requires if wrote then dirty && 0 < w[p.table[id]] else w[p.table[id]] < p.frames[p.table[id]].pin
    ensures var f := p.table[id];
            Serves(Unpin(p, id, dirty).1, if wrote then w[f := w[f] - 1] else w, model)
  {
    UnpinKeeps(p, id, dirty);
    var p' := Unpin(p, id, dirty).1;
    OkInRange(p');
    assert forall q :: Contents(p', q) == Contents(p, q);
  }

  /** A client that has announced itself writes a page it has pinned. */
  lemma WriteServes(p: Pool, w: seq<nat>, model: map<PageId, Content>, f: nat, data: Content)
    requires Serves(p, w, model) && f < |w| && 0 < w[f]
    ensures Serves(p.(frames := p.frames[f := p.frames[f].(data := data)]), w, model[p.frames[f].id := data])
  {
    var p' := p.(frames := p.frames[f := p.frames[f].(data := data)]);
    assert f !in p.free && p.table[p.frames[f].id] == f;
    assert PoolOk(p');
    forall q ensures Contents(p', q) == Read(model[p.frames[f].id := data], q) {
      assert Contents(p, q) == Read(model, q);
    }
  }
}
