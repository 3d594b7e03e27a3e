/** The buffer pool manager as the program it is: each call does to its fields what the operation of the same
    name does to the pool as a value. */
module BufferPoolManagement {
  import opened Wrappers
  import opened LruReplacer
  import opened BufferPool

  lemma PinnedInRange(p: Pool, f: nat, data: Content)
    requires InRange(p) && f < |p.frames|
    ensures InRange(Pinned(p, f, data))
  {
    var s := Without(p.lru, f);
    assert forall i :: 0 <= i < |s| ==> s[i] in s;
  }

  lemma AssignInRange(p: Pool, f: nat, id: PageId)
    requires InRange(p) && f < |p.frames|
    ensures InRange(Assign(WriteBack(p, f), f, id))
  {
  }

  /** Whatever pages the one pool serves, the other does too. */
  ghost predicate SameService(p: Pool, p': Pool) {
    forall w, model :: Serves(p, w, model) ==> Serves(p', w, model)
  }

  ghost predicate SameContents(p: Pool, p': Pool)
    requires InRange(p) && InRange(p')
  {
    forall q :: Contents(p', q) == Contents(p, q)
  }

  lemma FlushKept(p0: Pool, p: Pool, id: PageId)
    requires InRange(p0) && PoolOk(p) && InRange(p) && SameService(p0, p) && SameContents(p0, p)
    ensures var p' := Flush(p, id).1; PoolOk(p') && InRange(p') && SameService(p0, p') && SameContents(p0, p')
  {
    hide Serves;
    FlushKeeps(p, id);
    var p' := Flush(p, id).1;
    OkInRange(p');
    assert forall q :: Contents(p', q) == Contents(p, q) by { hide PoolOk; FlushContents(p, id); }
    forall w, model | Serves(p0, w, model) ensures Serves(p', w, model) { FlushServes(p, w, model, id); }
  }

  lemma FlushContents(p: Pool, id: PageId)
    requires InRange(p) && InRange(Flush(p, id).1)
    ensures forall q :: Contents(Flush(p, id).1, q) == Contents(p, q)
  {
  }

  /** The pages of the file that are not in `todo` are on the disk as they are in the pool. */
  ghost predicate OnDisk(p: Pool, fd: int, todo: set<PageId>)
    requires InRange(p)
  {
    forall q :: q in p.table && q !in todo && q.fd == fd ==> Read(p.disk, q) == p.frames[p.table[q]].data
  }

  ghost predicate AllClean(p: Pool, todo: set<PageId>)
    requires InRange(p)
  {
    forall q :: q in p.table && q !in todo ==> !p.frames[p.table[q]].dirty
  }

  lemma FlushedOne(p: Pool, fd: int, todo: set<PageId>, id: PageId)
    requires InRange(p) && InRange(Flush(p, id).1) && id in p.table
    ensures OnDisk(p, fd, todo) ==> OnDisk(Flush(p, id).1, fd, todo - {id})
    ensures AllClean(p, todo) ==> AllClean(Flush(p, id).1, todo - {id})
    ensures Flush(p, id).1.table == p.table
  {
  }

  lemma Unflushed(p: Pool, fd: int)
    requires InRange(p)
    ensures SameService(p, p) && SameContents(p, p) && OnDisk(p, fd, p.table.Keys) && AllClean(p, p.table.Keys)
  {
  }

  lemma OtherFile(p: Pool, fd: int, todo: set<PageId>, id: PageId)
    requires InRange(p) && OnDisk(p, fd, todo) && id.fd != fd
    ensures OnDisk(p, fd, todo - {id})
  {
  }

  lemma CleanPage(p: Pool, todo: set<PageId>, id: PageId)
    requires InRange(p) && AllClean(p, todo) && id in p.table && !p.frames[p.table[id]].dirty
    ensures AllClean(p, todo - {id})
  {
  }

  lemma TableInRange(p: Pool, id: PageId)
    requires InRange(p) && id in p.table
    ensures p.table[id] < |p.frames|
  {
  }

  lemma DiskHasFile(p0: Pool, p: Pool, fd: int)
    requires InRange(p0) && InRange(p) && SameContents(p0, p) && OnDisk(p, fd, {})
    ensures forall q: PageId :: q.fd == fd ==> Read(p.disk, q) == Contents(p0, q)
  {
    forall q: PageId | q.fd == fd ensures Read(p.disk, q) == Contents(p0, q) {
      assert Contents(p, q) == Contents(p0, q);
    }
  }

  lemma NoneDirty(p: Pool)
    requires PoolOk(p) && InRange(p) && AllClean(p, {})
    ensures forall f :: 0 <= f < |p.frames| ==> !p.frames[f].dirty
  {
    assert forall f :: 0 <= f < |p.frames| && f !in p.free ==>
             p.frames[f].id in p.table && p.table[p.frames[f].id] == f;
  }

  /** The pages of the file that are not in `todo` sit unpinned in the listed frames, each frame listed once. */
  ghost predicate Targets(p: Pool, fd: int, todo: set<PageId>, targets: seq<nat>) {
    && Distinct(targets)
    && (forall i :: 0 <= i < |targets| ==> Target(p, fd, targets[i]) && p.frames[targets[i]].id !in todo)
    && (forall q :: q in p.table && q.fd == fd && q !in todo ==> p.table[q] in targets)
  }

  ghost predicate Target(p: Pool, fd: int, f: nat) {
    f < |p.frames| && p.frames[f].id in p.table && p.table[p.frames[f].id] == f && p.frames[f].id.fd == fd
      && p.frames[f].pin == 0
  }

  lemma NoTargets(p: Pool, fd: int)
    ensures SameService(p, p) && Targets(p, fd, p.table.Keys, [])
  {
  }

  lemma OneTarget(p: Pool, fd: int, todo: set<PageId>, targets: seq<nat>, id: PageId)
    requires PoolOk(p) && InRange(p) && Targets(p, fd, todo, targets) && id in todo && id in p.table
    requires id.fd == fd ==> p.frames[p.table[id]].pin == 0
    ensures Targets(p, fd, todo - {id}, if id.fd == fd then targets + [p.table[id]] else targets)
  {
  }

  lemma TargetsAll(p: Pool, fd: int, targets: seq<nat>)
    requires InRange(p) && Targets(p, fd, {}, targets) && PoolOk(p)
    ensures forall q :: q in p.table && q.fd == fd ==> p.frames[p.table[q]].pin == 0
  {
    forall q | q in p.table && q.fd == fd ensures p.frames[p.table[q]].pin == 0 {
      var i :| 0 <= i < |targets| && targets[i] == p.table[q];
    }
  }

  lemma FirstTarget(p: Pool, fd: int, targets: seq<nat>)
    requires Targets(p, fd, {}, targets) && targets != []
    ensures Target(p, fd, targets[0])
  {
  }

  lemma TargetsDone(p: Pool, fd: int)
    requires Targets(p, fd, {}, [])
    ensures forall q :: q in p.table ==> q.fd != fd
  {
  }

  /** Taking the page of the first target out of the pool leaves the other targets. */
  lemma DeleteKept(p0: Pool, p: Pool, fd: int, targets: seq<nat>)
    requires PoolOk(p) && InRange(p) && SameService(p0, p) && Targets(p, fd, {}, targets) && targets != []
    ensures Target(p, fd, targets[0])
    ensures var p' := WriteBack(p, targets[0]); var p2 := p'.(free := p'.free + [targets[0]]);
            && PoolOk(p2) && InRange(p2) && SameService(p0, p2) && Targets(p2, fd, {}, targets[1..])
            && p'.table == p.table - {p.frames[targets[0]].id}
  {
    var f := targets[0];
    var id := p.frames[f].id;
    var p' := WriteBack(p, f);
    var p2 := p'.(free := p'.free + [f]);
    assert Target(p, fd, f);
    assert Delete(p, id).1 == p2;
    DeleteKeeps(p, id);
    OkInRange(p2);
    forall w, model | Serves(p0, w, model) ensures Serves(p2, w, model) { DeleteServes(p, w, model, id); }
    TargetsLeft(p, p2, fd, targets);
  }

  lemma TargetsLeft(p: Pool, p2: Pool, fd: int, targets: seq<nat>)
    requires Targets(p, fd, {}, targets) && targets != [] && |p2.frames| == |p.frames|
    requires p2.table == p.table - {p.frames[targets[0]].id}
    requires forall f :: 0 <= f < |p.frames| ==>
               p2.frames[f].id == p.frames[f].id && p2.frames[f].pin == p.frames[f].pin
    requires PoolOk(p)
    ensures Targets(p2, fd, {}, targets[1..])
  {
    hide PoolOk;
    var rest := targets[1..];
    assert targets == [targets[0]] + rest;
    assert forall i :: 0 <= i < |rest| ==> rest[i] == targets[i+1];
    forall i | 0 <= i < |rest| ensures Target(p2, fd, rest[i]) {
      assert Target(p, fd, targets[i+1]) && targets[i+1] != targets[0];
    }
    TableIds(p);
    forall q | q in p2.table && q.fd == fd ensures p2.table[q] in rest {
      assert p.table[q] in targets && p.table[q] != targets[0];
    }
  }

  lemma TableIds(p: Pool)
    requires PoolOk(p)
    ensures forall q :: q in p.table ==> p.table[q] < |p.frames| && p.frames[p.table[q]].id == q
  {
  }

  class BufferPoolManager {
    var pageTable: map<PageId, nat>
    var pages: seq<Frame>
    var freeList: seq<nat>
    const replacer: LRUReplacer
    var disk: map<PageId, Content>
    var nextNo: map<int, int>

    ghost predicate Valid()
      reads this, replacer
    {
      replacer.Valid() && InRange(View())
    }

    ghost function View(): Pool
      reads this, replacer
    {
      Pool(pageTable, pages, freeList, replacer.Frames(), disk, nextNo)
    }

    constructor (n: nat, disk: map<PageId, Content>, next: map<int, int>)
      ensures Valid() && fresh(replacer)
      ensures View() == Pool(map[], seq(n, _ => Frame(PageId(-1, -1), ZeroPage(), false, 0)), seq(n, i => i), [],
                             disk, next)
    {
      pageTable, this.disk, nextNo := map[], disk, next;
      pages := seq(n, _ => Frame(PageId(-1, -1), ZeroPage(), false, 0));
      var list := [];
      for i := 0 to n
        invariant list == seq(i, k => k)
      {
        list := list + [i];
      }
      freeList := list;
      replacer := new LRUReplacer();
    }

    method FindVictimPage() returns (v: Option<nat>)
      requires Valid()
      modifies this, replacer
      ensures Valid() && (v, View()) == FindVictim(old(View()))
      ensures v.Some? ==> v.value < |pages|
    {
      if freeList != [] {
        v := Some(freeList[0]);
        freeList := freeList[1..];
      } else {
        assert replacer.Frames() != [] ==> replacer.Frames()[|replacer.Frames()|-1] < |pages|;
        v := replacer.Victim();
      }
    }

    /** Writes the frame back if it is dirty and takes its page off the table; then, if a new page is given,
        enters that page. */
    method UpdatePage(f: nat, id: Option<PageId>)
      requires f < |pages|
      modifies this
      ensures View() == if id == None then WriteBack(old(View()), f) else Assign(WriteBack(old(View()), f), f, id.value)
      ensures |pages| == |old(pages)| && pages[f].pin == old(pages)[f].pin
    {
      if pages[f].dirty {
        disk := disk[pages[f].id := pages[f].data];
        pages := pages[f := pages[f].(dirty := false)];
      }
      pageTable := pageTable - {pages[f].id};
      assert pages == old(pages)[f := old(pages)[f].(dirty := false)];
      if id.Some? {
        pages := pages[f := pages[f].(id := id.value)];
        if id.value !in pageTable { pageTable := pageTable[id.value := f]; }
      }
    }

    /** Takes the frame off the replacer and counts one more pin. */
    method PinFrame(f: nat)
      requires Valid() && f < |pages|
      modifies this, replacer
      ensures Valid() && View() == Pinned(old(View()), f, old(pages)[f].data)
    {
      replacer.Pin(f);
      pages := pages[f := pages[f].(pin := pages[f].pin + 1)];
      PinnedInRange(old(View()), f, pages[f].data);
    }

    /** Gives the frame to the page, with the page's bytes from the disk or with zero bytes, and pins it. */
    method Occupy(f: nat, id: PageId, zero: bool)
      requires Valid() && f < |pages|
      modifies this, replacer
      ensures Valid()
      ensures var p := Assign(WriteBack(old(View()), f), f, id);
              View() == Pinned(p, f, if zero then ZeroPage() else Read(p.disk, id))
    {
      UpdatePage(f, Some(id));
      AssignInRange(old(View()), f, id);
      pages := pages[f := pages[f].(data := if zero then ZeroPage() else Read(disk, id))];
      PinFrame(f);
    }

    method FetchPage(id: PageId) returns (v: Option<nat>)
      requires Valid()
      modifies this, replacer
      ensures Valid() && (v, View()) == Fetch(old(View()), id)
    {
      hide WriteBack, Assign, Pinned;
      if id in pageTable {
        var f := pageTable[id];
        PinFrame(f);
        return Some(f);
      }
      v := FindVictimPage();
      if v == None { return; }
      Occupy(v.value, id, false);
    }

    method NewPage(fd: int) returns (v: Option<(nat, PageId)>)
      requires Valid()
      modifies this, replacer
      ensures Valid() && (v, View()) == New(old(View()), fd)
    {
      hide WriteBack, Assign, Pinned;
      var f := FindVictimPage();
      if f == None { return None; }
      var id := PageId(fd, NextNo(nextNo, fd));
      nextNo := nextNo[fd := id.pageNo + 1];
      Occupy(f.value, id, true);
      v := Some((f.value, id));
    }

    method UnpinPage(id: PageId, dirty: bool) returns (ok: bool)
      requires Valid()
      modifies this, replacer
      ensures (ok, View()) == Unpin(old(View()), id, dirty)
      ensures Valid()
    {
      if id !in pageTable { return false; }
      var f := pageTable[id];
      if pages[f].pin == 0 { return false; }
      pages := pages[f := pages[f].(pin := pages[f].pin - 1)];
      if pages[f].pin == 0 { replacer.Unpin(f); }
      pages := pages[f := pages[f].(dirty := pages[f].dirty || dirty)];
      assert pages == Unpin(old(View()), id, dirty).1.frames;
      return true;
    }

    method FlushPage(id: PageId) returns (ok: bool)
      requires Valid()
      modifies this
      ensures (ok, View()) == Flush(old(View()), id)
      ensures Valid()
    {
      if id !in pageTable { return false; }
      var f := pageTable[id];
      disk := disk[id := pages[f].data];
      pages := pages[f := pages[f].(dirty := false)];
      return true;
    }

    method DeletePage(id: PageId) returns (ok: bool)
      requires Valid()
      modifies this
      ensures (ok, View()) == Delete(old(View()), id)
      ensures Valid()
    {
      if id !in pageTable { return true; }
      var f := pageTable[id];
      if pages[f].pin != 0 { return false; }
      UpdatePage(f, None);
      freeList := freeList + [f];
      return true;
    }

    /** Writes every page of a file in the pool to the disk. Afterwards the disk alone has the file's pages. */
    method FlushAllPages(fd: int)
      requires Valid() && PoolOk(View())
      modifies this
      ensures Valid() && PoolOk(View()) && pageTable == old(pageTable)
      ensures SameService(old(View()), View())
      ensures forall q: PageId :: q.fd == fd ==> Read(disk, q) == Contents(old(View()), q)
    {
      hide PoolOk, InRange, Flush, SameService, SameContents, Contents, OnDisk;
      var todo := pageTable.Keys;
      ghost var p0 := View();
      assert SameService(p0, p0) && SameContents(p0, p0) && OnDisk(p0, fd, todo) by { Unflushed(p0, fd); }
      while todo != {}
        invariant Valid() && PoolOk(View()) && pageTable == old(pageTable) && todo <= pageTable.Keys
        invariant SameService(p0, View()) && SameContents(p0, View()) && OnDisk(View(), fd, todo)
        decreases |todo|
      {
        var id :| id in todo;
        if id.fd == fd {
          FlushKept(p0, View(), id);
          FlushedOne(View(), fd, todo, id);
          var _ := FlushPage(id);
        } else {
          assert OnDisk(View(), fd, todo - {id}) by { OtherFile(View(), fd, todo, id); }
        }
        todo := todo - {id};
      }
      DiskHasFile(p0, View(), fd);
    }

    /** Writes every dirty page in the pool to the disk. Afterwards no frame is dirty. */
    method FlushAllPage()
      requires Valid() && PoolOk(View())
      modifies this
      ensures Valid() && PoolOk(View()) && pageTable == old(pageTable)
      ensures SameService(old(View()), View())
      ensures forall f :: 0 <= f < |pages| ==> !pages[f].dirty
    {
      hide PoolOk, InRange, Flush, SameService, SameContents, Contents, AllClean;
      var todo := pageTable.Keys;
      ghost var p0 := View();
      assert SameService(p0, p0) && SameContents(p0, p0) && AllClean(p0, todo) by { Unflushed(p0, 0); }
      while todo != {}
        invariant Valid() && PoolOk(View()) && pageTable == old(pageTable) && todo <= pageTable.Keys
        invariant SameService(p0, View()) && SameContents(p0, View()) && AllClean(View(), todo)
        decreases |todo|
      {
        var id :| id in todo;
        assert pageTable[id] < |pages| by { TableInRange(View(), id); }
        if pages[pageTable[id]].dirty {
          FlushKept(p0, View(), id);
          FlushedOne(View(), 0, todo, id);
          var _ := FlushPage(id);
        } else {
          assert AllClean(View(), todo - {id}) by { CleanPage(View(), todo, id); }
        }
        todo := todo - {id};
      }
      NoneDirty(View());
    }

    /** Takes all pages of a file out of the pool, unless one of them is pinned. */
    method DeleteAllPage(fd: int) returns (ok: bool)
      requires Valid() && PoolOk(View())
      modifies this
      ensures Valid() && PoolOk(View())
      ensures ok <==> forall q :: q in old(pageTable) && q.fd == fd ==> old(pages)[old(pageTable)[q]].pin == 0
      ensures !ok ==> View() == old(View())
      ensures ok ==> pageTable == map q | q in old(pageTable) && q.fd != fd :: old(pageTable)[q]
      ensures SameService(old(View()), View())
    {
      hide PoolOk, InRange, SameService, Targets, WriteBack;
      var targets: seq<nat> := [];
      var todo := pageTable.Keys;
      ghost var p0 := View();
      assert SameService(p0, p0) && Targets(p0, fd, todo, []) by { NoTargets(p0, fd); }
      while todo != {}
        invariant Valid() && View() == p0 && todo <= pageTable.Keys && Targets(p0, fd, todo, targets)
        decreases |todo|
      {
        var id :| id in todo;
        assert pageTable[id] < |pages| by { TableInRange(p0, id); }
        if id.fd == fd && pages[pageTable[id]].pin != 0 { return false; }
        OneTarget(p0, fd, todo, targets, id);
        if id.fd == fd { targets := targets + [pageTable[id]]; }
        todo := todo - {id};
      }
      ghost var all := targets;
      TargetsAll(p0, fd, all);
      while targets != []
        invariant Valid() && PoolOk(View()) && SameService(p0, View()) && Targets(View(), fd, {}, targets)
        invariant forall q :: q in p0.table && q.fd != fd ==> q in pageTable && pageTable[q] == p0.table[q]
        invariant forall q :: q in pageTable ==> q in p0.table && pageTable[q] == p0.table[q]
        decreases |targets|
      {
        var f := targets[0];
        ghost var p := View();
        assert f < |pages| && pages[f].id in pageTable && pageTable[pages[f].id] == f && pages[f].pin == 0
               && pages[f].id.fd == fd by {
          FirstTarget(p, fd, targets);
        }
        DeleteKept(p0, p, fd, targets);
        UpdatePage(f, None);
        freeList := freeList + [f];
        targets := targets[1..];
      }
      assert forall q :: q in pageTable ==> q.fd != fd by { TargetsDone(View(), fd); }
      return true;
    }
  }
}
