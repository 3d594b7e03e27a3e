/** Aborting a transaction: its writes undone on the table files, from the last to the first. */
module TransactionAbort {
  import opened RecordPages
  import opened RecordFile
  import opened Rollback
  import opened RollbackPlaces

  /** What a transaction remembers of a write. */
  datatype WriteRecord =
    | InsertTuple(at: Place)
    | DeleteTuple(at: Place, rec: Record)
    | UpdateTuple(at: Place, rec: Record)

  function RecordOf(op: Op): WriteRecord {
    match op
    case Insert(r, rec) => InsertTuple(r)
    case Delete(r, was) => DeleteTuple(r, was)
    case Update(r, was, rec) => UpdateTuple(r, was)
  }

  type Files = map<string, RmFileHandle>

  predicate Distinct(files: Files) {
    forall a, b :: a in files && b in files && files[a] == files[b] ==> a == b
  }

  ghost predicate AllValid(files: Files)
    reads files.Values
  {
    forall a :: a in files ==> files[a].Valid()
  }

  ghost function TableRows(files: Files): map<string, Rows>
    reads files.Values
  {
    map a | a in files :: files[a].rows
  }

  /** The tables hold exactly the rows of `t`. */
  ghost predicate Hold(tabs: map<string, Rows>, t: Store) {
    && (forall p :: p in t ==> p.tab in tabs && p.rid in tabs[p.tab] && tabs[p.tab][p.rid] == t[p])
    && (forall a, r :: a in tabs && r in tabs[a] ==> Place(a, r) in t)
  }

  lemma HoldPut(tabs: map<string, Rows>, t: Store, p: Place, rec: Record)
    requires Hold(tabs, t) && p.tab in tabs
    ensures Hold(tabs[p.tab := tabs[p.tab][p.rid := rec]], t[p := rec])
  {
  }

  lemma HoldDrop(tabs: map<string, Rows>, t: Store, p: Place)
    requires Hold(tabs, t) && p.tab in tabs
    ensures Hold(tabs[p.tab := tabs[p.tab] - {p.rid}], t - {p})
  {
  }

  lemma HoldRow(tabs: map<string, Rows>, t: Store, p: Place)
    requires Hold(tabs, t) && p in t
    ensures p.tab in tabs && p.rid in tabs[p.tab] && tabs[p.tab][p.rid] == t[p]
  {
  }

  lemma HoldHas(tabs: map<string, Rows>, t: Store, p: Place)
    requires Hold(tabs, t) && p.tab in tabs
    ensures p in t <==> p.rid in tabs[p.tab]
  {
    if p.rid in tabs[p.tab] { assert Place(p.tab, p.rid) in t; }
  }

  lemma RowInFile(file: RmFileHandle, r: Rid)
    requires file.Valid() && r in file.rows
    ensures file.InFile(r)
  {
    RowPlace(file.pages, file.numPages, file.numRecordsPerPage, file.rows, r);
  }

  // ---------- how far the files reach ----------

  type Counts = map<string, int>

  ghost function PageCounts(files: Files): Counts
    reads files.Values
  {
    map a | a in files :: files[a].numPages
  }

  ghost function Rooms(files: Files): Counts {
    map a | a in files :: files[a].numRecordsPerPage
  }

  ghost function AllocsOf(files: Files): Allocs
    reads files.Values
  {
    map a | a in files :: AllocOf(files[a])
  }

  lemma HoldFull(tabs: map<string, Rows>, t: Store, a: string, k: int, n: nat)
    requires Hold(tabs, t) && a in tabs
    ensures FullRows(tabs[a], k, n) <==> FullPage(t, a, k, n)
  {
    forall s ensures Rid(k, s) in tabs[a] <==> Place(a, Rid(k, s)) in t { HoldHas(tabs, t, Place(a, Rid(k, s))); }
  }

  /** A file that puts a row into the lowest free slot of its first page with room. */
  lemma PutChoice(tabs: map<string, Rows>, t: Store, a: string, al: Alloc, rid: Rid, rec: Record, al': Alloc)
    requires Hold(tabs, t) && a in tabs && rid !in tabs[a] && 0 <= rid.slotNo < al.room
             && rid.pageNo == WithRoom(al).free[0]
    requires forall s :: 0 <= s < rid.slotNo ==> Rid(rid.pageNo, s) in tabs[a][rid := rec]
    requires var r := WithRoom(al);
             al' == r.(free := if FullRows(tabs[a][rid := rec], r.free[0], r.room) then r.free[1..] else r.free)
    ensures Place(a, rid) == Choice(t, a, al) && al' == AfterPut(t[Place(a, rid) := rec], a, al)
  {
    hide Hold, FullRows, FullPage;
    var p := Place(a, rid);
    HoldHas(tabs, t, p);
    forall s | 0 <= s < rid.slotNo
      ensures Place(a, Rid(rid.pageNo, s)) in t
    {
      HoldHas(tabs, t, Place(a, Rid(rid.pageNo, s)));
    }
    FreeSlotIs(t, a, rid.pageNo, rid.slotNo, al.room, 0);
    HoldPut(tabs, t, p, rec);
    HoldFull(tabs[a := tabs[a][rid := rec]], t[p := rec], a, rid.pageNo, al.room);
  }

  lemma FilesTidy(files: Files, t: Store)
    requires AllValid(files) && Hold(TableRows(files), t)
    ensures Tidy(t, AllocsOf(files))
  {
    hide Hold, FileOk, FullPage;
    forall a | a in files ensures TidyTable(t, a, AllocsOf(files)[a]) { FileTidy(files[a], TableRows(files), t, a); }
  }

  lemma FileTidy(file: RmFileHandle, tabs: map<string, Rows>, t: Store, a: string)
    requires file.Valid() && Hold(tabs, t) && a in tabs && tabs[a] == file.rows
    ensures TidyTable(t, a, Alloc(file.free, file.numPages, file.numRecordsPerPage))
  {
    hide FullRows, FullPage, PagesOk, RowsOk, Hold;
    forall k | k in file.free ensures k < file.numPages && !FullPage(t, a, k, file.numRecordsPerPage) {
      var i :| 0 <= i < |file.free| && file.free[i] == k;
      assert LinkOk(file.pages, file.free, i);
      PageInFile(file.pages, file.numPages, file.numRecordsPerPage, k);
      FullIsRows(file.pages, file.numPages, file.numRecordsPerPage, file.rows, k);
      HoldFull(tabs, t, a, k, file.numRecordsPerPage);
    }
    forall r | Place(a, r) in t ensures r.pageNo < file.numPages {
      HoldHas(tabs, t, Place(a, r));
      RowPlace(file.pages, file.numPages, file.numRecordsPerPage, file.rows, r);
    }
  }

  lemma InsideOnFiles(files: Files, ops: seq<Op>)
    requires AllInside(PageCounts(files), Rooms(files), ops)
    ensures OnFiles(ops, AllocsOf(files))
  {
    forall i | 0 <= i < |ops|
      ensures ops[i].at.tab in files && 0 <= ops[i].at.rid.slotNo < files[ops[i].at.tab].numRecordsPerPage
    {
      assert Inside(PageCounts(files), Rooms(files), ops[i].at);
    }
  }

  /** The place is in one of the pages of its file. */
  ghost predicate Inside(np: Counts, rooms: Counts, p: Place) {
    p.tab in np && p.tab in rooms && RM_FIRST_RECORD_PAGE <= p.rid.pageNo < np[p.tab]
      && 0 <= p.rid.slotNo < rooms[p.tab]
  }

  ghost predicate AllInside(np: Counts, rooms: Counts, ops: seq<Op>) {
    forall i :: 0 <= i < |ops| ==> Inside(np, rooms, ops[i].at)
  }

  /** Table `a` has every one of its slots in use. */
  ghost predicate FullTable(tabs: map<string, Rows>, np: Counts, rooms: Counts, a: string)
    requires a in tabs && a in np && a in rooms
  {
    |tabs[a]| == rooms[a] * (np[a] - 1)
  }

  ghost function Grown(tabs: map<string, Rows>, np: Counts, rooms: Counts, a: string): Counts
    requires a in tabs && a in np && a in rooms
  {
    np[a := np[a] + if FullTable(tabs, np, rooms, a) then 1 else 0]
  }

  ghost predicate Reaches(np: Counts, np': Counts) {
    np'.Keys == np.Keys && forall a :: a in np ==> np[a] <= np'[a]
  }

  lemma InsideStays(np: Counts, np': Counts, rooms: Counts, ops: seq<Op>)
    requires AllInside(np, rooms, ops) && Reaches(np, np')
    ensures AllInside(np', rooms, ops)
  {
  }

  /** A table has no more rows than there are in all. */
  lemma {:induction false} TableSize(rows: Rows, t: Store, a: string)
    requires forall r :: r in rows ==> Place(a, r) in t
    ensures |rows| <= |t|
    decreases |rows|
  {
    if rows != map[] {
      var r :| r in rows;
      var rows', t' := rows - {r}, t - {Place(a, r)};
      assert |rows'| == |rows| - 1 && |t'| == |t| - 1;
      TableSize(rows', t', a);
    }
  }

  // ---------- one write on the files ----------

  ghost function AllocOf(file: RmFileHandle): Alloc
    reads file
  {
    Alloc(file.free, file.numPages, file.numRecordsPerPage)
  }

  ghost function OtherFiles(files: Files, tab: string): set<RmFileHandle> {
    set a | a in files && a != tab :: files[a]
  }

  /** What the files of all tables but one say. */
  ghost predicate Others(files: Files, tab: string, tabs: map<string, Rows>, np: Counts, als: Allocs)
    reads OtherFiles(files, tab)
  {
    && tabs.Keys == np.Keys == als.Keys == files.Keys
    && forall a :: a in files && a != tab ==>
         files[a].Valid() && tabs[a] == files[a].rows && np[a] == files[a].numPages && als[a] == AllocOf(files[a])
  }

  lemma OthersBefore(files: Files, tab: string)
    requires tab in files && Distinct(files) && AllValid(files)
    ensures Others(files, tab, TableRows(files), PageCounts(files), AllocsOf(files))
            && files[tab] !in OtherFiles(files, tab)
  {
    hide FileOk;
  }

  lemma OtherRows(files: Files, tab: string, tabs: map<string, Rows>, np: Counts, als: Allocs)
    requires tab in files && Others(files, tab, tabs, np, als)
    ensures TableRows(files) == tabs[tab := files[tab].rows]
  {
    hide FileOk;
    var m, w := TableRows(files), tabs[tab := files[tab].rows];
    assert m.Keys == w.Keys;
    forall a | a in m ensures m[a] == w[a] { }
  }

  lemma OtherCounts(files: Files, tab: string, tabs: map<string, Rows>, np: Counts, als: Allocs)
    requires tab in files && Others(files, tab, tabs, np, als)
    ensures PageCounts(files) == np[tab := files[tab].numPages]
  {
    hide FileOk;
    var m, w := PageCounts(files), np[tab := files[tab].numPages];
    assert m.Keys == w.Keys;
    forall a | a in m ensures m[a] == w[a] { }
  }

  lemma OtherAllocs(files: Files, tab: string, tabs: map<string, Rows>, np: Counts, als: Allocs)
    requires tab in files && Others(files, tab, tabs, np, als)
    ensures AllocsOf(files) == als[tab := AllocOf(files[tab])]
  {
    hide FileOk;
    var m, w := AllocsOf(files), als[tab := AllocOf(files[tab])];
    assert m.Keys == w.Keys;
    forall a | a in m ensures m[a] == w[a] { }
  }

  lemma OthersAfter(files: Files, tab: string, tabs: map<string, Rows>, np: Counts, als: Allocs)
    requires tab in files && Others(files, tab, tabs, np, als) && files[tab].Valid()
    ensures AllValid(files) && TableRows(files) == tabs[tab := files[tab].rows]
    ensures PageCounts(files) == np[tab := files[tab].numPages] && AllocsOf(files) == als[tab := AllocOf(files[tab])]
  {
    hide FileOk, TableRows, PageCounts, AllocsOf;
    OtherRows(files, tab, tabs, np, als);
    OtherCounts(files, tab, tabs, np, als);
    OtherAllocs(files, tab, tabs, np, als);
  }

  lemma TableFacts(files: Files, tab: string)
    requires tab in files && AllValid(files)
    ensures files[tab].Valid() && tab in TableRows(files) && TableRows(files)[tab] == files[tab].rows
    ensures tab in PageCounts(files) && PageCounts(files)[tab] == files[tab].numPages
    ensures tab in Rooms(files) && Rooms(files)[tab] == files[tab].numRecordsPerPage
    ensures tab in AllocsOf(files) && AllocsOf(files)[tab] == AllocOf(files[tab])
  {
  }

  method InsertRow(files: Files, tab: string, rec: Record, ghost t: Store) returns (rid: Rid)
    requires Distinct(files) && AllValid(files) && Hold(TableRows(files), t) && tab in files
    modifies files[tab]
    ensures AllValid(files) && Hold(TableRows(files), t[Place(tab, rid) := rec]) && Place(tab, rid) !in t
    ensures rid !in old(files[tab].rows) && files[tab].rows == old(files[tab].rows)[rid := rec]
    ensures TableRows(files) == old(TableRows(files))[tab := files[tab].rows]
    ensures PageCounts(files) == Grown(old(TableRows(files)), old(PageCounts(files)), Rooms(files), tab)
    ensures Inside(PageCounts(files), Rooms(files), Place(tab, rid)) && LowestAt(t, Place(tab, rid))
    ensures var al := old(AllocsOf(files))[tab];
            && Place(tab, rid) == Choice(t, tab, al)
            && AllocsOf(files) == old(AllocsOf(files))[tab := AfterPut(t[Place(tab, rid) := rec], tab, al)]
  {
    hide FileOk, Hold, LowestAt, FullRows, Choice, AfterPut, AllValid, TableRows, PageCounts, AllocsOf, Rooms, Others;
    ghost var tabs, np, als, al := TableRows(files), PageCounts(files), AllocsOf(files), AllocOf(files[tab]);
    TableFacts(files, tab);
    OthersBefore(files, tab);
    rid := files[tab].InsertRecord(rec);
    OthersAfter(files, tab, tabs, np, als);
    TableFacts(files, tab);
    PutChoice(tabs, t, tab, al, rid, rec, AllocOf(files[tab]));
    HoldHas(tabs, t, Place(tab, rid));
    HoldPut(tabs, t, Place(tab, rid), rec);
    HoldBelow(tabs, t, tab, rid);
  }

  lemma HoldBelow(tabs: map<string, Rows>, t: Store, tab: string, rid: Rid)
    requires Hold(tabs, t) && tab in tabs && forall s :: 0 <= s < rid.slotNo ==> Rid(rid.pageNo, s) in tabs[tab]
    ensures LowestAt(t, Place(tab, rid))
  {
  }

  method DeleteRow(files: Files, tab: string, rid: Rid, ghost t: Store) returns (was: Record)
    requires Distinct(files) && AllValid(files) && Hold(TableRows(files), t) && tab in files && Place(tab, rid) in t
    modifies files[tab]
    ensures AllValid(files) && Hold(TableRows(files), t - {Place(tab, rid)}) && was == t[Place(tab, rid)]
    ensures rid in old(files[tab].rows) && was == old(files[tab].rows)[rid]
    ensures files[tab].rows == old(files[tab].rows) - {rid}
    ensures TableRows(files) == old(TableRows(files))[tab := files[tab].rows]
    ensures PageCounts(files) == old(PageCounts(files)) && Inside(PageCounts(files), Rooms(files), Place(tab, rid))
    ensures AllocsOf(files) == old(AllocsOf(files))[tab := AfterDrop(t, Place(tab, rid), old(AllocsOf(files))[tab])]
  {
    hide FileOk, Hold, FullRows, FullPage, AllValid, TableRows, PageCounts, AllocsOf, Rooms, Others;
    ghost var tabs, np, als := TableRows(files), PageCounts(files), AllocsOf(files);
    TableFacts(files, tab);
    OthersBefore(files, tab);
    HoldRow(tabs, t, Place(tab, rid));
    HoldFull(tabs, t, tab, rid.pageNo, files[tab].numRecordsPerPage);
    RowInFile(files[tab], rid);
    var rec := files[tab].GetRecord(rid);
    was := rec.value;
    var _ := files[tab].DeleteRecord(rid);
    OthersAfter(files, tab, tabs, np, als);
    TableFacts(files, tab);
    assert np[tab := np[tab]] == np;
    HoldDrop(tabs, t, Place(tab, rid));
  }

  /** Overwrites a slot, which changes the row there if there is one. */
  method UpdateRow(files: Files, tab: string, rid: Rid, rec: Record, ghost t: Store) returns (was: Record)
    requires Distinct(files) && AllValid(files) && Hold(TableRows(files), t)
             && Inside(PageCounts(files), Rooms(files), Place(tab, rid))
    requires tab in files
    modifies files[tab]
    ensures AllValid(files) && Hold(TableRows(files), if Place(tab, rid) in t then t[Place(tab, rid) := rec] else t)
    ensures Place(tab, rid) in t ==> was == t[Place(tab, rid)]
    ensures Place(tab, rid) in t ==> rid in old(files[tab].rows) && was == old(files[tab].rows)[rid]
    ensures var rows := old(files[tab].rows); files[tab].rows == if rid in rows then rows[rid := rec] else rows
    ensures TableRows(files) == old(TableRows(files))[tab := files[tab].rows]
    ensures PageCounts(files) == old(PageCounts(files)) && AllocsOf(files) == old(AllocsOf(files))
  {
    hide FileOk, Hold, AllValid, TableRows, PageCounts, AllocsOf, Rooms, Others;
    ghost var tabs, np, als := TableRows(files), PageCounts(files), AllocsOf(files);
    TableFacts(files, tab);
    OthersBefore(files, tab);
    if Place(tab, rid) in t { HoldRow(tabs, t, Place(tab, rid)); }
    HoldHas(tabs, t, Place(tab, rid));
    var before := files[tab].GetRecord(rid);
    was := before.value;
    var _ := files[tab].UpdateRecord(rid, rec);
    OthersAfter(files, tab, tabs, np, als);
    TableFacts(files, tab);
    assert np[tab := np[tab]] == np && als[tab := als[tab]] == als && tabs[tab := tabs[tab]] == tabs;
    HoldPut(tabs, t, Place(tab, rid), rec);
  }

  /** The rows of a file before and after a write is undone: an inserted row is taken out, a deleted one put in at a
      free place, and an updated one has its old record again, if it is there. */
  ghost predicate RowsUndone(wr: WriteRecord, rows: Rows, rows': Rows, to: Rid) {
    match wr
    case InsertTuple(at) => at.rid in rows && rows' == rows - {at.rid}
    case DeleteTuple(_, rec) => to !in rows && rows' == rows[to := rec]
    case UpdateTuple(at, rec) => rows' == if at.rid in rows then rows[at.rid := rec] else rows
  }

  /** Undoes one write. */
  method UndoWrite(files: Files, wr: WriteRecord, ghost op: Op, ghost t: Store) returns (ghost to: Place)
    requires Distinct(files) && AllValid(files) && Hold(TableRows(files), t) && wr == RecordOf(op)
    requires Inside(PageCounts(files), Rooms(files), op.at) && (op.Insert? ==> op.at in t) && op.at.tab in files
    modifies files[op.at.tab]
    ensures AllValid(files) && Hold(TableRows(files), UndoOne(t, op, to))
    ensures op.Delete? ==>
              to !in t && to.tab == op.at.tab && LowestAt(t, to) && Inside(PageCounts(files), Rooms(files), to)
    ensures PageCounts(files) ==
            if op.Delete? then Grown(old(TableRows(files)), old(PageCounts(files)), Rooms(files), op.at.tab)
            else old(PageCounts(files))
    ensures to == OwnPlace(t, op, old(AllocsOf(files))) && AllocsOf(files) == AllocsUndo(t, op, old(AllocsOf(files)))
    ensures TableRows(files) == old(TableRows(files))[op.at.tab := files[op.at.tab].rows]
    ensures RowsUndone(wr, old(files[op.at.tab].rows), files[op.at.tab].rows, to.rid)
  {
    hide AllValid, Hold, Distinct, FullTable, LowestAt, Choice, AfterPut, AfterDrop;
    to := wr.at;
    match wr {
      case InsertTuple(at) =>
        var _ := DeleteRow(files, at.tab, at.rid, t);
      case DeleteTuple(at, rec) =>
        var rid := InsertRow(files, at.tab, rec, t);
        to := Place(at.tab, rid);
      case UpdateTuple(at, rec) =>
        var _ := UpdateRow(files, at.tab, at.rid, rec, t);
    }
  }

  /** Undoing an insert whose row is gone damages the file. */
  method UndoGone(files: Files, at: Place, ghost t: Store)
    requires Distinct(files) && AllValid(files) && Hold(TableRows(files), t)
             && Inside(PageCounts(files), Rooms(files), at)
    requires at !in t && at.tab in files
    modifies files[at.tab]
    ensures !files[at.tab].Sound() && PageCounts(files) == old(PageCounts(files))
  {
    hide FileOk, Hold;
    HoldHas(TableRows(files), t, at);
    var _ := files[at.tab].DeleteRecord(at.rid);
  }

  lemma AfterSnoc(s: Store, ops: seq<Op>, op: Op)
    requires LegalRun(s, ops) && Legal(After(s, ops), op)
    ensures LegalRun(s, ops + [op]) && After(s, ops + [op]) == Apply(After(s, ops), op)
  {
    assert (ops + [op])[..|ops|] == ops;
  }

  /** The write set remembers the writes. */
  ghost predicate Logged(files: Files, writeSet: seq<WriteRecord>, ops: seq<Op>) {
    |writeSet| == |ops| && forall i :: 0 <= i < |ops| ==> writeSet[i] == RecordOf(ops[i]) && ops[i].at.tab in files
  }

  lemma LoggedSnoc(files: Files, writeSet: seq<WriteRecord>, ops: seq<Op>, op: Op)
    requires Logged(files, writeSet, ops) && op.at.tab in files
    ensures Logged(files, writeSet + [RecordOf(op)], ops + [op])
  {
  }

  lemma LoggedLast(files: Files, writeSet: seq<WriteRecord>, ops: seq<Op>)
    requires Logged(files, writeSet, ops)
    ensures |writeSet| == |ops|
    ensures ops != [] ==>
              var n := |ops| - 1;
              writeSet[n] == RecordOf(ops[n]) && ops[n].at.tab in files && Logged(files, writeSet[..n], ops[..n])
  {
  }

  /** A transaction over the tables: its writes, and its rollback. */
  class Transaction {
    const files: Files
    var writeSet: seq<WriteRecord>

    ghost const start: Store
    ghost var ops: seq<Op>

    /** The tables are what the writes so far have made of the rows at the start. */
    ghost predicate Valid()
      reads this, files.Values
    {
      && Distinct(files) && AllValid(files)
      && LegalRun(start, ops) && Hold(TableRows(files), After(start, ops))
      && Logged(files, writeSet, ops) && AllInside(PageCounts(files), Rooms(files), ops)
    }

    constructor (files: Files, ghost rows: Store)
      requires Distinct(files) && AllValid(files) && Hold(TableRows(files), rows)
      ensures Valid() && ops == [] && start == rows && this.files == files
    {
      hide FileOk, Hold;
      this.files, writeSet, start, ops := files, [], rows, [];
    }

    method InsertTuple(tab: string, rec: Record) returns (rid: Rid)
      requires Valid() && tab in files
      modifies this, files[tab]
      ensures Valid() && ops == old(ops) + [Insert(Place(tab, rid), rec)]
              && LowestAt(After(start, old(ops)), Place(tab, rid))
      ensures rid !in old(files[tab].rows) && files[tab].rows == old(files[tab].rows)[rid := rec]
      ensures TableRows(files) == old(TableRows(files))[tab := files[tab].rows]
      ensures PageCounts(files) == Grown(old(TableRows(files)), old(PageCounts(files)), Rooms(files), tab)
    {
      hide AllValid, Hold, Distinct, After, LegalRun, Logged, AllInside, Inside, LowestAt, FullTable, AllocsOf, Choice,
           AfterPut;
      ghost var np, rooms := PageCounts(files), Rooms(files);
      rid := InsertRow(files, tab, rec, After(start, ops));
      InsideStays(np, PageCounts(files), rooms, ops);
      Note(Insert(Place(tab, rid), rec), WriteRecord.InsertTuple(Place(tab, rid)));
    }

    method DeleteTuple(tab: string, rid: Rid)
      requires Valid() && tab in files && Place(tab, rid) in After(start, ops)
      modifies this, files[tab]
      ensures Valid() && ops == old(ops) + [Delete(Place(tab, rid), old(After(start, ops)[Place(tab, rid)]))]
      ensures rid in old(files[tab].rows) && ops[|old(ops)|].was == old(files[tab].rows)[rid]
      ensures files[tab].rows == old(files[tab].rows) - {rid}
      ensures TableRows(files) == old(TableRows(files))[tab := files[tab].rows]
      ensures PageCounts(files) == old(PageCounts(files))
    {
      hide AllValid, Hold, TableRows, Distinct, After, LegalRun, Logged, AllInside, Inside, PageCounts;
      var was := DeleteRow(files, tab, rid, After(start, ops));
      Note(Delete(Place(tab, rid), was), WriteRecord.DeleteTuple(Place(tab, rid), was));
    }

    method UpdateTuple(tab: string, rid: Rid, rec: Record)
      requires Valid() && tab in files && Place(tab, rid) in After(start, ops)
      modifies this, files[tab]
      ensures Valid() && ops == old(ops) + [Update(Place(tab, rid), old(After(start, ops)[Place(tab, rid)]), rec)]
      ensures rid in old(files[tab].rows) && ops[|old(ops)|].was == old(files[tab].rows)[rid]
      ensures files[tab].rows == old(files[tab].rows)[rid := rec]
      ensures TableRows(files) == old(TableRows(files))[tab := files[tab].rows]
      ensures PageCounts(files) == old(PageCounts(files))
    {
      hide AllValid, Hold, TableRows, Distinct, After, LegalRun, Logged, AllInside, Inside, PageCounts;
      assert Inside(PageCounts(files), Rooms(files), Place(tab, rid)) by {
        RowInside(files, After(start, ops), Place(tab, rid));
      }
      var was := UpdateRow(files, tab, rid, rec, After(start, ops));
      Note(Update(Place(tab, rid), was, rec), WriteRecord.UpdateTuple(Place(tab, rid), was));
    }

    /** Appends a write that has just been made to the write set. */
    method Note(ghost op: Op, wr: WriteRecord)
      requires Distinct(files) && AllValid(files) && Logged(files, writeSet, ops) && wr == RecordOf(op)
               && op.at.tab in files
      requires LegalRun(start, ops) && Legal(After(start, ops), op)
               && Hold(TableRows(files), Apply(After(start, ops), op))
      requires AllInside(PageCounts(files), Rooms(files), ops) && Inside(PageCounts(files), Rooms(files), op.at)
      modifies this
      ensures Valid() && ops == old(ops) + [op]
    {
      hide AllValid, Hold, TableRows, Distinct, After, LegalRun, Logged, PageCounts, Inside;
      AfterSnoc(start, ops, op);
      LoggedSnoc(files, writeSet, ops, op);
      writeSet := writeSet + [wr];
      ops := ops + [op];
    }

    /** The places that the files will choose when the writes are undone. */
    ghost function Ahead(): (to: seq<Place>)
      reads this, files.Values
      ensures |to| == |ops|
    {
      Choices(After(start, ops), AllocsOf(files), ops)
    }

    /** Undoes all writes, re-inserting rows where the files put them: into the lowest free slot of a page. If an insert
        is undone whose row is gone, a file is damaged, and the rollback is followed no further; `left` writes are then
        not undone. This does not happen to a transaction that has deleted no row that it had inserted or updated, and
        every row of the start is back then; so it is whenever the places that the files will choose, told beforehand,
        put such rows back where they were. Files that have room for all rows and re-insertions get no new page. */
    method Abort() returns (sound: bool, ghost to: seq<Place>, ghost left: nat, ghost m: map<Place, Place>)
      requires Valid()
      modifies this, files.Values
      ensures |to| == |old(ops)| && Allocates(After(start, old(ops)), old(ops), to)
              && Lowest(After(start, old(ops)), old(ops), to)
      ensures sound <==> Survives(After(start, old(ops)), old(ops), to)
      ensures left <= |old(ops)| && AllPut(PageCounts(files), Rooms(files), old(ops), left, to[left..])
      ensures SizeKept(old(PageCounts(files)), PageCounts(files), Rooms(files), |After(start, old(ops))| + |old(ops)|)
      ensures if sound then left == 0
              else 0 < left && old(ops)[left-1].Insert? && exists a :: a in files && !files[a].Sound()
      ensures sound ==>
                writeSet == [] && AllValid(files) && Hold(TableRows(files), Undo(After(start, old(ops)), old(ops), to))
      ensures sound && Placed(old(ops), to) ==> Clean(After(start, old(ops)), old(ops), to)
      ensures sound && Placed(old(ops), to) ==> Moved(start, Undo(After(start, old(ops)), old(ops), to), m)
      ensures sound && Placed(old(ops), to) ==>
                forall r :: r in start && !DeletedIn(old(ops), r) ==> r in m && m[r] == r
      ensures Safe(old(ops)) ==> sound && Placed(old(ops), to)
      ensures sound ==> to == old(Ahead())
      ensures Placed(old(ops), old(Ahead())) ==> sound
    {
      hide AllValid, Hold, TableRows, Distinct, Moved, Logged, After, LegalRun, UndoneTo, Safe, Undo, Allocates, Clean,
           Lowest,
           Survives, AllInside, PageCounts, Placed, AllPut, SizeKept, Going, DeletedIn, Rolled, Tidy, OnFiles, OnCourse,
           Choices, AllocsOf;
      ghost var t0, np0, als0 := After(start, ops), PageCounts(files), AllocsOf(files);
      FilesTidy(files, t0);
      InsideOnFiles(files, ops);
      ghost var g := Progress(t0, [], true);
      m := map[];
      GoingFirst(files, writeSet, start, ops);
      while writeSet != []
        invariant Going(files, writeSet, ops, t0, np0, als0, g) && ops == old(ops)
        decreases |writeSet|
      {
        GoingFacts(files, writeSet, ops, t0, np0, als0, g);
        ghost var als := AllocsOf(files);
        sound, g := UndoLast(files, writeSet, start, ops, np0, als0, g);
        if !sound {
          left := |writeSet|;
          if Placed(ops, Choices(t0, als0, ops)) {
            PlacedFound(start, als0, ops, left, g.t, als, g.to, g.found);
            assert false;
          }
          to := MissingRow(start, ops, left, g.t, g.to, g.found);
          return;
        }
        writeSet := writeSet[..|writeSet|-1];
      }
      sound, to, left := true, g.to, 0;
      GoingLast(files, ops, t0, np0, als0, g);
      RolledIs(t0, ops, to);
      SafeIsPlaced(ops, to);
      assert to[0..] == to;
      if Placed(ops, to) { m := PlacedRollback(start, ops, to); }
    }
  }

  lemma RolledIs(t0: Store, ops: seq<Op>, to: seq<Place>)
    requires Rolled(t0, ops, to)
    ensures |to| == |ops| && Allocates(t0, ops, to) && Lowest(t0, ops, to) && Survives(t0, ops, to)
  {
  }

  lemma GoingFacts(files: Files, writeSet: seq<WriteRecord>, ops: seq<Op>, t0: Store, np0: Counts, als0: Allocs,
                   g: Progress)
    requires Going(files, writeSet, ops, t0, np0, als0, g)
    ensures |writeSet| <= |ops| && UndoneTo(t0, ops, |writeSet|, g.t, g.to, g.found)
    ensures OnCourse(t0, als0, ops, |writeSet|, g.t, AllocsOf(files), g.to)
    ensures AllPut(PageCounts(files), Rooms(files), ops, |writeSet|, g.to)
            && SizeKept(np0, PageCounts(files), Rooms(files), |t0| + |ops|)
  {
  }

  /** How far a rollback has come: the rows, the places chosen, and whether all rows looked for were there. */
  datatype Progress = Progress(t: Store, to: seq<Place>, found: bool)

  /** The writes in `writeSet` are still to be undone. */
  ghost predicate Going(files: Files, writeSet: seq<WriteRecord>, ops: seq<Op>, t0: Store, np0: Counts, als0: Allocs,
                        g: Progress)
    reads files.Values
  {
    && Distinct(files) && AllValid(files) && Hold(TableRows(files), g.t)
    && |writeSet| + |g.to| == |ops| && Logged(files, writeSet, ops[..|writeSet|])
    && UndoneTo(t0, ops, |writeSet|, g.t, g.to, g.found)
    && OnCourse(t0, als0, ops, |writeSet|, g.t, AllocsOf(files), g.to)
    && AllInside(PageCounts(files), Rooms(files), ops) && AllPut(PageCounts(files), Rooms(files), ops, |writeSet|, g.to)
    && SizeKept(np0, PageCounts(files), Rooms(files), |t0| + |ops|) && |g.t| + |writeSet| <= |t0| + |ops|
  }

  lemma GoingFirst(files: Files, writeSet: seq<WriteRecord>, start: Store, ops: seq<Op>)
    requires Distinct(files) && AllValid(files) && Hold(TableRows(files), After(start, ops))
             && Logged(files, writeSet, ops)
    requires AllInside(PageCounts(files), Rooms(files), ops)
    ensures var t0 := After(start, ops);
            Going(files, writeSet, ops, t0, PageCounts(files), AllocsOf(files), Progress(t0, [], true))
  {
    hide AllValid, Hold, TableRows, Distinct, After, UndoneTo, AllInside, PageCounts, Rooms, AllPut, SizeKept,
         OnCourse, AllocsOf;
    var t0 := After(start, ops);
    UndoneNone(t0, ops);
    CourseStart(t0, AllocsOf(files), ops);
    CountsStart(PageCounts(files), Rooms(files), ops, |t0| + |ops|);
    assert ops[..|ops|] == ops;
  }

  lemma GoingLast(files: Files, ops: seq<Op>, t0: Store, np0: Counts, als0: Allocs, g: Progress)
    requires Going(files, [], ops, t0, np0, als0, g)
    ensures AllValid(files) && Rolled(t0, ops, g.to) && Hold(TableRows(files), Undo(t0, ops, g.to))
            && g.to == Choices(t0, als0, ops)
    ensures AllPut(PageCounts(files), Rooms(files), ops, 0, g.to)
            && SizeKept(np0, PageCounts(files), Rooms(files), |t0| + |ops|)
  {
    hide AllValid, Hold, TableRows, Distinct, UndoneTo, AllInside, PageCounts, Rooms, AllPut, SizeKept, OnCourse,
         AllocsOf;
    CourseDone(t0, als0, ops, g.t, AllocsOf(files), g.to);
    UndoneAll(t0, ops, g.t, g.to, g.found);
  }

  /** Undoes the last write left. */
  method UndoLast(files: Files, writeSet: seq<WriteRecord>, ghost start: Store, ghost ops: seq<Op>, ghost np0: Counts,
                  ghost als0: Allocs, ghost g: Progress)
      returns (sound: bool, ghost g': Progress)
    requires writeSet != [] && LegalRun(start, ops) && Going(files, writeSet, ops, After(start, ops), np0, als0, g)
    modifies files.Values
    ensures sound ==> Going(files, writeSet[..|writeSet|-1], ops, After(start, ops), np0, als0, g')
    ensures !sound ==>
              g' == g && ops[|writeSet|-1].Insert? && ops[|writeSet|-1].at !in g.t
                && PageCounts(files) == old(PageCounts(files))
    ensures !sound ==> exists a :: a in files && !files[a].Sound()
  {
    hide AllValid, Hold, TableRows, Distinct, Logged, After, LegalRun, UndoOne, UndoneTo, Safe, AllInside, PageCounts,
         AllPut,
         SizeKept, Grown, LowestAt, Inside, Rooms, OnCourse, AllocsOf, OwnPlace, AllocsUndo, RowsUndone;
    var n := |writeSet| - 1;
    ghost var t0, op, np, rooms, tabs := After(start, ops), ops[n], PageCounts(files), Rooms(files), TableRows(files);
    ghost var als := AllocsOf(files);
    g' := g;
    LoggedLast(files, writeSet, ops[..n+1]);
    PlaceInside(np, rooms, ops, n);
    HasTable(files, op.at.tab);
    if writeSet[n].InsertTuple? {
      var there := RowThere(files, writeSet[n].at, g.t);
      if !there {
        UndoGone(files, writeSet[n].at, g.t);
        return false, g';
      }
    }
    sound := true;
    ghost var p := UndoWrite(files, writeSet[n], op, g.t);
    UndoneStep(t0, ops, n + 1, g.t, g.to, g.found, p);
    CourseStep(t0, als0, ops, n + 1, g.t, als, g.to, p);
    FilesStep(tabs, g.t, np0, np, rooms, ops, n, g.to, p, PageCounts(files), |t0| + |ops|);
    g' := Progress(UndoOne(g.t, op, p), [p] + g.to, g.found && (op.Delete? || op.at in g.t));
    assert ops[..n+1][..n] == ops[..n];
  }

  lemma SafeIsPlaced(ops: seq<Op>, to: seq<Place>)
    requires |to| == |ops|
    ensures Safe(ops) ==> Placed(ops, to)
  {
  }

  /** The places chosen were free, and the lowest free slots of their pages; every undone insert had its row. */
  ghost predicate Rolled(t0: Store, ops: seq<Op>, to: seq<Place>) {
    |to| == |ops| && Allocates(t0, ops, to) && Lowest(t0, ops, to) && Survives(t0, ops, to)
  }

  /** The places chosen from write `n` on are in the files. */
  ghost predicate AllPut(np: Counts, rooms: Counts, ops: seq<Op>, n: nat, to: seq<Place>) {
    n + |to| == |ops| && forall k :: n <= k < |ops| && ops[k].Delete? ==> Inside(np, rooms, to[k - n])
  }

  /** Files with room for `size` records have not grown. */
  ghost predicate SizeKept(np0: Counts, np: Counts, rooms: Counts, size: nat) {
    np0.Keys == np.Keys && forall a :: a in np0 && a in rooms && size <= rooms[a] * (np0[a] - 1) ==> np[a] == np0[a]
  }

  lemma CountsStart(np: Counts, rooms: Counts, ops: seq<Op>, size: nat)
    ensures SizeKept(np, np, rooms, size) && AllPut(np, rooms, ops, |ops|, [])
  {
  }

  lemma HasTable(files: Files, a: string)
    requires a in files
    ensures a in TableRows(files) && a in PageCounts(files) && a in Rooms(files)
  {
  }

  lemma PlaceInside(np: Counts, rooms: Counts, ops: seq<Op>, n: nat)
    requires AllInside(np, rooms, ops) && n < |ops|
    ensures Inside(np, rooms, ops[n].at)
  {
  }

  lemma GrownReaches(tabs: map<string, Rows>, np: Counts, rooms: Counts, a: string)
    requires a in tabs && a in np && a in rooms
    ensures Reaches(np, Grown(tabs, np, rooms, a)) && Reaches(np, np)
  {
  }

  lemma SizeStep(tabs: map<string, Rows>, t: Store, np0: Counts, np: Counts, rooms: Counts, a: string, size: nat)
    requires Hold(tabs, t) && a in tabs && a in np && a in rooms && SizeKept(np0, np, rooms, size) && |t| < size
    ensures SizeKept(np0, Grown(tabs, np, rooms, a), rooms, size)
  {
    TableSize(tabs[a], t, a);
  }

  lemma UndoSize(t: Store, op: Op, to: Place)
    ensures |UndoOne(t, op, to)| <= |t| + 1
  {
    if op.Insert? && op.at in t { assert |t - {op.at}| == |t| - 1; }
  }

  lemma FilesStep(tabs: map<string, Rows>, t: Store, np0: Counts, np: Counts, rooms: Counts, ops: seq<Op>, n: nat,
                  to: seq<Place>, p: Place,
                  np': Counts, size: nat)
    requires Hold(tabs, t) && n < |ops| && ops[n].at.tab in tabs && ops[n].at.tab in np && ops[n].at.tab in rooms
    requires np' == (if ops[n].Delete? then Grown(tabs, np, rooms, ops[n].at.tab) else np)
             && (ops[n].Delete? ==> Inside(np', rooms, p))
    requires SizeKept(np0, np, rooms, size) && |t| + n + 1 <= size && AllInside(np, rooms, ops)
             && AllPut(np, rooms, ops, n + 1, to)
    ensures SizeKept(np0, np', rooms, size) && AllInside(np', rooms, ops) && AllPut(np', rooms, ops, n, [p] + to)
    ensures |UndoOne(t, ops[n], p)| + n <= size
  {
    hide Hold, Grown, SizeKept, FullTable, UndoOne;
    if ops[n].Delete? { SizeStep(tabs, t, np0, np, rooms, ops[n].at.tab, size); }
    GrownReaches(tabs, np, rooms, ops[n].at.tab);
    InsideStays(np, np', rooms, ops);
    UndoSize(t, ops[n], p);
    forall k | n <= k < |ops| && ops[k].Delete? ensures Inside(np', rooms, ([p] + to)[k - n]) {
      if k > n { assert ([p] + to)[k - n] == to[k - (n + 1)]; }
    }
  }

  lemma RowInside(files: Files, t: Store, p: Place)
    requires AllValid(files) && Hold(TableRows(files), t) && p in t
    ensures Inside(PageCounts(files), Rooms(files), p)
  {
    hide FileOk;
    RowInFile(files[p.tab], p.rid);
  }

  /** Whether the row that is to be deleted again is there. */
  method RowThere(files: Files, at: Place, ghost t: Store) returns (b: bool)
    requires AllValid(files) && Hold(TableRows(files), t) && at.tab in files
             && Inside(PageCounts(files), Rooms(files), at)
    ensures b <==> at in t
  {
    hide FileOk, Hold;
    HoldHas(TableRows(files), t, at);
    b := files[at.tab].IsRecord(at.rid);
  }

  // ---------- the two ways it can go for an unsafe transaction ----------

  /** A new table with one row. */
  method OneRowFile(n: nat, a: Record) returns (file: RmFileHandle)
    requires 2 <= n
    ensures fresh(file) && file.Valid() && file.numPages == 2 && file.numRecordsPerPage == n
            && file.rows == map[Rid(1, 0) := a]
  {
    hide FileOk;
    file := new RmFileHandle(n);
    var rid := file.InsertRecord(a);
    RowInFile(file, rid);
    assert file.rows == map[Rid(1, 0) := a];
  }

  /** A transaction on a new table with one row. */
  method OneRow(n: nat, a: Record) returns (txn: Transaction)
    requires 2 <= n
    ensures fresh(txn) && txn.Valid() && txn.files.Keys == {"t"} && fresh(txn.files["t"]) && txn.ops == []
    ensures txn.start == map[Slot("t", 0) := a] && PageCounts(txn.files) == map["t" := 2]
            && Rooms(txn.files) == map["t" := n]
  {
    hide FileOk;
    var file := OneRowFile(n, a);
    var files := map["t" := file];
    assert TableRows(files) == map["t" := map[Rid(1, 0) := a]];
    assert PageCounts(files) == map["t" := 2] && Rooms(files) == map["t" := n];
    txn := new Transaction(files, map[Slot("t", 0) := a]);
  }

  /** The second row goes right behind the first. */
  method SecondRow(txn: Transaction, n: nat, a: Record, b: Record)
    requires txn.Valid() && txn.files.Keys == {"t"} && txn.ops == [] && txn.start == map[Slot("t", 0) := a] && 2 <= n
    requires PageCounts(txn.files) == map["t" := 2] && Rooms(txn.files) == map["t" := n]
    modifies txn, txn.files["t"]
    ensures txn.Valid() && txn.ops == [Insert(Slot("t", 1), b)] && PageCounts(txn.files) == map["t" := 2]
  {
    hide AllValid, Hold, Distinct, Logged, LegalRun, After, TableRows, PageCounts, Rooms, AllInside, LowestAt, Inside;
    NoWrites(txn.start, txn.ops);
    HasTable(txn.files, "t");
    HoldSize(TableRows(txn.files), txn.start, "t");
    var rid := txn.InsertTuple("t", b);
    assert txn.ops == [Insert(Place("t", rid), b)];
    SecondSlot(PageCounts(txn.files), n, a, Insert(Place("t", rid), b));
  }

  lemma SecondSlot(np: Counts, n: nat, a: Record, op: Op)
    requires np == map["t" := 2] && AllInside(np, map["t" := n], [op]) && op.Insert?
    requires LegalRun(map[Slot("t", 0) := a], [op]) && LowestAt(map[Slot("t", 0) := a], op.at)
    ensures op.at == Slot("t", 1)
  {
    var s, none := map[Slot("t", 0) := a], [];
    PlaceInside(np, map["t" := n], [op], 0);
    NoWrites(s, none);
    assert [op][..0] == none;
    AtMost(s, op.at, 1);
  }

  lemma HoldSize(tabs: map<string, Rows>, t: Store, a: string)
    requires Hold(tabs, t) && a in tabs
    ensures |tabs[a]| <= |t|
  {
    TableSize(tabs[a], t, a);
  }

  /** Inserts `b` and deletes both rows. */
  method InsertDeleteBoth(n: nat, a: Record, b: Record) returns (txn: Transaction)
    requires 3 <= n
    ensures fresh(txn) && txn.Valid() && txn.files.Keys == {"t"} && fresh(txn.files["t"])
            && txn.ops == LosingOps("t", a, b)
    ensures txn.start == map[Slot("t", 0) := a] && PageCounts(txn.files) == map["t" := 2]
            && Rooms(txn.files) == map["t" := n]
  {
    hide AllValid, Hold, Distinct, Logged, LegalRun, After, AllInside, PageCounts, TableRows, Rooms;
    txn := OneRow(n, a);
    SecondRow(txn, n, a, b);
    OneInsert("t", a, b);
    txn.DeleteTuple("t", Rid(1, 0));
    assert txn.ops == [Insert(Slot("t", 1), b), Delete(Slot("t", 0), a)];
    LosingMiddle("t", a, b);
    txn.DeleteTuple("t", Rid(1, 1));
  }

  /** A table with one row `a` in its one page. A transaction inserts `b` and deletes both rows. The file puts `b` back
      first, where `a` was; undoing the insert of `b` then deletes `a`. */
  method LoseRow(n: nat, a: Record, b: Record) returns (file: RmFileHandle)
    requires 3 <= n && a != b
    ensures file.Valid() && file.rows == map[Rid(1, 0) := b]
  {
    hide FileOk, Hold, Distinct, Logged, LegalRun, After, Allocates, Lowest, Survives, Undo, AllInside, Clean, Safe,
         Placed, Moved,
         DeletedIn, AllPut, SizeKept, PageCounts, TableRows, Rooms, Transaction.Ahead, AllValid;
    var txn := InsertDeleteBoth(n, a, b);
    LosingRun("t", a, b);
    var sound, to, left, m := txn.Abort();
    LosingPlaces(PageCounts(txn.files), a, b, left, to, n);
    LosingChoice("t", a, b, to);
    LosingUndo("t", a, b, to);
    HoldOne(txn.files, Slot("t", 0), b);
    TableFacts(txn.files, "t");
    file := txn.files["t"];
  }

  /** Inserts `b` and deletes it again. */
  method InsertDelete(n: nat, a: Record, b: Record) returns (txn: Transaction)
    requires 3 <= n
    ensures fresh(txn) && txn.Valid() && txn.files.Keys == {"t"} && fresh(txn.files["t"])
            && txn.ops == KeepingOps("t", b)
    ensures txn.start == map[Slot("t", 0) := a] && PageCounts(txn.files) == map["t" := 2]
            && Rooms(txn.files) == map["t" := n]
  {
    hide AllValid, Hold, Distinct, Logged, LegalRun, After, AllInside, PageCounts, TableRows, Rooms;
    txn := OneRow(n, a);
    SecondRow(txn, n, a, b);
    OneInsert("t", a, b);
    txn.DeleteTuple("t", Rid(1, 1));
  }

  /** The same table; a transaction inserts `b` and deletes it again. It is not safe either, but `b` goes back to where
      it was, and the table ends as it began. */
  method KeepRow(n: nat, a: Record, b: Record) returns (file: RmFileHandle)
    requires 3 <= n
    ensures file.Valid() && file.rows == map[Rid(1, 0) := a]
  {
    hide FileOk, Hold, Distinct, Logged, LegalRun, After, Allocates, Lowest, Survives, Undo, AllInside, Clean, Safe,
         Placed, Moved,
         DeletedIn, AllPut, SizeKept, PageCounts, TableRows, Rooms, Transaction.Ahead, AllValid;
    var txn := InsertDelete(n, a, b);
    KeepingRun("t", a, b);
    var sound, to, left, m := txn.Abort();
    KeepingPlace(PageCounts(txn.files), a, b, left, to, n);
    KeptRow("t", a, b, to);
    HoldOne(txn.files, Slot("t", 0), a);
    TableFacts(txn.files, "t");
    file := txn.files["t"];
  }

  lemma {:induction false} KeepingPlace(np: Counts, a: Record, b: Record, left: nat, to: seq<Place>, n: nat)
    requires |to| == 2 && left <= 1 && AllPut(np, map["t" := n], KeepingOps("t", b), left, to[left..])
    requires SizeKept(map["t" := 2], np, map["t" := n], 3) && 3 <= n
    ensures to[1].rid.pageNo == 1 && 0 <= to[1].rid.slotNo
  {
    assert KeepingOps("t", b)[1].Delete?;
    assert Inside(np, map["t" := n], to[left..][1 - left]);
  }

  lemma {:induction false} LosingMiddle(tab: string, a: Record, b: Record)
    ensures After(map[Slot(tab, 0) := a], [Insert(Slot(tab, 1), b), Delete(Slot(tab, 0), a)]) == map[Slot(tab, 1) := b]
  {
    var ops := [Insert(Slot(tab, 1), b), Delete(Slot(tab, 0), a)];
    assert ops[..1] == [Insert(Slot(tab, 1), b)];
    OneInsert(tab, a, b);
  }

  lemma {:induction false} LosingPlaces(np: Counts, a: Record, b: Record, left: nat, to: seq<Place>, n: nat)
    requires |to| == 3 && left <= 1 && AllPut(np, map["t" := n], LosingOps("t", a, b), left, to[left..])
    requires SizeKept(map["t" := 2], np, map["t" := n], 3) && 3 <= n && Allocates(map[], LosingOps("t", a, b), to)
    ensures to[1].rid.pageNo == to[2].rid.pageNo == 1 && 0 <= to[1].rid.slotNo && 0 <= to[2].rid.slotNo
  {
    var ops := LosingOps("t", a, b);
    assert ops[1].Delete? && ops[2].Delete?;
    assert Inside(np, map["t" := n], to[left..][1 - left]) && Inside(np, map["t" := n], to[left..][2 - left]);
    assert ops[..2][1] == ops[1] && to[..2][1] == to[1];
  }

  lemma HoldOne(files: Files, p: Place, rec: Record)
    requires Hold(TableRows(files), map[p := rec])
    ensures p.tab in files && files[p.tab].rows == map[p.rid := rec]
  {
    var t, tabs := map[p := rec], TableRows(files);
    assert p in t;
    forall r | r in tabs[p.tab] ensures r == p.rid { assert Place(p.tab, r) in t; }
  }
}
