/** Table files: inserting, deleting, updating and reading records, and scanning them. */
module RecordFile {
  import opened Wrappers
  import Bitmap
  import opened RecordPages

  class RmFileHandle {
    const numRecordsPerPage: nat
    var pages: Pages
    var numPages: int
    var firstFree: int

    ghost var free: seq<int>
    ghost var rows: Rows

    ghost predicate Valid()
      reads this
    {
      FileOk(pages, numPages, numRecordsPerPage, firstFree, free, rows)
    }

    /** The file is in order, whatever is taken for its list of pages and its rows. */
    ghost predicate Sound()
      reads this
    {
      exists f, r :: FileOk(pages, numPages, numRecordsPerPage, firstFree, f, r)
    }

    constructor (n: nat)
      requires 1 <= n
      ensures Valid() && rows == map[] && numPages == 1 && numRecordsPerPage == n
    {
      numRecordsPerPage, pages, numPages, firstFree := n, map[], 1, RM_NO_PAGE;
      free, rows := [], map[];
    }

    predicate InFile(rid: Rid)
      reads this
    {
      RM_FIRST_RECORD_PAGE <= rid.pageNo < numPages && 0 <= rid.slotNo < numRecordsPerPage
    }

    method IsRecord(rid: Rid) returns (b: bool)
      requires Valid() && InFile(rid)
      ensures b <==> rid in rows
    {
      return Bitmap.IsSet(pages[rid.pageNo].bitmap, rid.slotNo);
    }

    /** The bytes of a slot; none if the page number is the invalid one. */
    method GetRecord(rid: Rid) returns (r: Option<Record>)
      requires Valid() && (rid.pageNo == RM_NO_PAGE || InFile(rid))
      ensures r == None <==> rid.pageNo == RM_NO_PAGE
      ensures rid in rows ==> r == Some(rows[rid])
    {
      if rid.pageNo == RM_NO_PAGE { return None; }
      return Some(pages[rid.pageNo].slots[rid.slotNo]);
    }

    method CreateNewPageHandle() returns (k: int)
      requires Valid() && firstFree == RM_NO_PAGE
      modifies this
      ensures Valid() && k == firstFree == old(numPages) && numPages == old(numPages) + 1 && rows == old(rows)
      ensures firstFree in pages && free == [k] && old(free) == []
    {
      k := numPages;
      NoneListed(pages, numPages, numRecordsPerPage, firstFree, free);
      AddPage(pages, numPages, numRecordsPerPage, rows);
      pages := pages[k := BlankPage(numRecordsPerPage)];
      numPages := numPages + 1;
      firstFree, free := k, [k];
    }

    /** A page with room: the first of the list, or a new one. */
    method CreatePageHandle() returns (k: int)
      requires Valid()
      modifies this
      ensures Valid() && rows == old(rows) && k == firstFree && firstFree in pages
              && pages[firstFree].num < numRecordsPerPage
      ensures k == if old(firstFree) == RM_NO_PAGE then old(numPages) else old(firstFree)
      ensures numPages == if old(firstFree) == RM_NO_PAGE then old(numPages) + 1 else old(numPages)
      ensures free == (if old(free) == [] then [old(numPages)] else old(free)) && k == free[0]
      ensures old(free) == [] <==> old(firstFree) == RM_NO_PAGE
    {
      k := firstFree;
      if firstFree == RM_NO_PAGE { k := CreateNewPageHandle(); }
      assert LinkOk(pages, free, 0) && free[0] in free;
    }

    /** Stores a record where there was none, in the lowest free slot of the first page with room. The file grows by
        a page exactly when it is full. */
    method InsertRecord(rec: Record) returns (rid: Rid)
      requires Valid()
      modifies this
      ensures Valid() && InFile(rid)
      ensures rid !in old(rows) && rows == old(rows)[rid := rec]
      ensures rid.pageNo == if old(firstFree) == RM_NO_PAGE then old(numPages) else old(firstFree)
      ensures forall s :: 0 <= s < rid.slotNo ==> Rid(rid.pageNo, s) in rows
      ensures numPages == old(numPages) + if |old(rows)| == numRecordsPerPage * (old(numPages) - 1) then 1 else 0
      ensures numPages == old(numPages) + if old(free) == [] then 1 else 0
      ensures var f := if old(free) == [] then [old(numPages)] else old(free);
              rid.pageNo == f[0] && free == if FullRows(rows, f[0], numRecordsPerPage) then f[1..] else f
    {
      hide ChainOk, RoomOk, PagesOk, RowsOk, FullRows;
      FileFull(pages, numPages, numRecordsPerPage, firstFree, free, rows);
      var k := CreatePageHandle();
      PageInFile(pages, numPages, numRecordsPerPage, k);
      var s := Bitmap.NextBit(false, pages[k].bitmap, numRecordsPerPage, -1);
      HasRoom(pages[k], numRecordsPerPage);
      SlotsBelow(pages, numPages, numRecordsPerPage, k, s, rows);
      PutPages(pages, numPages, numRecordsPerPage, k, s, rec);
      PutRows(pages, numPages, numRecordsPerPage, k, s, rec, rows);
      assert free != [] by { FirstIsListed(pages, firstFree, free); }
      PutRoom(pages, numRecordsPerPage, k, free, WithRow(pages[k], s, rec));
      pages := pages[k := WithRow(pages[k], s, rec)];
      rid := Rid(k, s);
      rows := rows[rid := rec];
      FullIsRows(pages, numPages, numRecordsPerPage, rows, k);
      if pages[k].num == numRecordsPerPage {
        firstFree, free := pages[k].next, free[1..];
      }
    }

    /** Clears a slot. The file stays in order exactly when the slot held a record. */
    method DeleteRecord(rid: Rid) returns (ok: bool)
      requires Valid() && (rid.pageNo == RM_NO_PAGE || InFile(rid))
      modifies this
      ensures ok <==> rid.pageNo != RM_NO_PAGE
      ensures !ok ==> Valid() && rows == old(rows)
      ensures ok ==> if rid in old(rows) then Valid() else !Sound()
      ensures ok ==> rows == old(rows) - {rid}
      ensures numPages == old(numPages)
      ensures ok ==>
                free == if FullRows(old(rows), rid.pageNo, numRecordsPerPage) then [rid.pageNo] + old(free)
                        else old(free)
    {
      hide ChainOk, RoomOk, FullRows;
      if rid.pageNo == RM_NO_PAGE { return false; }
      var k, s := rid.pageNo, rid.slotNo;
      FullIsRows(pages, numPages, numRecordsPerPage, rows, k);
      ghost var p0, full := pages[k], pages[k].num == numRecordsPerPage;
      if pages[k].num == numRecordsPerPage {
        pages := pages[k := pages[k].(next := firstFree)];
        firstFree := k;
      }
      pages := pages[k := WithoutRow(pages[k], s)];
      assert pages[k] == WithoutRow(p0.(next := if full then old(firstFree) else p0.next), s);
      DropPages(old(pages), numPages, numRecordsPerPage, k, s, pages[k].next);
      DropRows(old(pages), numPages, numRecordsPerPage, k, s, pages[k].next, rows);
      DropRoom(old(pages), numRecordsPerPage, old(firstFree), free, k, pages[k]);
      assert pages == old(pages)[k := pages[k]];
      if full { free := [k] + free; }
      rows := rows - {rid};
      return true;
    }

    /** Stores a record at a given place. The list of pages with room is not looked at, so the file stays in order
        exactly when this does not take the last free slot of a page. */
    method InsertRecordAt(rid: Rid, rec: Record) returns (ok: bool)
      requires Valid() && (rid.pageNo == RM_NO_PAGE || InFile(rid))
      modifies this
      ensures ok <==> rid.pageNo != RM_NO_PAGE
      ensures rows == if ok then old(rows)[rid := rec] else old(rows)
      ensures !ok ==> Valid()
      ensures ok ==>
                (if rid in old(rows) || old(pages)[rid.pageNo].num + 1 < numRecordsPerPage then Valid() else !Sound())
    {
      hide FileOk, Bitmap.Set;
      if rid.pageNo == RM_NO_PAGE { return false; }
      var k, s := rid.pageNo, rid.slotNo;
      SlotThere(pages, numPages, numRecordsPerPage, firstFree, free, rows, k, s);
      var isSet := IsRecord(rid);
      SetRow(pages, numPages, numRecordsPerPage, firstFree, free, rows, k, s, rec);
      if !isSet {
        PutAt(pages, numPages, numRecordsPerPage, firstFree, free, rows, k, s, rec);
        pages := pages[k := pages[k].(bitmap := Bitmap.Set(pages[k].bitmap, s), num := pages[k].num + 1)];
      }
      pages := pages[k := pages[k].(slots := pages[k].slots[s := rec])];
      assert !isSet ==> pages == old(pages)[k := WithRow(old(pages)[k], s, rec)];
      assert isSet ==> pages == old(pages)[k := old(pages)[k].(slots := old(pages)[k].slots[s := rec])];
      rows := rows[rid := rec];
      return true;
    }

    /** Overwrites the bytes of a slot. */
    method UpdateRecord(rid: Rid, rec: Record) returns (ok: bool)
      requires Valid() && (rid.pageNo == RM_NO_PAGE || InFile(rid))
      modifies this
      ensures ok <==> rid.pageNo != RM_NO_PAGE
      ensures Valid() && rows == if ok && rid in old(rows) then old(rows)[rid := rec] else old(rows)
      ensures numPages == old(numPages) && free == old(free)
    {
      hide FileOk, PageOk;
      if rid.pageNo == RM_NO_PAGE { return false; }
      var k := rid.pageNo;
      SlotThere(pages, numPages, numRecordsPerPage, firstFree, free, rows, k, rid.slotNo);
      SetRow(pages, numPages, numRecordsPerPage, firstFree, free, rows, k, rid.slotNo, rec);
      pages := pages[k := pages[k].(slots := pages[k].slots[rid.slotNo := rec])];
      if rid in rows { rows := rows[rid := rec]; }
      return true;
    }
  }

  lemma SlotThere(pages: Pages, numPages: int, n: nat, first: int, free: seq<int>, rows: Rows, k: int, s: nat)
    requires FileOk(pages, numPages, n, first, free, rows) && RM_FIRST_RECORD_PAGE <= k < numPages && s < n
    ensures k in pages && PageOk(pages[k], n) && |pages[k].slots| == n
            && (Rid(k, s) in rows <==> Bitmap.IsSet(pages[k].bitmap, s))
  {
    assert Rid(k, s) in rows <==> Live(pages, n, Rid(k, s));
  }

  /** There is one list of pages only. */
  lemma {:induction false} ChainUnique(pages: Pages, first: int, f1: seq<int>, f2: seq<int>, i: nat)
    requires ChainOk(pages, first, f1) && ChainOk(pages, first, f2) && RM_NO_PAGE !in pages && i < |f1|
    ensures i < |f2| && f1[i] == f2[i]
  {
    assert LinkOk(pages, f1, i);
    if i == 0 {
      assert f2 != [] ==> LinkOk(pages, f2, 0);
    } else {
      ChainUnique(pages, first, f1, f2, i - 1);
      assert LinkOk(pages, f1, i - 1) && LinkOk(pages, f2, i - 1);
    }
  }

  /** One more record in any page with room keeps the list right exactly when the page does not get full. */
  lemma PutAtRoom(pages: Pages, n: nat, first: int, free: seq<int>, k: int, p': Page, pages': Pages)
    requires RM_NO_PAGE !in pages && ChainOk(pages, first, free) && RoomOk(pages, n, free) && k in pages
             && pages[k].num < n
    requires p'.next == pages[k].next && p'.num == pages[k].num + 1 && pages' == pages[k := p']
    ensures ChainOk(pages', first, free)
    ensures p'.num < n ==> RoomOk(pages', n, free)
    ensures p'.num == n ==> forall f :: ChainOk(pages', first, f) ==> !RoomOk(pages', n, f)
  {
    ChainSame(pages, first, free, k, p');
    var i :| 0 <= i < |free| && free[i] == k;
    forall f | ChainOk(pages', first, f) ensures k in f {
      ChainUnique(pages', first, free, f, i);
    }
  }

  lemma PutAt(pages: Pages, numPages: int, n: nat, first: int, free: seq<int>, rows: Rows, k: int, s: nat, rec: Record)
    requires FileOk(pages, numPages, n, first, free, rows) && k in pages && s < n && Rid(k, s) !in rows
    ensures var pages' := pages[k := WithRow(pages[k], s, rec)];
            if pages[k].num + 1 < n then FileOk(pages', numPages, n, first, free, rows[Rid(k, s) := rec])
            else forall f, r :: !FileOk(pages', numPages, n, first, f, r)
  {
    hide ChainOk, RoomOk, RowsOk;
    SlotThere(pages, numPages, n, first, free, rows, k, s);
    Bitmap.CountFull(pages[k].bitmap, n);
    PutPages(pages, numPages, n, k, s, rec);
    PutRows(pages, numPages, n, k, s, rec, rows);
    PutAtRoom(pages, n, first, free, k, WithRow(pages[k], s, rec), pages[k := WithRow(pages[k], s, rec)]);
  }

  lemma NoneListed(pages: Pages, numPages: int, n: nat, first: int, free: seq<int>)
    requires PagesOk(pages, numPages, n) && ChainOk(pages, first, free) && first == RM_NO_PAGE
    ensures free == []
  {
    assert free != [] ==> LinkOk(pages, free, 0);
  }

  lemma PageInFile(pages: Pages, numPages: int, n: nat, k: int)
    requires PagesOk(pages, numPages, n) && k in pages
    ensures RM_FIRST_RECORD_PAGE <= k < numPages && PageOk(pages[k], n)
  {
  }

  /** The rows of a page below slot `s`, when all bits there are set and that of `s` is not. */
  lemma SlotsBelow(pages: Pages, numPages: int, n: nat, k: int, s: nat, rows: Rows)
    requires PagesOk(pages, numPages, n) && RowsOk(pages, n, rows) && k in pages && s < n
             && !Bitmap.IsSet(pages[k].bitmap, s)
    requires forall p :: -1 < p < s ==> Bitmap.IsSet(pages[k].bitmap, p)
    ensures Rid(k, s) !in rows && forall p :: 0 <= p < s ==> Rid(k, p) in rows
  {
  }

  lemma FirstIsListed(pages: Pages, first: int, free: seq<int>)
    requires ChainOk(pages, first, free) && first != RM_NO_PAGE
    ensures free != []
  {
  }

  // ---------- scanning ----------

  predicate Before(a: Rid, b: Rid) {
    a.pageNo < b.pageNo || (a.pageNo == b.pageNo && a.slotNo < b.slotNo)
  }

  class RmScan {
    const file: RmFileHandle
    var rid: Rid

    predicate IsEnd()
      reads this
    {
      rid.pageNo == RM_NO_PAGE
    }

    constructor (file: RmFileHandle)
      requires file.Valid()
      ensures this.file == file
      ensures IsEnd() <==> file.rows == map[]
      ensures !IsEnd() ==> rid in file.rows && forall r :: r in file.rows ==> r == rid || Before(rid, r)
    {
      this.file := file;
      rid := Rid(RM_FIRST_RECORD_PAGE, -1);
      new;
      Next();
      assert forall r :: r in file.rows ==> Live(file.pages, file.numRecordsPerPage, r);
    }

    /** Moves to the least row after the current place. */
    method Next()
      requires file.Valid() && RM_FIRST_RECORD_PAGE <= rid.pageNo && -1 <= rid.slotNo
      modifies this
      ensures IsEnd() ==> forall r :: r in file.rows ==> !Before(old(rid), r)
      ensures !IsEnd() ==> rid in file.rows && Before(old(rid), rid)
      ensures !IsEnd() ==> forall r :: r in file.rows && Before(old(rid), r) ==> r == rid || Before(rid, r)
    {
      hide ChainOk, RoomOk, RowsOk, PagesOk;
      var n := file.numRecordsPerPage;
      while rid.pageNo < file.numPages
        invariant RM_FIRST_RECORD_PAGE <= rid.pageNo && -1 <= rid.slotNo && (rid == old(rid) || Before(old(rid), rid))
        invariant forall r :: r in file.rows && Before(old(rid), r) ==> Before(rid, r)
        decreases file.numPages - rid.pageNo
      {
        assert rid.pageNo in file.pages
               && PageOk(file.pages[rid.pageNo], n) by { PageThere(file.pages, file.numPages, n, rid.pageNo); }
        var page := file.pages[rid.pageNo];
        ghost var from := rid;
        var s := Bitmap.NextBit(true, page.bitmap, n, rid.slotNo);
        forall r | r in file.rows && Before(from, r) ensures r.pageNo > from.pageNo || (s < n && s <= r.slotNo) {
          RowPlace(file.pages, file.numPages, n, file.rows, r);
        }
        rid := Rid(rid.pageNo, s);
        if s < n {
          SlotIsRow(file.pages, n, file.rows, rid.pageNo, s);
          return;
        }
        rid := Rid(rid.pageNo + 1, -1);
        assert forall r :: r in file.rows && Before(old(rid), r) ==>
                 0 <= r.slotNo by { RowsPlaced(file.pages, file.numPages, n, file.rows); }
      }
      RowsPlaced(file.pages, file.numPages, n, file.rows);
      rid := Rid(RM_NO_PAGE, -1);
    }
  }

  lemma FileRowsPlaced(file: RmFileHandle)
    requires file.Valid()
    ensures forall r :: r in file.rows ==> RM_FIRST_RECORD_PAGE <= r.pageNo && 0 <= r.slotNo
  {
    RowsPlaced(file.pages, file.numPages, file.numRecordsPerPage, file.rows);
  }

  /** A scan visits every row once, in the order of pages and slots, and nothing else. */
  method ScanAll(file: RmFileHandle) returns (rids: seq<Rid>)
    requires file.Valid()
    ensures forall i, j :: 0 <= i < j < |rids| ==> Before(rids[i], rids[j])
    ensures forall r :: r in rids <==> r in file.rows
  {
    hide FileOk;
    var scan := new RmScan(file);
    rids := [];
    ghost var left := file.rows.Keys;
    assert forall r :: r in file.rows ==> RM_FIRST_RECORD_PAGE <= r.pageNo && 0 <= r.slotNo by {
      FileRowsPlaced(file);
    }
    while !scan.IsEnd()
      invariant fresh(scan) && scan.file == file && file.Valid()
      invariant forall i, j :: 0 <= i < j < |rids| ==> Before(rids[i], rids[j])
      invariant forall i :: 0 <= i < |rids| ==> rids[i] in file.rows && (scan.IsEnd() || Before(rids[i], scan.rid))
      invariant !scan.IsEnd() ==> scan.rid in left
      invariant forall r :: r in left <==> r in file.rows && r !in rids
      invariant forall r :: r in left ==> !scan.IsEnd() && (r == scan.rid || Before(scan.rid, r))
      decreases left
    {
      rids := rids + [scan.rid];
      left := left - {scan.rid};
      scan.Next();
    }
  }
}
