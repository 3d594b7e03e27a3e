/** The pages of a record file, the list of pages with room, and the rows they hold. */
module RecordPages {
  import Bitmap
  import opened Values

  type Record = seq<Byte>
  datatype Rid = Rid(pageNo: int, slotNo: int)

  const RM_NO_PAGE := -1
  const RM_FIRST_RECORD_PAGE := 1

  /** A record page: header, bitmap and slots. */
  datatype Page = Page(next: int, num: int, bitmap: seq<bv8>, slots: seq<Record>)
  type Pages = map<int, Page>
  type Rows = map<Rid, Record>

  ghost predicate PageOk(p: Page, n: nat) {
    |p.slots| == n <= Bitmap.BITMAP_WIDTH * |p.bitmap| && p.num == Bitmap.Count(p.bitmap, n)
  }

  /** The pages are numbered from 1, and each counts its records right. */
  ghost predicate PagesOk(pages: Pages, numPages: int, n: nat) {
    && (forall k :: k in pages <==> RM_FIRST_RECORD_PAGE <= k < numPages)
    && (forall k :: k in pages ==> PageOk(pages[k], n))
  }

  function Succ(free: seq<int>, i: nat): int {
    if i + 1 < |free| then free[i+1] else RM_NO_PAGE
  }

  ghost predicate LinkOk(pages: Pages, free: seq<int>, i: nat)
    requires i < |free|
  {
    free[i] in pages && pages[free[i]].next == Succ(free, i)
  }

  /** The list `free` is what one finds by following the links from `first`. */
  ghost predicate ChainOk(pages: Pages, first: int, free: seq<int>) {
    && (forall i, j :: 0 <= i < j < |free| ==> free[i] != free[j])
    && (forall i :: 0 <= i < |free| ==> LinkOk(pages, free, i))
    && first == if free == [] then RM_NO_PAGE else free[0]
  }

  /** Exactly the pages with room are in the list. */
  ghost predicate RoomOk(pages: Pages, n: nat, free: seq<int>) {
    forall k :: k in pages ==> (k in free <==> pages[k].num < n)
  }

  predicate Live(pages: Pages, n: nat, r: Rid) {
    && r.pageNo in pages && 0 <= r.slotNo < n && r.slotNo < Bitmap.BITMAP_WIDTH * |pages[r.pageNo].bitmap|
    && Bitmap.IsSet(pages[r.pageNo].bitmap, r.slotNo)
  }

  /** The rows are those whose bit is set. */
  ghost predicate RowsOk(pages: Pages, n: nat, rows: Rows) {
    && (forall r :: r in rows <==> Live(pages, n, r))
    && (forall r :: r in rows ==> r.slotNo < |pages[r.pageNo].slots| && pages[r.pageNo].slots[r.slotNo] == rows[r])
  }

  ghost predicate FileOk(pages: Pages, numPages: int, n: nat, first: int, free: seq<int>, rows: Rows) {
    && 1 <= n && 1 <= numPages
    && PagesOk(pages, numPages, n) && ChainOk(pages, first, free) && RoomOk(pages, n, free) && RowsOk(pages, n, rows)
  }

  // ---------- a row is put into the first page with room ----------

  function WithRow(p: Page, s: nat, rec: Record): Page
    requires s < Bitmap.BITMAP_WIDTH * |p.bitmap| && s < |p.slots|
  {
    Page(p.next, p.num + 1, Bitmap.Set(p.bitmap, s), p.slots[s := rec])
  }

  lemma PutPages(pages: Pages, numPages: int, n: nat, k: int, s: nat, rec: Record)
    requires PagesOk(pages, numPages, n) && k in pages && s < n && !Bitmap.IsSet(pages[k].bitmap, s)
    ensures PagesOk(pages[k := WithRow(pages[k], s, rec)], numPages, n)
  {
    Bitmap.CountSet(pages[k].bitmap, n, s);
  }

  lemma PutRows(pages: Pages, numPages: int, n: nat, k: int, s: nat, rec: Record, rows: Rows)
    requires PagesOk(pages, numPages, n) && RowsOk(pages, n, rows) && k in pages && s < n
    ensures RowsOk(pages[k := WithRow(pages[k], s, rec)], n, rows[Rid(k, s) := rec])
  {
    var pages' := pages[k := WithRow(pages[k], s, rec)];
    assert |pages'[k].bitmap| == |pages[k].bitmap|;
    forall r ensures r in rows[Rid(k, s) := rec] <==> Live(pages', n, r) {
      assert r in rows <==> Live(pages, n, r);
    }
  }

  lemma ChainSame(pages: Pages, first: int, free: seq<int>, k: int, p': Page)
    requires ChainOk(pages, first, free) && k in pages && p'.next == pages[k].next
    ensures ChainOk(pages[k := p'], first, free)
  {
    var pages' := pages[k := p'];
    forall i | 0 <= i < |free| ensures LinkOk(pages', free, i) { assert LinkOk(pages, free, i); }
  }

  lemma ChainPop(pages: Pages, first: int, free: seq<int>)
    requires ChainOk(pages, first, free) && free != [] && first in pages
    ensures ChainOk(pages, pages[first].next, free[1..])
  {
    var rest := free[1..];
    assert LinkOk(pages, free, 0);
    forall i | 0 <= i < |rest| ensures LinkOk(pages, rest, i) { assert LinkOk(pages, free, i + 1); }
    forall i, j | 0 <= i < j < |rest| ensures rest[i] != rest[j] { assert free[i+1] != free[j+1]; }
  }

  lemma ChainPush(pages: Pages, first: int, free: seq<int>, k: int, p': Page)
    requires ChainOk(pages, first, free) && k in pages && k !in free && p'.next == first
    ensures ChainOk(pages[k := p'], k, [k] + free)
  {
    var all, pages' := [k] + free, pages[k := p'];
    forall i | 0 <= i < |all| ensures LinkOk(pages', all, i) {
      if i > 0 { assert LinkOk(pages, free, i - 1) && free[i-1] in free; }
    }
  }

  /** The page filled is the first of the list, and leaves it when it is full. */
  lemma PutRoom(pages: Pages, n: nat, first: int, free: seq<int>, p': Page)
    requires ChainOk(pages, first, free) && RoomOk(pages, n, free) && free != [] && first in pages
    requires p'.next == pages[first].next && p'.num == pages[first].num + 1
    ensures var free' := if p'.num == n then free[1..] else free;
            var first' := if p'.num == n then p'.next else first;
            ChainOk(pages[first := p'], first', free') && RoomOk(pages[first := p'], n, free')
  {
    ChainSame(pages, first, free, first, p');
    assert first == free[0] && first in free;
    if p'.num == n {
      ChainPop(pages[first := p'], first, free);
      assert RoomOk(pages[first := p'], n, free[1..]) by { hide ChainOk; HeadGone(pages, first, free); }
    } else {
      assert RoomOk(pages[first := p'], n, free) by { hide ChainOk; }
    }
  }

  lemma HeadGone(pages: Pages, first: int, free: seq<int>)
    requires ChainOk(pages, first, free) && free != []
    ensures forall k :: k in free[1..] <==> k in free && k != first
  {
    assert free == [first] + free[1..];
    assert forall i :: 0 <= i < |free[1..]| ==> free[1..][i] == free[i+1];
  }

  // ---------- a row is taken out ----------

  function WithoutRow(p: Page, s: nat): Page
    requires s < Bitmap.BITMAP_WIDTH * |p.bitmap|
  {
    Page(p.next, p.num - 1, Bitmap.Reset(p.bitmap, s), p.slots)
  }

  lemma DropPages(pages: Pages, numPages: int, n: nat, k: int, s: nat, next: int)
    requires PagesOk(pages, numPages, n) && k in pages && s < n
    ensures var pages' := pages[k := WithoutRow(pages[k].(next := next), s)];
            PagesOk(pages', numPages, n) <==> Bitmap.IsSet(pages[k].bitmap, s)
  {
    var pages' := pages[k := WithoutRow(pages[k].(next := next), s)];
    if Bitmap.IsSet(pages[k].bitmap, s) {
      Bitmap.CountReset(pages[k].bitmap, n, s);
    } else {
      Bitmap.CountSame(pages[k].bitmap, pages'[k].bitmap, n);
      assert !PageOk(pages'[k], n);
    }
  }

  lemma DropRows(pages: Pages, numPages: int, n: nat, k: int, s: nat, next: int, rows: Rows)
    requires PagesOk(pages, numPages, n) && RowsOk(pages, n, rows) && k in pages && s < n
    ensures RowsOk(pages[k := WithoutRow(pages[k].(next := next), s)], n, rows - {Rid(k, s)})
  {
    var pages' := pages[k := WithoutRow(pages[k].(next := next), s)];
    assert |pages'[k].bitmap| == |pages[k].bitmap|;
    forall r ensures r in rows - {Rid(k, s)} <==> Live(pages', n, r) {
      assert r in rows <==> Live(pages, n, r);
    }
  }

  /** A page that was full goes to the front of the list. */
  lemma DropRoom(pages: Pages, n: nat, first: int, free: seq<int>, k: int, p': Page)
    requires ChainOk(pages, first, free) && RoomOk(pages, n, free) && k in pages && pages[k].num <= n
    requires p'.num == pages[k].num - 1 && p'.next == if pages[k].num == n then first else pages[k].next
    ensures var free' := if pages[k].num == n then [k] + free else free;
            var first' := if pages[k].num == n then k else first;
            ChainOk(pages[k := p'], first', free') && RoomOk(pages[k := p'], n, free')
  {
    if pages[k].num == n {
      assert k !in free;
      ChainPush(pages, first, free, k, p');
    } else {
      ChainSame(pages, first, free, k, p');
    }
  }

  // ---------- a row is overwritten, a page is added ----------

  lemma SetRow(pages: Pages, numPages: int, n: nat, first: int, free: seq<int>, rows: Rows, k: int, s: nat, rec: Record)
    requires FileOk(pages, numPages, n, first, free, rows) && k in pages && s < n
    ensures var pages' := pages[k := pages[k].(slots := pages[k].slots[s := rec])];
            FileOk(pages', numPages, n, first, free, if Rid(k, s) in rows then rows[Rid(k, s) := rec] else rows)
  {
    var pages' := pages[k := pages[k].(slots := pages[k].slots[s := rec])];
    ChainSame(pages, first, free, k, pages'[k]);
    forall r ensures Live(pages', n, r) <==> Live(pages, n, r) { }
  }

  function BlankPage(n: nat): Page {
    Page(RM_NO_PAGE, 0, Bitmap.Init((n + 7) / 8), seq(n, _ => []))
  }

  lemma AddPage(pages: Pages, numPages: int, n: nat, rows: Rows)
    requires FileOk(pages, numPages, n, RM_NO_PAGE, [], rows)
    ensures FileOk(pages[numPages := BlankPage(n)], numPages + 1, n, numPages, [numPages], rows)
  {
    Bitmap.CountInit((n + 7) / 8, n);
    var pages' := pages[numPages := BlankPage(n)];
    forall r ensures Live(pages', n, r) <==> Live(pages, n, r) { }
  }

  /** A page with room has a free slot. */
  lemma HasRoom(p: Page, n: nat)
    requires PageOk(p, n) && p.num < n
    ensures exists s :: 0 <= s < n && !Bitmap.IsSet(p.bitmap, s)
  {
    Bitmap.CountFull(p.bitmap, n);
  }

  // ---------- looking at rows and pages ----------

  /** Every slot of page `k` has a row. */
  ghost predicate FullRows(rows: Rows, k: int, n: nat) {
    forall s :: 0 <= s < n ==> Rid(k, s) in rows
  }

  lemma FullIsRows(pages: Pages, numPages: int, n: nat, rows: Rows, k: int)
    requires PagesOk(pages, numPages, n) && RowsOk(pages, n, rows) && k in pages
    ensures pages[k].num <= n && (pages[k].num == n <==> FullRows(rows, k, n))
  {
    Bitmap.CountFull(pages[k].bitmap, n);
    forall s | 0 <= s < n
      ensures Rid(k, s) in rows <==> Bitmap.IsSet(pages[k].bitmap, s)
    {
      SlotIsRow(pages, n, rows, k, s);
    }
  }

  lemma PageThere(pages: Pages, numPages: int, n: nat, k: int)
    requires PagesOk(pages, numPages, n) && RM_FIRST_RECORD_PAGE <= k < numPages
    ensures k in pages && PageOk(pages[k], n)
  {
  }

  lemma SlotIsRow(pages: Pages, n: nat, rows: Rows, k: int, s: nat)
    requires RowsOk(pages, n, rows) && k in pages && PageOk(pages[k], n) && s < n
    ensures Rid(k, s) in rows <==> Bitmap.IsSet(pages[k].bitmap, s)
  {
    assert Rid(k, s) in rows <==> Live(pages, n, Rid(k, s));
  }

  lemma RowPlace(pages: Pages, numPages: int, n: nat, rows: Rows, r: Rid)
    requires PagesOk(pages, numPages, n) && RowsOk(pages, n, rows) && r in rows
    ensures RM_FIRST_RECORD_PAGE <= r.pageNo < numPages && 0 <= r.slotNo < n
    ensures r.pageNo in pages && PageOk(pages[r.pageNo], n) && Bitmap.IsSet(pages[r.pageNo].bitmap, r.slotNo)
  {
    assert Live(pages, n, r);
  }

  lemma RowsPlaced(pages: Pages, numPages: int, n: nat, rows: Rows)
    requires PagesOk(pages, numPages, n) && RowsOk(pages, n, rows)
    ensures forall r :: r in rows ==> RM_FIRST_RECORD_PAGE <= r.pageNo < numPages && 0 <= r.slotNo < n
  {
    forall r | r in rows
      ensures RM_FIRST_RECORD_PAGE <= r.pageNo < numPages && 0 <= r.slotNo < n
    {
      RowPlace(pages, numPages, n, rows, r);
    }
  }

  // ---------- the page counters add up ----------

  function Total(pages: Pages, k: nat): int
    requires forall j :: 1 <= j < k ==> j in pages
  {
    if k <= 1 then 0 else Total(pages, k - 1) + pages[k-1].num
  }

  /** The rows before slot `s` of page `k`. */
  ghost function RowsBefore(rows: Rows, k: int, s: int): set<Rid> {
    set r | r in rows && (r.pageNo < k || (r.pageNo == k && r.slotNo < s))
  }

  lemma RowsBeforeNext(rows: Rows, k: int, s: int)
    ensures Rid(k, s) !in RowsBefore(rows, k, s)
    ensures RowsBefore(rows, k, s + 1) ==
            if Rid(k, s) in rows then RowsBefore(rows, k, s) + {Rid(k, s)} else RowsBefore(rows, k, s)
  {
  }

  lemma RowsBeforePage(pages: Pages, numPages: int, n: nat, rows: Rows, k: int)
    requires PagesOk(pages, numPages, n) && RowsOk(pages, n, rows)
    ensures RowsBefore(rows, k, 0) == RowsBefore(rows, k - 1, n) && RowsBefore(rows, 1, 0) == {}
  {
    hide RowsOk;
    RowsPlaced(pages, numPages, n, rows);
  }

  lemma {:induction false} CountRows(pages: Pages, numPages: int, n: nat, rows: Rows, k: nat, s: nat)
    requires PagesOk(pages, numPages, n) && RowsOk(pages, n, rows) && 1 <= k < numPages && s <= n
    ensures |RowsBefore(rows, k, s)| == Total(pages, k) + Bitmap.Count(pages[k].bitmap, s)
    decreases k, s
  {
    hide RowsOk, RowsBefore;
    if s > 0 {
      CountRows(pages, numPages, n, rows, k, s - 1);
      SlotIsRow(pages, n, rows, k, s - 1);
      RowsBeforeNext(rows, k, s - 1);
    } else if k > 1 {
      CountRows(pages, numPages, n, rows, k - 1, n);
      RowsBeforePage(pages, numPages, n, rows, k);
    } else {
      RowsBeforePage(pages, numPages, n, rows, k);
    }
  }

  /** The record counters of the pages add up to the number of rows. */
  lemma TotalIsRows(pages: Pages, numPages: int, n: nat, rows: Rows)
    requires PagesOk(pages, numPages, n) && RowsOk(pages, n, rows) && 1 <= numPages
    ensures Total(pages, numPages) == |rows|
  {
    hide RowsOk, RowsBefore;
    RowsBeforePage(pages, numPages, n, rows, numPages);
    RowsBeforeAll(pages, numPages, n, rows);
    if numPages > 1 {
      CountRows(pages, numPages, n, rows, numPages - 1, n);
    }
  }

  lemma RowsBeforeAll(pages: Pages, numPages: int, n: nat, rows: Rows)
    requires PagesOk(pages, numPages, n) && RowsOk(pages, n, rows)
    ensures RowsBefore(rows, numPages, 0) == rows.Keys
  {
    hide RowsOk;
    RowsPlaced(pages, numPages, n, rows);
  }

  /** The pages together hold at most `n` records each, and exactly that many when all are full. */
  lemma {:induction false} TotalFull(pages: Pages, numPages: int, n: nat, k: nat)
    requires PagesOk(pages, numPages, n) && 1 <= k <= numPages
    ensures Total(pages, k) <= n * (k - 1)
    ensures Total(pages, k) == n * (k - 1) <==> forall j :: 1 <= j < k ==> pages[j].num == n
    decreases k
  {
    if k > 1 {
      TotalFull(pages, numPages, n, k - 1);
      assert PageOk(pages[k-1], n);
      assert n * (k - 1) == n * (k - 2) + n;
    }
  }

  /** There is no page with room exactly when the file is full. */
  lemma FileFull(pages: Pages, numPages: int, n: nat, first: int, free: seq<int>, rows: Rows)
    requires FileOk(pages, numPages, n, first, free, rows)
    ensures |rows| <= n * (numPages - 1) && (first == RM_NO_PAGE <==> |rows| == n * (numPages - 1))
  {
    hide RowsOk;
    TotalFull(pages, numPages, n, numPages);
    TotalIsRows(pages, numPages, n, rows);
    if free != [] {
      assert LinkOk(pages, free, 0) && free[0] in free;
    }
    assert forall k :: k in pages ==> PageOk(pages[k], n) && pages[k].num <= n;
  }
}
