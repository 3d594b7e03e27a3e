/** Where a rollback puts rows back: the places that the record files choose, told from how the files stand before. */
module RollbackPlaces {
  import opened RecordPages
  import opened Rollback

  /** How a file stands: the list of its pages with room, the number of its pages, and the slots of a page. */
  datatype Alloc = Alloc(free: seq<int>, numPages: int, room: nat)
  type Allocs = map<string, Alloc>

  ghost predicate FullPage(t: Store, tab: string, k: int, room: nat) {
    forall s :: 0 <= s < room ==> Place(tab, Rid(k, s)) in t
  }

  /** The lowest free slot of a page from slot `s` on. */
  function FreeSlot(t: Store, tab: string, k: int, s: nat, room: nat): nat
    decreases room - s
  {
    if s >= room || Place(tab, Rid(k, s)) !in t then s else FreeSlot(t, tab, k, s + 1, room)
  }

  /** With a new page if none has room. */
  function WithRoom(al: Alloc): (r: Alloc)
    ensures r.free != []
  {
    if al.free == [] then al.(free := [al.numPages], numPages := al.numPages + 1) else al
  }

  /** Where the file puts a new row: the lowest free slot of the first page with room. */
  function Choice(t: Store, tab: string, al: Alloc): Place {
    var k := WithRoom(al).free[0];
    Place(tab, Rid(k, FreeSlot(t, tab, k, 0, al.room)))
  }

  /** The file after a row was put there, which has led to `t`. */
  ghost function AfterPut(t: Store, tab: string, al: Alloc): Alloc {
    var r := WithRoom(al);
    if FullPage(t, tab, r.free[0], r.room) then r.(free := r.free[1..]) else r
  }

  /** The file after the row at `at` was taken out of `t`. */
  ghost function AfterDrop(t: Store, at: Place, al: Alloc): Alloc {
    if FullPage(t, at.tab, at.rid.pageNo, al.room) then al.(free := [at.rid.pageNo] + al.free) else al
  }

  /** The place that undoing one write uses. */
  function OwnPlace(t: Store, op: Op, als: Allocs): Place {
    if op.Delete? && op.at.tab in als then Choice(t, op.at.tab, als[op.at.tab]) else op.at
  }

  /** The files after undoing one write. */
  ghost function AllocsUndo(t: Store, op: Op, als: Allocs): Allocs {
    var tab := op.at.tab;
    if tab !in als then als
    else match op
      case Insert(r, _) => if r in t then als[tab := AfterDrop(t, r, als[tab])] else als
      case Delete(_, _) => als[tab := AfterPut(UndoOne(t, op, OwnPlace(t, op, als)), tab, als[tab])]
      case Update(_, _, _) => als
  }

  /** The places that the files choose for the rollback of all writes. */
  ghost function Choices(t: Store, als: Allocs, ops: seq<Op>): (to: seq<Place>)
    ensures |to| == |ops|
    decreases |ops|
  {
    if ops == [] then [] else
      var n := |ops| - 1;
      var p := OwnPlace(t, ops[n], als);
      Choices(UndoOne(t, ops[n], p), AllocsUndo(t, ops[n], als), ops[..n]) + [p]
  }

  // ---------- the places are free ----------

  /** The list has pages with a free slot, each once, and no row is behind the last page. */
  ghost predicate TidyTable(t: Store, tab: string, al: Alloc) {
    && 0 < al.room && (forall i, j :: 0 <= i < j < |al.free| ==> al.free[i] != al.free[j])
    && (forall k :: k in al.free ==> k < al.numPages && !FullPage(t, tab, k, al.room))
    && (forall r :: Place(tab, r) in t ==> r.pageNo < al.numPages)
  }

  ghost predicate Tidy(t: Store, als: Allocs) {
    forall tab :: tab in als ==> TidyTable(t, tab, als[tab])
  }

  lemma {:induction false} FreeSlotIs(t: Store, tab: string, k: int, s: nat, room: nat, i: nat)
    requires i <= s < room && Place(tab, Rid(k, s)) !in t && forall j :: i <= j < s ==> Place(tab, Rid(k, j)) in t
    ensures FreeSlot(t, tab, k, i, room) == s
    decreases s - i
  {
    if i < s { FreeSlotIs(t, tab, k, s, room, i + 1); }
  }

  lemma {:induction false} FreeSlotThere(t: Store, tab: string, k: int, room: nat, i: nat)
    requires i <= room && exists s :: i <= s < room && Place(tab, Rid(k, s)) !in t
    ensures i <= FreeSlot(t, tab, k, i, room) < room && Place(tab, Rid(k, FreeSlot(t, tab, k, i, room))) !in t
    decreases room - i
  {
    if Place(tab, Rid(k, i)) in t { FreeSlotThere(t, tab, k, room, i + 1); }
  }

  lemma ChoiceFree(t: Store, tab: string, al: Alloc)
    requires TidyTable(t, tab, al)
    ensures Choice(t, tab, al) !in t && 0 <= Choice(t, tab, al).rid.slotNo < al.room
  {
    var k := WithRoom(al).free[0];
    if al.free != [] {
      assert k in al.free;
    } else {
      assert Place(tab, Rid(k, 0)) !in t;
    }
    FreeSlotThere(t, tab, k, al.room, 0);
  }

  lemma OtherTable(t: Store, t': Store, tab: string, al: Alloc)
    requires TidyTable(t, tab, al) && forall r :: Place(tab, r) in t' <==> Place(tab, r) in t
    ensures TidyTable(t', tab, al)
  {
    forall k | k in al.free ensures !FullPage(t', tab, k, al.room) {
      var s :| 0 <= s < al.room && Place(tab, Rid(k, s)) !in t;
      assert Place(tab, Rid(k, s)) !in t';
    }
  }

  lemma PutTidy(t: Store, tab: string, al: Alloc, p: Place, rec: Record)
    requires TidyTable(t, tab, al) && p.tab == tab && p.rid.pageNo == WithRoom(al).free[0]
    ensures TidyTable(t[p := rec], tab, AfterPut(t[p := rec], tab, al))
  {
    var r, t' := WithRoom(al), t[p := rec];
    var a := AfterPut(t', tab, al);
    assert r.free[0] < r.numPages by { if al.free != [] { assert al.free[0] in al.free; } }
    forall q | Place(tab, q) in t' ensures q.pageNo < a.numPages { assert Place(tab, q) == p || Place(tab, q) in t; }
    forall k | k in r.free && k != r.free[0] ensures k < r.numPages && !FullPage(t', tab, k, al.room) {
      var s :| 0 <= s < al.room && Place(tab, Rid(k, s)) !in t;
      assert Place(tab, Rid(k, s)) !in t';
    }
    assert r.free == [r.free[0]] + r.free[1..];
    forall k | k in a.free ensures k < a.numPages && !FullPage(t', tab, k, a.room) {
      if FullPage(t', tab, r.free[0], r.room) { assert k in r.free && k != r.free[0]; }
    }
  }

  lemma DropTidy(t: Store, tab: string, al: Alloc, p: Place)
    requires TidyTable(t, tab, al) && p.tab == tab && p in t && 0 <= p.rid.slotNo < al.room
    ensures TidyTable(t - {p}, tab, AfterDrop(t, p, al))
  {
    var a, t' := AfterDrop(t, p, al), t - {p};
    assert Place(tab, p.rid) in t;
    forall k | k in a.free ensures !FullPage(t', tab, k, a.room) {
      if k == p.rid.pageNo {
        assert Place(tab, Rid(k, p.rid.slotNo)) !in t';
      } else {
        var s :| 0 <= s < al.room && Place(tab, Rid(k, s)) !in t;
        assert Place(tab, Rid(k, s)) !in t';
      }
    }
  }

  /** The writes are on rows of these files. */
  ghost predicate OnFiles(ops: seq<Op>, als: Allocs) {
    forall i :: 0 <= i < |ops| ==> ops[i].at.tab in als && 0 <= ops[i].at.rid.slotNo < als[ops[i].at.tab].room
  }

  lemma TidyUndo(t: Store, op: Op, als: Allocs)
    requires Tidy(t, als) && op.at.tab in als && 0 <= op.at.rid.slotNo < als[op.at.tab].room
    ensures Tidy(UndoOne(t, op, OwnPlace(t, op, als)), AllocsUndo(t, op, als))
    ensures forall tab :: tab in als ==>
              tab in AllocsUndo(t, op, als) && AllocsUndo(t, op, als)[tab].room == als[tab].room
  {
    hide TidyTable;
    var p, tab := OwnPlace(t, op, als), op.at.tab;
    var t', als' := UndoOne(t, op, p), AllocsUndo(t, op, als);
    forall a | a in als' ensures TidyTable(t', a, als'[a]) {
      if a != tab || op.Update? || (op.Insert? && op.at !in t) {
        OtherTable(t, t', a, als[a]);
      } else if op.Insert? {
        DropTidy(t, tab, als[tab], op.at);
      } else {
        PutTidy(t, tab, als[tab], p, op.was);
      }
    }
  }

  /** The files choose places that are free. */
  lemma {:induction false} ChoicesAllocate(t: Store, als: Allocs, ops: seq<Op>)
    requires Tidy(t, als) && OnFiles(ops, als)
    ensures Allocates(t, ops, Choices(t, als, ops))
    decreases |ops|
  {
    hide Tidy, UndoOne, AllocsUndo;
    if ops != [] {
      var n := |ops| - 1;
      var op := ops[n];
      TidyUndo(t, op, als);
      if op.Delete? { assert OwnPlace(t, op, als) !in t by { TidyAt(t, als, op.at.tab); } }
      var t', als' := UndoOne(t, op, OwnPlace(t, op, als)), AllocsUndo(t, op, als);
      ChoicesAllocate(t', als', ops[..n]);
      assert Choices(t, als, ops)[..n] == Choices(t', als', ops[..n]);
    }
  }

  lemma TidyAt(t: Store, als: Allocs, tab: string)
    requires Tidy(t, als) && tab in als
    ensures Choice(t, tab, als[tab]) !in t
  {
    ChoiceFree(t, tab, als[tab]);
  }

  // ---------- a rollback under way ----------

  /** The places chosen so far, and those that the files will choose from here on, are those told at the start. */
  ghost predicate OnCourse(t0: Store, als0: Allocs, ops: seq<Op>, n: nat, t: Store, als: Allocs, rest: seq<Place>) {
    n + |rest| == |ops| && Choices(t0, als0, ops) == Choices(t, als, ops[..n]) + rest
  }

  lemma CourseStart(t0: Store, als0: Allocs, ops: seq<Op>)
    ensures OnCourse(t0, als0, ops, |ops|, t0, als0, [])
  {
    assert ops[..|ops|] == ops;
  }

  lemma CourseStep(t0: Store, als0: Allocs, ops: seq<Op>, n: nat, t: Store, als: Allocs, rest: seq<Place>, p: Place)
    requires OnCourse(t0, als0, ops, n, t, als, rest) && 0 < n && p == OwnPlace(t, ops[n-1], als)
    ensures OnCourse(t0, als0, ops, n - 1, UndoOne(t, ops[n-1], p), AllocsUndo(t, ops[n-1], als), [p] + rest)
  {
    hide UndoOne, AllocsUndo, OwnPlace;
    assert ops[..n][..n-1] == ops[..n-1] && ops[..n][n-1] == ops[n-1];
  }

  lemma CourseDone(t0: Store, als0: Allocs, ops: seq<Op>, t: Store, als: Allocs, to: seq<Place>)
    requires OnCourse(t0, als0, ops, 0, t, als, to)
    ensures to == Choices(t0, als0, ops)
  {
    var none: seq<Op> := [];
    assert ops[..0] == none;
  }

  /** If the places that the files will choose put the rows back, every row that is looked for is there. */
  lemma PlacedFound(s: Store, als0: Allocs, ops: seq<Op>, n: nat, t: Store, als: Allocs, rest: seq<Place>, found: bool)
    requires LegalRun(s, ops) && Tidy(After(s, ops), als0) && OnFiles(ops, als0)
    requires OnCourse(After(s, ops), als0, ops, n, t, als, rest) && UndoneTo(After(s, ops), ops, n, t, rest, found)
    requires 0 < n && !ops[n-1].Delete? && Placed(ops, Choices(After(s, ops), als0, ops))
    ensures ops[n-1].at in t
  {
    hide Tidy, After, LegalRun, Placed, Choices;
    var t0 := After(s, ops);
    var to, pre := Choices(t0, als0, ops), Choices(t, als, ops[..n]);
    ChoicesAllocate(t0, als0, ops);
    var m := PlacedRollback(s, ops, to);
    assert SameRest(t0, ops, pre + rest, t, ops[..n], pre, found);
    assert ops[..n][n-1] == ops[n-1];
  }
}
