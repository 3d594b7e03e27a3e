/** What a transaction does to the rows of its tables, and what rolling it back does. */
module Rollback {
  import opened RecordPages

  /** A row's table and place in it. */
  datatype Place = Place(tab: string, rid: Rid)
  type Store = map<Place, Record>

  /** The writes of a transaction, with the rows as they were and as they became. */
  datatype Op =
    | Insert(at: Place, rec: Record)
    | Delete(at: Place, was: Record)
    | Update(at: Place, was: Record, rec: Record)

  predicate Legal(s: Store, op: Op) {
    match op
    case Insert(r, rec) => r !in s
    case Delete(r, was) => r in s && s[r] == was
    case Update(r, was, rec) => r in s && s[r] == was
  }

  function Apply(s: Store, op: Op): Store {
    match op
    case Insert(r, rec) => s[r := rec]
    case Delete(r, was) => s - {r}
    case Update(r, was, rec) => s[r := rec]
  }

  function After(s: Store, ops: seq<Op>): Store {
    if ops == [] then s else Apply(After(s, ops[..|ops|-1]), ops[|ops|-1])
  }

  predicate LegalRun(s: Store, ops: seq<Op>) {
    ops == [] || (LegalRun(s, ops[..|ops|-1]) && Legal(After(s, ops[..|ops|-1]), ops[|ops|-1]))
  }

  /** Undoing one write: an inserted row is deleted, a deleted row is inserted at a place of the file's choosing,
      an updated row is overwritten. */
  function UndoOne(t: Store, op: Op, to: Place): Store {
    match op
    case Insert(r, rec) => t - {r}
    case Delete(r, was) => t[to := was]
    case Update(r, was, rec) => if r in t then t[r := was] else t
  }

  /** The writes undone from the last to the first; `to` names the places chosen for re-inserted rows. */
  function Undo(t: Store, ops: seq<Op>, to: seq<Place>): Store
    requires |to| == |ops|
    decreases |ops|
  {
    if ops == [] then t else
      var n := |ops| - 1;
      Undo(UndoOne(t, ops[n], to[n]), ops[..n], to[..n])
  }

  /** Re-inserted rows go to places that are free in the same table. */
  predicate Allocates(t: Store, ops: seq<Op>, to: seq<Place>)
    requires |to| == |ops|
    decreases |ops|
  {
    ops == [] ||
    var n := |ops| - 1;
    && (ops[n].Delete? ==> to[n] !in t && to[n].tab == ops[n].at.tab)
    && Allocates(UndoOne(t, ops[n], to[n]), ops[..n], to[..n])
  }

  /** Whenever an insert or an update is undone, there is a row at its place. */
  predicate Clean(t: Store, ops: seq<Op>, to: seq<Place>)
    requires |to| == |ops|
    decreases |ops|
  {
    ops == [] ||
    var n := |ops| - 1;
    && (!ops[n].Delete? ==> ops[n].at in t)
    && Clean(UndoOne(t, ops[n], to[n]), ops[..n], to[..n])
  }

  /** No row is deleted that the transaction has inserted or updated before. */
  predicate Safe(ops: seq<Op>) {
    forall i, j :: 0 <= i < j < |ops| && ops[j].Delete? && ops[i].at == ops[j].at ==> ops[i].Delete?
  }

  /** `t` has the rows of `s`, each in its table at the place that `m` gives. */
  ghost predicate Moved(s: Store, t: Store, m: map<Place, Place>) {
    && m.Keys == s.Keys
    && (forall r :: r in m ==> m[r] in t && t[m[r]] == s[r] && m[r].tab == r.tab)
    && (forall r, q :: r in m && q in m && m[r] == m[q] ==> r == q)
    && (forall p :: p in t ==> exists r :: r in m && m[r] == p)
  }

  predicate DeletedIn(ops: seq<Op>, r: Place) {
    exists i :: 0 <= i < |ops| && ops[i].Delete? && ops[i].at == r
  }

  /** Write `j` is the first to delete the row again that write `i` has made or found at its place. */
  ghost predicate NextDelete(ops: seq<Op>, i: int, j: int) {
    && 0 <= i < j < |ops| && ops[j].Delete? && ops[j].at == ops[i].at
    && forall h :: i < h < j && ops[h].at == ops[i].at ==> !ops[h].Delete?
  }

  /** Every row that was inserted or updated and then deleted is put back where it was. */
  ghost predicate Placed(ops: seq<Op>, to: seq<Place>)
    requires |to| == |ops|
  {
    forall i, j :: NextDelete(ops, i, j) && !ops[i].Delete? ==> to[j] == ops[j].at
  }

  // ---------- following the rows through a rollback ----------

  ghost function MovedBack(m: map<Place, Place>, op: Op, to: Place): map<Place, Place> {
    match op
    case Insert(r, rec) => m - {r}
    case Delete(r, was) => m[r := to]
    case Update(r, was, rec) => m
  }

  lemma UndoInsertMoved(s: Store, r: Place, rec: Record, t: Store, m: map<Place, Place>)
    requires r !in s && Moved(s[r := rec], t, m) && m[r] == r
    ensures Moved(s, t - {r}, m - {r})
  {
    var m' := m - {r};
    assert s.Keys == m'.Keys;
    forall p | p in t - {r} ensures exists q :: q in m' && m'[q] == p {
      var q :| q in m && m[q] == p;
      assert q in m';
    }
  }

  lemma UndoDeleteMoved(s: Store, r: Place, t: Store, to: Place, m: map<Place, Place>)
    requires r in s && Moved(s - {r}, t, m) && to !in t && to.tab == r.tab
    ensures Moved(s, t[to := s[r]], m[r := to])
  {
    var m', t' := m[r := to], t[to := s[r]];
    forall p | p in t' ensures exists q :: q in m' && m'[q] == p {
      if p == to { assert m'[r] == p; } else {
        var q :| q in m && m[q] == p;
        assert m'[q] == p;
      }
    }
  }

  lemma MovedKeys(s: Store, t: Store, m: map<Place, Place>)
    requires Moved(s, t, m)
    ensures m.Keys == s.Keys && forall r :: r in m ==> m[r] in t
  {
  }

  /** Undoing one write on its own row. */
  lemma UndoOneMoved(s: Store, op: Op, t: Store, to: Place, m: map<Place, Place>)
    requires Legal(s, op) && Moved(Apply(s, op), t, m)
    requires op.Delete? ==> to !in t && to.tab == op.at.tab
    requires !op.Delete? ==> op.at in m && m[op.at] == op.at
    ensures Moved(s, UndoOne(t, op, to), MovedBack(m, op, to))
  {
    match op
    case Insert(r, rec) => UndoInsertMoved(s, r, rec, t, m);
    case Delete(r, was) => UndoDeleteMoved(s, r, t, to, m);
    case Update(r, was, rec) =>
  }

  lemma MovedSame(t: Store)
    ensures Moved(t, t, InPlace(t))
  {
    var m := InPlace(t);
    assert forall p :: p in t ==> p in m && m[p] == p;
  }

  /** The writes are undone on the rows they were made on. The map says where each row is. */
  ghost predicate Own(m: map<Place, Place>, ops: seq<Op>, to: seq<Place>)
    requires |to| == |ops|
    decreases |ops|
  {
    ops == [] ||
    var n := |ops| - 1;
    && (!ops[n].Delete? ==> ops[n].at in m && m[ops[n].at] == ops[n].at)
    && Own(MovedBack(m, ops[n], to[n]), ops[..n], to[..n])
  }

  ghost function InPlace(t: Store): map<Place, Place> { map r | r in t :: r }

  lemma LastWrite(s: Store, ops: seq<Op>)
    requires LegalRun(s, ops) && ops != []
    ensures var n := |ops| - 1; var op := ops[n];
            && LegalRun(s, ops[..n]) && Legal(After(s, ops[..n]), op) && After(s, ops) == Apply(After(s, ops[..n]), op)
            && (!op.Delete? ==> op.at in After(s, ops))
  {
  }

  lemma NoWrites(s: Store, ops: seq<Op>)
    requires ops == []
    ensures After(s, ops) == s
  {
  }

  lemma NotDeleted(ops: seq<Op>, r: Place)
    requires ops != [] && !DeletedIn(ops, r)
    ensures var n := |ops| - 1; !DeletedIn(ops[..n], r) && !(ops[n].Delete? && ops[n].at == r)
  {
  }

  /** A rollback that undoes the writes on their own rows finds every row it looks for and brings back all rows as they
      were, those not deleted where they are. */
  lemma {:induction false} OwnUndo(s: Store, ops: seq<Op>, t: Store, to: seq<Place>, m: map<Place, Place>)
      returns (m': map<Place, Place>)
    requires |to| == |ops| && LegalRun(s, ops) && Allocates(t, ops, to) && Moved(After(s, ops), t, m) && Own(m, ops, to)
    ensures Clean(t, ops, to) && Moved(s, Undo(t, ops, to), m')
    ensures forall r :: r in m' && !DeletedIn(ops, r) ==> r in m && m'[r] == m[r]
    decreases |ops|
  {
    hide Moved, After, LegalRun, Apply, Legal, UndoOne, MovedBack, DeletedIn;
    MovedKeys(After(s, ops), t, m);
    if ops == [] {
      NoWrites(s, ops);
      return m;
    }
    var n := |ops| - 1;
    var op := ops[n];
    LastWrite(s, ops);
    UndoOneMoved(After(s, ops[..n]), op, t, to[n], m);
    m' := OwnUndo(s, ops[..n], UndoOne(t, op, to[n]), to[..n], MovedBack(m, op, to[n]));
    forall r | r in m' && !DeletedIn(ops, r) ensures r in m && m'[r] == m[r] {
      NotDeleted(ops, r);
      StaysAt(m, op, to[n], r);
    }
  }

  lemma StaysAt(m: map<Place, Place>, op: Op, to: Place, r: Place)
    requires r in MovedBack(m, op, to) && !(op.Delete? && op.at == r)
    ensures r in m && MovedBack(m, op, to)[r] == m[r]
  {
  }

  // ---------- when writes are undone on their own rows ----------

  /** Placed, with the rows of the places in `away` having been put elsewhere. */
  predicate PlacedBefore(ops: seq<Op>, to: seq<Place>, away: set<Place>)
    requires |to| == |ops|
    decreases |ops|
  {
    ops == [] ||
    var n := |ops| - 1;
    (!ops[n].Delete? ==> ops[n].at !in away) && PlacedBefore(ops[..n], to[..n], AwayBefore(away, ops[n], to[n]))
  }

  function AwayBefore(away: set<Place>, op: Op, to: Place): set<Place> {
    if !op.Delete? then away else if to == op.at then away - {op.at} else away + {op.at}
  }

  lemma {:induction false} OwnIsPlacedBefore(s: Store, ops: seq<Op>, m: map<Place, Place>, to: seq<Place>,
                                             away: set<Place>)
    requires |to| == |ops| && LegalRun(s, ops) && m.Keys == After(s, ops).Keys
             && forall r :: r in m ==> (m[r] == r <==> r !in away)
    ensures Own(m, ops, to) <==> PlacedBefore(ops, to, away)
    decreases |ops|
  {
    if ops != [] {
      var n := |ops| - 1;
      LastWrite(s, ops);
      var m', away' := MovedBack(m, ops[n], to[n]), AwayBefore(away, ops[n], to[n]);
      assert m'.Keys == After(s, ops[..n]).Keys;
      OwnIsPlacedBefore(s, ops[..n], m', to[..n], away');
    }
  }

  /** The first deletion of a row behind write `i`. */
  lemma FirstDelete(ops: seq<Op>, i: nat, k: nat) returns (j: nat)
    requires i < k < |ops| && ops[k].Delete? && ops[k].at == ops[i].at
    ensures NextDelete(ops, i, j) && j <= k
  {
    j := i + 1;
    while !(ops[j].Delete? && ops[j].at == ops[i].at)
      invariant i < j <= k && forall h :: i < h < j && ops[h].at == ops[i].at ==> !ops[h].Delete?
      decreases k - j
    {
      j := j + 1;
    }
  }

  ghost predicate DeletedAfter(ops: seq<Op>, i: int) {
    exists j :: NextDelete(ops, i, j)
  }

  lemma NextDeletePrefix(ops: seq<Op>, i: int, j: int)
    requires ops != [] && j < |ops| - 1
    ensures NextDelete(ops, i, j) <==> NextDelete(ops[..|ops|-1], i, j)
  {
  }

  lemma PlacedPrefix(ops: seq<Op>, to: seq<Place>)
    requires |to| == |ops| > 0
    ensures var n := |ops| - 1;
            Placed(ops, to) <==>
                Placed(ops[..n], to[..n]) && forall i :: NextDelete(ops, i, n) && !ops[i].Delete? ==> to[n] == ops[n].at
  {
    var n := |ops| - 1;
    forall i, j | j < n ensures NextDelete(ops, i, j) <==> NextDelete(ops[..n], i, j) { NextDeletePrefix(ops, i, j); }
    if Placed(ops[..n], to[..n]) && forall i :: NextDelete(ops, i, n) && !ops[i].Delete? ==> to[n] == ops[n].at {
      forall i, j | NextDelete(ops, i, j) && !ops[i].Delete? ensures to[j] == ops[j].at {
        if j < n { assert NextDelete(ops[..n], i, j); }
      }
    }
    if Placed(ops, to) {
      forall i, j | NextDelete(ops[..n], i, j) && !ops[..n][i].Delete? ensures to[..n][j] == ops[..n][j].at {
        assert NextDelete(ops, i, j);
      }
    }
  }

  lemma DeletedAfterPrefix(ops: seq<Op>, i: nat)
    requires i < |ops| - 1
    ensures var n := |ops| - 1; DeletedAfter(ops, i) <==> DeletedAfter(ops[..n], i) || NextDelete(ops, i, n)
    ensures var n := |ops| - 1; ops[n].Delete? && ops[n].at == ops[i].at ==> DeletedAfter(ops, i)
    ensures var n := |ops| - 1; !(DeletedAfter(ops[..n], i) && NextDelete(ops, i, n))
  {
    var n := |ops| - 1;
    forall j | j < n ensures NextDelete(ops, i, j) <==> NextDelete(ops[..n], i, j) { NextDeletePrefix(ops, i, j); }
    if ops[n].Delete? && ops[n].at == ops[i].at { var j := FirstDelete(ops, i, n); }
  }

  ghost predicate AllReturn(ops: seq<Op>, away: set<Place>) {
    forall i :: 0 <= i < |ops| && !ops[i].Delete? && ops[i].at in away ==> DeletedAfter(ops, i)
  }

  lemma {:induction false} PlacedBeforeIs(ops: seq<Op>, to: seq<Place>, away: set<Place>)
    requires |to| == |ops|
    ensures PlacedBefore(ops, to, away) <==> Placed(ops, to) && AllReturn(ops, away)
    decreases |ops|
  {
    if ops != [] {
      hide Placed, NextDelete;
      var n := |ops| - 1;
      PlacedBeforeIs(ops[..n], to[..n], AwayBefore(away, ops[n], to[n]));
      PlacedPrefix(ops, to);
      ReturnStep(ops, to[n], away);
    }
  }

  lemma ReturnStep(ops: seq<Op>, to: Place, away: set<Place>)
    requires ops != []
    ensures var n := |ops| - 1;
            ((!ops[n].Delete? ==> ops[n].at !in away) && AllReturn(ops[..n], AwayBefore(away, ops[n], to))) <==>
            ((forall i :: NextDelete(ops, i, n) && !ops[i].Delete? ==> to == ops[n].at) && AllReturn(ops, away))
  {
    var n := |ops| - 1;
    assert !DeletedAfter(ops, n);
    forall i | 0 <= i < n
      ensures ops[..n][i] == ops[i]
      ensures DeletedAfter(ops, i) <==> DeletedAfter(ops[..n], i) || NextDelete(ops, i, n)
      ensures ops[n].Delete? && ops[n].at == ops[i].at ==> DeletedAfter(ops, i)
      ensures !(DeletedAfter(ops[..n], i) && NextDelete(ops, i, n))
    {
      DeletedAfterPrefix(ops, i);
    }
  }

  /** The writes of a transaction are undone on their own rows exactly when every row that it inserted or updated and
      then deleted is put back where it was. */
  lemma OwnExact(s: Store, ops: seq<Op>, to: seq<Place>)
    requires |to| == |ops| && LegalRun(s, ops)
    ensures Own(InPlace(After(s, ops)), ops, to) <==> Placed(ops, to)
  {
    OwnIsPlacedBefore(s, ops, InPlace(After(s, ops)), to, {});
    PlacedBeforeIs(ops, to, {});
  }

  /** In that case the rollback restores the rows. */
  lemma PlacedRollback(s: Store, ops: seq<Op>, to: seq<Place>) returns (m: map<Place, Place>)
    requires |to| == |ops| && LegalRun(s, ops) && Placed(ops, to) && Allocates(After(s, ops), ops, to)
    ensures Clean(After(s, ops), ops, to) && Moved(s, Undo(After(s, ops), ops, to), m)
    ensures forall r :: r in s && !DeletedIn(ops, r) ==> r in m && m[r] == r
  {
    OwnExact(s, ops, to);
    MovedSame(After(s, ops));
    m := OwnUndo(s, ops, After(s, ops), to, InPlace(After(s, ops)));
    MovedKeys(s, Undo(After(s, ops), ops, to), m);
  }

  /** A safe transaction is put back wherever deleted rows go. */
  lemma SafeRollback(s: Store, ops: seq<Op>, to: seq<Place>) returns (m: map<Place, Place>)
    requires |to| == |ops| && LegalRun(s, ops) && Safe(ops) && Allocates(After(s, ops), ops, to)
    ensures Clean(After(s, ops), ops, to) && Moved(s, Undo(After(s, ops), ops, to), m)
    ensures forall r :: r in s && !DeletedIn(ops, r) ==> r in m && m[r] == r
  {
    m := PlacedRollback(s, ops, to);
  }

  // ---------- unsafe transactions ----------

  ghost predicate Below(p: Place, bound: int) { p.rid.pageNo < bound }

  function Fresh(ops: seq<Op>, bound: int): seq<Place> {
    seq(|ops|, i requires 0 <= i < |ops| => Place(ops[i].at.tab, Rid(bound + i, 0)))
  }

  /** With re-inserted rows at new places, a row that is found at its place is the row itself. */
  lemma {:induction false} FreshOwn(s: Store, ops: seq<Op>, t: Store, m: map<Place, Place>, bound: int)
    requires LegalRun(s, ops) && Clean(t, ops, Fresh(ops, bound)) && m.Keys == After(s, ops).Keys
    requires forall i :: 0 <= i < |ops| ==> Below(ops[i].at, bound)
    requires forall r :: Below(r, bound) ==> (r in t <==> r in m && m[r] == r)
    ensures Own(m, ops, Fresh(ops, bound))
    decreases |ops|
  {
    if ops != [] {
      var n := |ops| - 1;
      var op, to := ops[n], Fresh(ops, bound);
      LastWrite(s, ops);
      assert to[..n] == Fresh(ops[..n], bound);
      assert MovedBack(m, op, to[n]).Keys == After(s, ops[..n]).Keys;
      FreshOwn(s, ops[..n], UndoOne(t, op, to[n]), MovedBack(m, op, to[n]), bound);
    }
  }

  lemma {:induction false} FreshAllocates(ops: seq<Op>, t: Store, bound: int)
    requires forall r :: r in t ==> Below(r, bound) || bound + |ops| <= r.rid.pageNo
    ensures Allocates(t, ops, Fresh(ops, bound))
    decreases |ops|
  {
    if ops != [] {
      var n := |ops| - 1;
      var op, to := ops[n], Fresh(ops, bound);
      assert to[..n] == Fresh(ops[..n], bound);
      assert op.Update? && op.at in t ==> Below(op.at, bound) || bound + |ops| <= op.at.rid.pageNo;
      FreshAllocates(ops[..n], UndoOne(t, op, to[n]), bound);
    }
  }

  lemma PlacesBelow(places: set<Place>) returns (bound: int)
    ensures forall r :: r in places ==> Below(r, bound)
  {
    bound := 0;
    var todo := places;
    while todo != {}
      invariant todo <= places && forall r :: r in places && r !in todo ==> Below(r, bound)
    {
      var r :| r in todo;
      bound := if r.rid.pageNo < bound then bound else r.rid.pageNo + 1;
      todo := todo - {r};
    }
  }

  /** New places are not the old ones, so that only a safe transaction is placed. */
  lemma FreshPlaced(ops: seq<Op>, bound: int)
    requires (forall i :: 0 <= i < |ops| ==> Below(ops[i].at, bound)) && Placed(ops, Fresh(ops, bound))
    ensures Safe(ops)
  {
    forall i, k | 0 <= i < k < |ops| && ops[k].Delete? && ops[i].at == ops[k].at ensures ops[i].Delete? {
      var j := FirstDelete(ops, i, k);
    }
  }

  /** The rollback finds every row it looks for, and all rows of the start are back. */
  ghost predicate Restores(s: Store, ops: seq<Op>, to: seq<Place>)
    requires |to| == |ops|
  {
    Clean(After(s, ops), ops, to) && exists m :: Moved(s, Undo(After(s, ops), ops, to), m)
  }

  /** A rollback restores the rows for every choice of free places exactly if the transaction is safe. */
  lemma RollbackExact(s: Store, ops: seq<Op>)
    requires LegalRun(s, ops)
    ensures Safe(ops) <==>
              forall to: seq<Place> :: |to| == |ops| && Allocates(After(s, ops), ops, to) ==> Restores(s, ops, to)
  {
    var t := After(s, ops);
    if Safe(ops) {
      forall to: seq<Place> | |to| == |ops| && Allocates(t, ops, to) ensures Restores(s, ops, to) {
        var m := SafeRollback(s, ops, to);
      }
    } else {
      var used := set i | 0 <= i < |ops| :: ops[i].at;
      var bound := PlacesBelow(t.Keys + used);
      assert forall i :: 0 <= i < |ops| ==> ops[i].at in used;
      var to := Fresh(ops, bound);
      FreshAllocates(ops, t, bound);
      if Clean(t, ops, to) {
        FreshOwn(s, ops, t, InPlace(t), bound);
        OwnExact(s, ops, to);
        FreshPlaced(ops, bound);
      }
      assert |to| == |ops| && Allocates(t, ops, to) && !Restores(s, ops, to);
    }
  }

  // ---------- a rollback under way ----------

  /** No slot below the place is free. */
  predicate LowestAt(t: Store, p: Place) {
    forall s :: 0 <= s < p.rid.slotNo ==> Place(p.tab, Rid(p.rid.pageNo, s)) in t
  }

  /** Re-inserted rows go to the lowest free slot of their pages. */
  predicate Lowest(t: Store, ops: seq<Op>, to: seq<Place>)
    requires |to| == |ops|
    decreases |ops|
  {
    ops == [] ||
    var n := |ops| - 1;
    (ops[n].Delete? ==> LowestAt(t, to[n])) && Lowest(UndoOne(t, ops[n], to[n]), ops[..n], to[..n])
  }

  /** Whenever an insert is undone, there is a row at its place. */
  predicate Survives(t: Store, ops: seq<Op>, to: seq<Place>)
    requires |to| == |ops|
    decreases |ops|
  {
    ops == [] ||
    var n := |ops| - 1;
    (ops[n].Insert? ==> ops[n].at in t) && Survives(UndoOne(t, ops[n], to[n]), ops[..n], to[..n])
  }

  /** The writes from `n` on have been undone, which has led to `t`, with `rest` as the places chosen. So far all rows
      looked for were there if `found` says so. */
  ghost predicate UndoneTo(t0: Store, ops: seq<Op>, n: nat, t: Store, rest: seq<Place>, found: bool) {
    n + |rest| == |ops| && forall pre: seq<Place> :: |pre| == n ==>
        SameRest(t0, ops, pre + rest, t, ops[..n], pre, found)
  }

  ghost predicate SameRest(t0: Store, ops: seq<Op>, to: seq<Place>, t: Store, left: seq<Op>, pre: seq<Place>,
                           found: bool)
    requires |to| == |ops| && |pre| == |left|
  {
    && Undo(t0, ops, to) == Undo(t, left, pre)
    && (Allocates(t0, ops, to) <==> Allocates(t, left, pre))
    && (Lowest(t0, ops, to) <==> Lowest(t, left, pre))
    && (Survives(t0, ops, to) <==> Survives(t, left, pre))
    && (Clean(t0, ops, to) <==> found && Clean(t, left, pre))
  }

  lemma UndoneNone(t0: Store, ops: seq<Op>)
    ensures UndoneTo(t0, ops, |ops|, t0, [], true)
  {
    assert ops[..|ops|] == ops;
    forall pre: seq<Place> | |pre| == |ops| ensures SameRest(t0, ops, pre + [], t0, ops[..|ops|], pre, true) {
      assert pre + [] == pre;
    }
  }

  lemma UndoneStep(t0: Store, ops: seq<Op>, n: nat, t: Store, rest: seq<Place>, found: bool, to: Place)
    requires UndoneTo(t0, ops, n, t, rest, found) && 0 < n && (ops[n-1].Insert? ==> ops[n-1].at in t)
    requires ops[n-1].Delete? ==> to !in t && to.tab == ops[n-1].at.tab && LowestAt(t, to)
    ensures UndoneTo(t0, ops, n - 1, UndoOne(t, ops[n-1], to), [to] + rest, found
                     && (ops[n-1].Delete? || ops[n-1].at in t))
  {
    hide UndoOne, LowestAt;
    var t', found' := UndoOne(t, ops[n-1], to), found && (ops[n-1].Delete? || ops[n-1].at in t);
    forall pre: seq<Place> | |pre| == n - 1
      ensures SameRest(t0, ops, pre + ([to] + rest), t', ops[..n-1], pre, found')
    {
      var pre' := pre + [to];
      assert pre' + rest == pre + ([to] + rest) && pre'[..n-1] == pre && ops[..n][..n-1] == ops[..n-1];
      assert SameRest(t0, ops, pre' + rest, t, ops[..n], pre', found);
    }
  }

  /** All is undone: the tables are the outcome of the undo with the places chosen. */
  lemma UndoneAll(t0: Store, ops: seq<Op>, t: Store, to: seq<Place>, found: bool)
    requires UndoneTo(t0, ops, 0, t, to, found)
    ensures |to| == |ops| && Undo(t0, ops, to) == t && Allocates(t0, ops, to) && Lowest(t0, ops, to)
            && Survives(t0, ops, to)
    ensures found <==> Clean(t0, ops, to)
  {
    var none: seq<Place> := [];
    assert none + to == to && ops[..0] == [];
    assert SameRest(t0, ops, none + to, t, ops[..0], none, found);
  }

  lemma {:induction false} FreshLowest(ops: seq<Op>, t: Store, bound: int)
    ensures Lowest(t, ops, Fresh(ops, bound))
    decreases |ops|
  {
    if ops != [] {
      var n := |ops| - 1;
      assert Fresh(ops, bound)[..n] == Fresh(ops[..n], bound);
      FreshLowest(ops[..n], UndoOne(t, ops[n], Fresh(ops, bound)[n]), bound);
    }
  }

  /** A row that is looked for and not there: whatever places follow, the rollback does not find all rows, so that the
      transaction is unsafe. If it is the row of an insert, it does not survive. */
  lemma MissingRow(s: Store, ops: seq<Op>, n: nat, t: Store, rest: seq<Place>, found: bool) returns (to: seq<Place>)
    requires LegalRun(s, ops) && UndoneTo(After(s, ops), ops, n, t, rest, found) && 0 < n && !ops[n-1].Delete?
             && ops[n-1].at !in t
    ensures !Safe(ops) && |to| == |ops| && to[n..] == rest && Allocates(After(s, ops), ops, to)
            && Lowest(After(s, ops), ops, to)
    ensures !Clean(After(s, ops), ops, to) && (ops[n-1].Insert? ==> !Survives(After(s, ops), ops, to))
  {
    hide Undo;
    var t0, left := After(s, ops), ops[..n];
    var bound := PlacesBelow(t.Keys);
    var pre := Fresh(left, bound);
    to := pre + rest;
    FreshAllocates(left, t, bound);
    FreshLowest(left, t, bound);
    assert SameRest(t0, ops, to, t, left, pre, found);
    if Safe(ops) { var _ := SafeRollback(s, ops, to); }
  }

  // ---------- a transaction that loses a row, and one that does not ----------

  function Slot(tab: string, slotNo: int): Place { Place(tab, Rid(1, slotNo)) }

  /** Inserts a row into slot 1 and deletes it and the row in slot 0. */
  function LosingOps(tab: string, a: Record, b: Record): seq<Op> {
    [Insert(Slot(tab, 1), b), Delete(Slot(tab, 0), a), Delete(Slot(tab, 1), b)]
  }

  lemma LosingRun(tab: string, a: Record, b: Record)
    ensures var s := map[Slot(tab, 0) := a];
            LegalRun(s, LosingOps(tab, a, b)) && After(s, LosingOps(tab, a, b)) == map[]
  {
    var p, q, ops := Slot(tab, 0), Slot(tab, 1), LosingOps(tab, a, b);
    var s, o1, o2 := map[p := a], [Insert(q, b)], [Insert(q, b), Delete(p, a)];
    assert ops[..2] == o2 && o2[..1] == o1 && o1[..0] == [];
    var o0: seq<Op> := [];
    assert o1[..|o1|-1] == o0 && After(s, o0) == s && LegalRun(s, o0);
    assert LegalRun(s, o1) && After(s, o1) == map[p := a, q := b];
    assert LegalRun(s, o2) && After(s, o2) == map[q := b];
  }

  /** Re-inserting the rows into the lowest free slots exchanges the two, and undoing the insert then deletes the row
      that was there before. */
  lemma {:induction false} LosingUndo(tab: string, a: Record, b: Record, to: seq<Place>)
    requires |to| == 3 && to[1] == Slot(tab, 1) && to[2] == Slot(tab, 0)
    ensures var ops := LosingOps(tab, a, b);
            && Allocates(map[], ops, to) && Clean(map[], ops, to) && Survives(map[], ops, to)
            && Undo(map[], ops, to) == map[Slot(tab, 0) := b]
  {
    var p, q, ops := Slot(tab, 0), Slot(tab, 1), LosingOps(tab, a, b);
    var o2, t2, t1 := [Insert(q, b), Delete(p, a)], map[p := b], map[p := b, q := a];
    assert ops[..2] == o2 && to[..2] == [to[0], q];
    assert UndoOne(map[], ops[2], p) == t2 && UndoOne(t2, o2[1], q) == t1 && UndoOne(t1, o2[0], to[0]) == map[p := b];
    UndoOneWrite(t2, o2[1], q);
    UndoOneWrite(t1, o2[0], to[0]);
    UndoTwo(t2, o2, [to[0], q]);
  }

  /** One row is in the table. The transaction inserts another behind it and deletes both. */
  lemma {:induction false} LostRow(tab: string, a: Record, b: Record, to: seq<Place>)
    requires a != b && |to| == 3 && to[1] == Slot(tab, 1) && to[2] == Slot(tab, 0)
    ensures var s, ops := map[Slot(tab, 0) := a], LosingOps(tab, a, b);
            && LegalRun(s, ops) && !Safe(ops) && !Placed(ops, to) && Allocates(After(s, ops), ops, to)
            && Clean(After(s, ops), ops, to)
            && Undo(After(s, ops), ops, to) == map[Slot(tab, 0) := b] && !Restores(s, ops, to)
  {
    var p, ops := Slot(tab, 0), LosingOps(tab, a, b);
    LosingRun(tab, a, b);
    LosingUndo(tab, a, b, to);
    assert !Safe(ops) by { assert ops[0].at == ops[2].at; }
    assert !Placed(ops, to) by { assert NextDelete(ops, 0, 2); }
    assert forall m :: !Moved(map[p := a], map[p := b], m) by { OtherRow(p, a, b); }
  }

  lemma OtherRow(p: Place, a: Record, b: Record)
    requires a != b
    ensures forall m :: !Moved(map[p := a], map[p := b], m)
  {
    forall m ensures !Moved(map[p := a], map[p := b], m) {
      assert m.Keys == {p} ==> p in m;
    }
  }

  lemma UndoOneWrite(t: Store, op: Op, to: Place)
    ensures Undo(t, [op], [to]) == UndoOne(t, op, to)
    ensures Allocates(t, [op], [to]) <==> (op.Delete? ==> to !in t && to.tab == op.at.tab)
    ensures Clean(t, [op], [to]) <==> (!op.Delete? ==> op.at in t)
    ensures Survives(t, [op], [to]) <==> (op.Insert? ==> op.at in t)
  {
    assert [op][..0] == [] && [to][..0] == [];
  }

  lemma UndoTwo(t: Store, ops: seq<Op>, to: seq<Place>)
    requires |ops| == |to| == 2
    ensures var t1 := UndoOne(t, ops[1], to[1]);
            && Undo(t, ops, to) == UndoOne(t1, ops[0], to[0])
            && (Allocates(t, ops, to) <==> Allocates(t, [ops[1]], [to[1]]) && Allocates(t1, [ops[0]], [to[0]]))
            && (Clean(t, ops, to) <==> Clean(t, [ops[1]], [to[1]]) && Clean(t1, [ops[0]], [to[0]]))
            && (Survives(t, ops, to) <==> Survives(t, [ops[1]], [to[1]]) && Survives(t1, [ops[0]], [to[0]]))
  {
    assert ops[..1] == [ops[0]] && to[..1] == [to[0]];
    UndoOneWrite(t, ops[1], to[1]);
    UndoOneWrite(UndoOne(t, ops[1], to[1]), ops[0], to[0]);
  }

  lemma AtMost(t: Store, p: Place, s: int)
    requires LowestAt(t, p) && 0 <= s && Place(p.tab, Rid(p.rid.pageNo, s)) !in t
    ensures p.rid.slotNo <= s
  {
  }

  /** In a table of one page the lowest free slots are those. */
  lemma {:induction false} LosingChoice(tab: string, a: Record, b: Record, to: seq<Place>)
    requires var ops := LosingOps(tab, a, b); |to| == 3 && Allocates(map[], ops, to) && Lowest(map[], ops, to)
    requires to[1].rid.pageNo == to[2].rid.pageNo == 1 && 0 <= to[1].rid.slotNo && 0 <= to[2].rid.slotNo
    ensures to[1] == Slot(tab, 1) && to[2] == Slot(tab, 0)
  {
    var ops := LosingOps(tab, a, b);
    var t0: Store := map[];
    AtMost(t0, to[2], 0);
    var t2 := UndoOne(t0, ops[2], to[2]);
    assert ops[..2][1] == ops[1] && to[..2][1] == to[1];
    assert t2 == map[Slot(tab, 0) := b] && to[1] !in t2;
    AtMost(t2, to[1], 1);
  }

  /** Inserts a row into slot 1 and deletes it again. */
  function KeepingOps(tab: string, b: Record): seq<Op> {
    [Insert(Slot(tab, 1), b), Delete(Slot(tab, 1), b)]
  }

  lemma {:induction false} OneInsert(tab: string, a: Record, b: Record)
    ensures var s, ops := map[Slot(tab, 0) := a], [Insert(Slot(tab, 1), b)];
            LegalRun(s, ops) && After(s, ops) == map[Slot(tab, 0) := a, Slot(tab, 1) := b]
  {
    var s, ops := map[Slot(tab, 0) := a], [Insert(Slot(tab, 1), b)];
    var o0: seq<Op> := [];
    assert ops[..|ops|-1] == o0 && After(s, o0) == s && LegalRun(s, o0);
  }

  lemma {:induction false} KeepingRun(tab: string, a: Record, b: Record)
    ensures var s := map[Slot(tab, 0) := a]; LegalRun(s, KeepingOps(tab, b)) && After(s, KeepingOps(tab, b)) == s
  {
    OneInsert(tab, a, b);
    assert KeepingOps(tab, b)[..1] == [Insert(Slot(tab, 1), b)];
  }

  /** The row is put back into slot 1, the lowest free one, so that the rows are as they were, although the transaction
      is not safe. */
  lemma {:induction false} KeptRow(tab: string, a: Record, b: Record, to: seq<Place>)
    requires var s, ops := map[Slot(tab, 0) := a], KeepingOps(tab, b);
             |to| == 2 && Allocates(After(s, ops), ops, to) && Lowest(After(s, ops), ops, to)
    requires to[1].rid.pageNo == 1 && 0 <= to[1].rid.slotNo
    ensures var s, ops := map[Slot(tab, 0) := a], KeepingOps(tab, b);
            !Safe(ops) && Placed(ops, to) && Survives(s, ops, to) && Undo(s, ops, to) == s
  {
    var p, q, s, ops := Slot(tab, 0), Slot(tab, 1), map[Slot(tab, 0) := a], KeepingOps(tab, b);
    KeepingRun(tab, a, b);
    AtMost(s, to[1], 1);
    assert to[1] == q;
    assert !Safe(ops) by { assert ops[0].at == ops[1].at; }
    UndoTwo(s, ops, to);
    UndoOneWrite(s, ops[1], to[1]);
    UndoOneWrite(s[q := b], ops[0], to[0]);
    assert s[q := b] - {q} == s;
  }
}
