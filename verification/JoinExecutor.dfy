/** Scans and block nested-loop joins as iterators, stacked as in the plan tree. */
module JoinExecutor {
  import opened Wrappers
  import opened Planner
  import opened Conditions

  const SIZE_MODULUS := 0x1_0000_0000_0000_0000
  const MAX_BUFFER_SIZE := 2048

  // ---------- the order in which a join delivers ----------

  function Min(a: nat, b: nat): nat { if a < b then a else b }

  /** The matches of all blocks of left rows from position `b` on. */
  ghost function BlockRows(db: Database, ls: seq<Env>, b: nat, rs: seq<Env>, cs: seq<Condition>): seq<Env>
    requires b <= |ls|
    decreases |ls| - b
  {
    if b == |ls| then []
    else
      var b' := Min(b + MAX_BUFFER_SIZE, |ls|);
      JoinRows(db, ls[b..b'], rs, cs) + BlockRows(db, ls, b', rs, cs)
  }

  lemma Assoc<X>(a: seq<X>, b: seq<X>, c: seq<X>)
    ensures a + (b + c) == (a + b) + c
  {
  }

  lemma NoMatch(db: Database, b: Env, cs: seq<Condition>)
    ensures MatchRows(db, [], b, cs) == []
  {
  }

  lemma MatchFirst(db: Database, x: seq<Env>, b: Env, cs: seq<Condition>)
    requires x != []
    ensures MatchRows(db, x, b, cs) ==
            (if SatAll(db, x[0] + b, cs) then [x[0] + b] else []) + MatchRows(db, x[1..], b, cs)
  {
  }

  lemma {:induction false} MatchAppend(db: Database, x: seq<Env>, y: seq<Env>, b: Env, cs: seq<Condition>)
    ensures MatchRows(db, x + y, b, cs) == MatchRows(db, x, b, cs) + MatchRows(db, y, b, cs)
  {
    hide SatAll, MatchRows;
    if x == [] {
      assert x + y == y;
      NoMatch(db, b, cs);
    } else {
      MatchAppend(db, x[1..], y, b, cs);
      assert (x + y)[0] == x[0] && (x + y)[1..] == x[1..] + y;
      MatchFirst(db, x, b, cs);
      MatchFirst(db, x + y, b, cs);
      var h := if SatAll(db, x[0] + b, cs) then [x[0] + b] else [];
      Assoc(h, MatchRows(db, x[1..], b, cs), MatchRows(db, y, b, cs));
    }
  }

  lemma SumSplit<X>(p: seq<X>, q: seq<X>, x: seq<X>, y: seq<X>, z: seq<X>)
    requires multiset(z) == multiset(x) + multiset(y)
    ensures multiset(p + q + z) == multiset(p + x) + multiset(q + y)
  {
  }

  lemma {:induction false} JoinSplit(db: Database, x: seq<Env>, y: seq<Env>, rs: seq<Env>, cs: seq<Condition>)
    ensures multiset(JoinRows(db, x + y, rs, cs)) ==
            multiset(JoinRows(db, x, rs, cs)) + multiset(JoinRows(db, y, rs, cs))
  {
    if rs != [] {
      hide MatchRows;
      JoinSplit(db, x, y, rs[1..], cs);
      MatchAppend(db, x, y, rs[0], cs);
      SumSplit(MatchRows(db, x, rs[0], cs), MatchRows(db, y, rs[0], cs),
               JoinRows(db, x, rs[1..], cs), JoinRows(db, y, rs[1..], cs),
               JoinRows(db, x + y, rs[1..], cs));
    }
  }

  /** Block by block, the join yields exactly the rows of the plain nested loop, as often. */
  lemma {:induction false} BlocksAreNestedLoop(db: Database, ls: seq<Env>, b: nat, rs: seq<Env>, cs: seq<Condition>)
    requires b <= |ls|
    ensures multiset(BlockRows(db, ls, b, rs, cs)) == multiset(JoinRows(db, ls[b..], rs, cs))
    decreases |ls| - b
  {
    if b == |ls| {
      NothingMatches(db, rs, cs);
      assert ls[b..] == [];
    } else {
      var b' := Min(b + MAX_BUFFER_SIZE, |ls|);
      BlocksAreNestedLoop(db, ls, b', rs, cs);
      assert ls[b..] == ls[b..b'] + ls[b'..];
      JoinSplit(db, ls[b..b'], ls[b'..], rs, cs);
    }
  }

  /** The rows to come from buffer position `i` on, when the last `size` left rows before `b` are in the buffer and the
      right input is at row `j`. */
  ghost function Remaining(db: Database, ls: seq<Env>, b: nat, size: nat, rs: seq<Env>, j: nat, i: nat,
                           cs: seq<Condition>): seq<Env>
    requires i <= size <= b <= |ls| && j < |rs|
  {
    MatchRows(db, ls[b - size + i..b], rs[j], cs) + JoinRows(db, ls[b - size..b], rs[j+1..], cs)
    + BlockRows(db, ls, b, rs, cs)
  }

  lemma NextPosition(db: Database, ls: seq<Env>, b: nat, size: nat, rs: seq<Env>, j: nat, i: nat, cs: seq<Condition>)
    requires i < size <= b <= |ls| && j < |rs|
    ensures Remaining(db, ls, b, size, rs, j, i, cs) ==
            (if SatAll(db, ls[b - size + i] + rs[j], cs) then [ls[b - size + i] + rs[j]] else [])
            + Remaining(db, ls, b, size, rs, j, i + 1, cs)
  {
    hide SatAll, JoinRows, BlockRows;
    var x := ls[b - size + i..b];
    assert x[0] == ls[b - size + i] && x[1..] == ls[b - size + i + 1..b];
    var h := if SatAll(db, x[0] + rs[j], cs) then [x[0] + rs[j]] else [];
    var t, u := JoinRows(db, ls[b - size..b], rs[j+1..], cs), BlockRows(db, ls, b, rs, cs);
    assert MatchRows(db, x, rs[j], cs) == h + MatchRows(db, x[1..], rs[j], cs);
    assert h + MatchRows(db, x[1..], rs[j], cs) + t + u == h + (MatchRows(db, x[1..], rs[j], cs) + t + u);
  }

  lemma NextRow(db: Database, ls: seq<Env>, b: nat, size: nat, rs: seq<Env>, j: nat, cs: seq<Condition>)
    requires size <= b <= |ls| && j + 1 < |rs|
    ensures Remaining(db, ls, b, size, rs, j, size, cs) == Remaining(db, ls, b, size, rs, j + 1, 0, cs)
  {
    assert ls[b - size + size..b] == [];
    assert rs[j+1..][0] == rs[j+1] && rs[j+1..][1..] == rs[j+2..];
  }

  lemma NextBlock(db: Database, ls: seq<Env>, b: nat, size: nat, rs: seq<Env>, j: nat, b': nat, cs: seq<Condition>)
    requires size <= b <= |ls| && j + 1 == |rs| && b' == Min(b + MAX_BUFFER_SIZE, |ls|)
    ensures b < |ls| ==> Remaining(db, ls, b, size, rs, j, size, cs) == Remaining(db, ls, b', b' - b, rs, 0, 0, cs)
    ensures b == |ls| ==> Remaining(db, ls, b, size, rs, j, size, cs) == []
  {
    assert ls[b - size + size..b] == [] && rs[j+1..] == [];
    if b < |ls| { FirstBlock(db, ls, b, rs, b', cs); }
  }

  lemma FirstBlock(db: Database, ls: seq<Env>, b: nat, rs: seq<Env>, b': nat, cs: seq<Condition>)
    requires b < |ls| && rs != [] && b' == Min(b + MAX_BUFFER_SIZE, |ls|)
    ensures BlockRows(db, ls, b, rs, cs) == Remaining(db, ls, b', b' - b, rs, 0, 0, cs)
  {
    assert ls[b' - (b' - b) + 0..b'] == ls[b..b'];
  }

  // ---------- the iterators ----------

  /** Either kind of iterator, behind one interface. A result that is missing, or a false flag, stands for reading
      through a null pointer: to a scan that was never started, or to a row that was never put into the buffer. */
  datatype Executor = Scan(scan: SeqScan) | Join(join: BlockNestedLoopJoin) {
    /** Starts over. Where a join has an empty input, a new iterator fails or is stuck. */
    method BeginTuple() returns (ok: bool)
      requires Stacked(this) && (Full(this) || Unstarted(this))
      modifies Repr(this)
      ensures Full(this) ==> ok && Begun(this) && Pos(this) == 0
      ensures !Full(this) && ok ==> Stuck(this)
      decreases Height(this), 9
    {
      hide Stacked, Begun, Pos, Unstarted, Stuck;
      match this
      case Scan(s) =>
        s.BeginTuple();
        ScanBegun(s);
        return true;
      case Join(j) =>
        ok := j.BeginTuple();
        JoinPos(j);
    }

    /** Moves on by one row. */
    method NextTuple() returns (ok: bool)
      requires Stacked(this) && Full(this) && Begun(this) && Pos(this) < |All(this)|
      modifies Repr(this)
      ensures ok && Begun(this) && Pos(this) == old(Pos(this)) + 1
      decreases Height(this), 9
    {
      hide Stacked, Begun, Full, BlockNestedLoopJoin.OnPair, Remaining, Unfilled, Readable;
      match this
      case Scan(s) =>
        ScanBegun(s);
        s.NextTuple();
        ScanBegun(s);
        return true;
      case Join(j) =>
        j.PairFirst();
        j.PairPlace();
        ok := j.NextTuple(j.pos + 1);
    }

    /** The row delivered next. */
    method Next() returns (r: Option<Env>)
      requires Stacked(this) && Readable(this)
      ensures r == if Unfilled(this) then None else Some(All(this)[Pos(this)])
      decreases Height(this), 9
    {
      hide Stacked, Begun, Full, ScanRows, SatAll, BlockNestedLoopJoin.OnPair, Remaining, Readable;
      match this
      case Scan(s) =>
        ScanReadable(s);
        ScanFirst(s);
        r := Some(map[s.tab := s.row]);
      case Join(j) =>
        Parts(j);
        JoinReadable(j);
        JoinPos(j);
        if j.buffer[j.leftPtr].Some? {
          j.PairFirst();
          j.PairPlace();
        }
        r := j.Next();
    }
  }

  /** Whether a row meets all conditions. */
  method CheckConds(db: Database, e: Env, conds: seq<Condition>) returns (ok: bool)
    ensures ok <==> SatAll(db, e, conds)
    ensures ok <==> forall c :: c in conds ==> Asks(db, e, c)
  {
    hide Asks;
    SatAllAsks(db, e, conds);
    var i := 0;
    while i < |conds|
      invariant 0 <= i <= |conds| && forall k :: 0 <= k < i ==> Sat(db, e, conds[k])
    {
      if !Sat(db, e, conds[i]) { return false; }
      i := i + 1;
    }
    return true;
  }

  /** Delivers the rows of a table that meet the conditions. */
  class SeqScan {
    const db: Database
    const tab: string
    const conds: seq<Condition>
    var started: bool
    var row: nat
    ghost var pos: nat

    constructor (db: Database, tab: string, conds: seq<Condition>)
      ensures this.db == db && this.tab == tab && this.conds == conds && !started
    {
      this.db, this.tab, this.conds := db, tab, conds;
      started := false;
    }

    ghost function All(): seq<Env> { ScanRows(db, tab, conds, 0) }

    predicate AtEnd()
      reads this
    {
      tab !in db || row >= |db[tab]|
    }

    function IsEnd(): Option<bool>
      reads this
    {
      if started then Some(AtEnd()) else None
    }

    /** At the row delivered next, or at the end. */
    ghost predicate Begun()
      reads this
    {
      && started && pos <= |All()| && ScanRows(db, tab, conds, row) == All()[pos..]
      && (AtEnd() || SatAll(db, map[tab := row], conds))
    }

    /** Moves on to a row that meets the conditions. */
    method Skip()
      requires started && pos <= |All()| && ScanRows(db, tab, conds, row) == All()[pos..]
      modifies this
      ensures Begun() && pos == old(pos)
    {
      while !AtEnd()
        invariant started && pos == old(pos) && ScanRows(db, tab, conds, row) == All()[pos..]
        decreases if tab in db then |db[tab]| - row else 0
      {
        var ok := CheckConds(db, map[tab := row], conds);
        if ok { return; }
        row := row + 1;
      }
    }

    method BeginTuple()
      modifies this
      ensures Begun() && pos == 0
    {
      started, row, pos := true, 0, 0;
      Skip();
    }

    method NextTuple()
      requires Begun() && pos < |All()|
      modifies this
      ensures Begun() && pos == old(pos) + 1
    {
      assert !AtEnd();
      assert All()[pos..][1..] == All()[pos + 1..];
      row, pos := row + 1, pos + 1;
      Skip();
    }
  }

  // ---------- what all iterators have in common ----------

  ghost function Height(e: Executor): nat {
    match e
    case Scan(_) => 0
    case Join(j) => j.height
  }

  /** The objects an iterator is made of. */
  ghost function Repr(e: Executor): set<object> {
    match e
    case Scan(s) => {s}
    case Join(j) => {j} + j.parts
  }

  /** Everything the iterator delivers, in this order. */
  ghost function All(e: Executor): seq<Env> {
    match e
    case Scan(s) => s.All()
    case Join(j) => j.all
  }

  ghost function Top(e: Executor): object {
    match e
    case Scan(s) => s
    case Join(j) => j
  }

  /** How many rows have been passed. */
  ghost function Pos(e: Executor): nat
    reads Top(e)
  {
    match e
    case Scan(s) => s.pos
    case Join(j) => j.pos
  }

  /** The inputs of a join share nothing, and a join delivers the matches of its inputs block by block. */
  ghost predicate Stacked(e: Executor)
    decreases Height(e)
  {
    match e
    case Scan(_) => true
    case Join(j) =>
      && Height(j.left) < j.height && Height(j.right) < j.height && Stacked(j.left) && Stacked(j.right)
      && Repr(j.left) !! Repr(j.right) && j !in Repr(j.left) + Repr(j.right)
      && j.buffer !in Repr(j.left) + Repr(j.right)
      && j.parts == {j.buffer} + Repr(j.left) + Repr(j.right) && j.buffer.Length == MAX_BUFFER_SIZE
      && j.all == BlockRows(j.db, All(j.left), 0, All(j.right), j.conds)
  }

  /** No join has an empty input. */
  ghost predicate Full(e: Executor)
    requires Stacked(e)
    decreases Height(e)
  {
    e.Join? ==> Full(e.join.left) && Full(e.join.right) && All(e.join.left) != [] && All(e.join.right) != []
  }

  /** Whether everything has been delivered; the right input of a join is asked only if the left one is at its end. */
  function IsEnd(e: Executor): Option<bool>
    requires Stacked(e)
    reads Repr(e)
    decreases Height(e)
  {
    match e
    case Scan(s) => s.IsEnd()
    case Join(j) => if IsEnd(j.left) == Some(true) then IsEnd(j.right) else IsEnd(j.left)
  }

  /** As after construction. */
  ghost predicate Unstarted(e: Executor)
    requires Stacked(e)
    reads Repr(e)
    decreases Height(e)
  {
    match e
    case Scan(s) => !s.started
    case Join(j) => Unstarted(j.left) && Unstarted(j.right) && Unfilled(e)
  }

  /** There is no row at the buffer position. */
  ghost predicate Unfilled(e: Executor)
    requires Stacked(e)
    reads Repr(e)
  {
    e.Join? && e.join.leftPtr < MAX_BUFFER_SIZE && e.join.buffer[e.join.leftPtr] == None
  }

  /** Whether everything has been delivered cannot be told, or a row is promised that is not there. */
  ghost predicate Stuck(e: Executor)
    requires Stacked(e)
    reads Repr(e)
  {
    IsEnd(e) == None || (IsEnd(e) == Some(false) && Unfilled(e))
  }

  /** The next row can be asked for. */
  ghost predicate Readable(e: Executor)
    requires Stacked(e)
    reads Repr(e)
  {
    Unfilled(e) || (Full(e) && Begun(e) && Pos(e) < |All(e)|)
  }

  /** After a start and some steps. */
  ghost predicate Begun(e: Executor)
    requires Stacked(e)
    reads Repr(e)
    decreases Height(e)
  {
    match e
    case Scan(s) => s.Begun()
    case Join(j) => Begun(j.left) && Begun(j.right) && JoinBegun(j)
  }

  /** At a matching pair whose rest is still to be delivered, or at the end. */
  ghost predicate JoinBegun(j: BlockNestedLoopJoin)
    requires Stacked(Join(j))
    reads j, j.parts
  {
    && j.pos <= |j.all|
    && if j.pos == |j.all| then Pos(j.left) == |All(j.left)| && Pos(j.right) == |All(j.right)|
       else j.OnPair() && j.Rest(j.leftPtr) == j.all[j.pos..]
  }

  lemma ScanBegun(s: SeqScan)
    ensures Stacked(Scan(s)) && (Begun(Scan(s)) <==> s.Begun()) && Pos(Scan(s)) == s.pos
  {
  }

  lemma ScanFirst(s: SeqScan)
    requires s.Begun() && s.pos < |s.All()|
    ensures s.All()[s.pos] == map[s.tab := s.row]
  {
    assert s.All()[s.pos] == s.All()[s.pos..][0];
  }

  lemma JoinPos(j: BlockNestedLoopJoin)
    ensures Pos(Join(j)) == j.pos
  {
  }

  /** The objects of a join. */
  lemma Parts(j: BlockNestedLoopJoin)
    requires Stacked(Join(j))
    ensures Height(j.left) < j.height && Height(j.right) < j.height && Stacked(j.left) && Stacked(j.right)
    ensures Repr(j.left) !! Repr(j.right) && j !in Repr(j.left) + Repr(j.right)
            && j.buffer !in Repr(j.left) + Repr(j.right)
    ensures j.parts == {j.buffer} + Repr(j.left) + Repr(j.right) && j.buffer.Length == MAX_BUFFER_SIZE
    ensures Top(j.left) in Repr(j.left) && Top(j.right) in Repr(j.right)
  {
  }

  /** An iterator is at its end when everything has been delivered. */
  lemma {:induction false} EndIs(e: Executor)
    requires Stacked(e) && Begun(e)
    ensures Pos(e) <= |All(e)| && IsEnd(e) == Some(Pos(e) == |All(e)|)
    decreases Height(e)
  {
    if e.Join? {
      EndIs(e.join.left);
      EndIs(e.join.right);
    }
  }

  /** On a row, the buffer has one. */
  lemma Filled(e: Executor)
    requires Stacked(e) && Begun(e) && Pos(e) < |All(e)|
    ensures !Unfilled(e)
  {
  }

  lemma ScanReadable(s: SeqScan)
    ensures Stacked(Scan(s)) && !Unfilled(Scan(s)) && (Readable(Scan(s)) <==> s.Begun() && s.pos < |s.All()|)
  {
  }

  lemma JoinReadable(j: BlockNestedLoopJoin)
    requires Stacked(Join(j)) && Readable(Join(j))
    ensures j.leftPtr < MAX_BUFFER_SIZE && (Unfilled(Join(j)) <==> j.buffer[j.leftPtr] == None)
    ensures !Unfilled(Join(j)) ==> Full(Join(j)) && Begun(Join(j)) && j.pos < |j.all|
  {
    if !Unfilled(Join(j)) {
      j.PairFirst();
      j.PairPlace();
    }
  }

  /** A new iterator cannot tell whether it is at its end. */
  lemma {:induction false} UnstartedEnd(e: Executor)
    requires Stacked(e) && Unstarted(e)
    ensures IsEnd(e) == None
    decreases Height(e)
  {
    if e.Join? { UnstartedEnd(e.join.left); }
  }

  class BlockNestedLoopJoin {
    const db: Database
    const left: Executor
    const right: Executor
    const conds: seq<Condition>
    const buffer: array<Option<Env>>
    var leftIsEnd: bool
    var leftPtr: nat
    var leftSize: nat

    ghost const height: nat
    ghost const parts: set<object>
    ghost const all: seq<Env>
    ghost var pos: nat

    constructor (db: Database, left: Executor, right: Executor, conds: seq<Condition>)
      requires Stacked(left) && Stacked(right) && Repr(left) !! Repr(right)
      ensures Stacked(Join(this)) && this.db == db && this.left == left && this.right == right && this.conds == conds
      ensures fresh(this) && fresh(buffer) && Unfilled(Join(this))
    {
      hide BlockRows;
      this.db, this.left, this.right, this.conds := db, left, right, conds;
      var block := new Option<Env>[MAX_BUFFER_SIZE](_ => None);
      buffer := block;
      leftIsEnd, leftPtr, leftSize := false, 0, 0;
      height := Height(left) + Height(right) + 1;
      all := BlockRows(db, All(left), 0, All(right), conds);
      parts := {block} + Repr(left) + Repr(right);
    }

    /** The buffer holds the left rows just before the left position. */
    ghost predicate Loaded()
      requires Stacked(Join(this))
      reads this, parts
    {
      && leftSize <= MAX_BUFFER_SIZE && leftSize <= Pos(left) <= |All(left)|
      && forall i :: 0 <= i < leftSize ==> buffer[i] == Some(All(left)[Pos(left) - leftSize + i])
    }

    /** The rows still to come, counting from buffer position `i`. */
    ghost function Rest(i: nat): seq<Env>
      requires Stacked(Join(this)) && Loaded() && i <= leftSize && Pos(right) < |All(right)|
      reads this, parts
    {
      Remaining(db, All(left), Pos(left), leftSize, All(right), Pos(right), i, conds)
    }

    /** The pair at buffer position `i`. */
    ghost function Pair(i: nat): Env
      requires Stacked(Join(this)) && Loaded() && i < leftSize && Pos(right) < |All(right)|
      reads this, parts
    {
      All(left)[Pos(left) - leftSize + i] + All(right)[Pos(right)]
    }

    /** Standing on a matching pair. */
    ghost predicate OnPair()
      requires Stacked(Join(this))
      reads this, parts
    {
      Loaded() && Pos(right) < |All(right)| && leftPtr < leftSize && SatAll(db, Pair(leftPtr), conds)
    }

    /** Both inputs are under way. */
    ghost predicate Running()
      reads this, parts
    {
      Stacked(Join(this)) && Full(Join(this)) && Begun(left) && Begun(right) && Loaded()
    }

    /** Fills the buffer with the next block of left rows; fails if the left input promises a row that is not there. */
    method LoadLeftBuffer() returns (ok: bool)
      requires Stacked(Join(this)) && if Full(left) then Begun(left) else Unfilled(left) && IsEnd(left) == Some(false)
      modifies this, buffer, Repr(left)
      ensures ok <==> Full(left)
      ensures ok ==> Begun(left) && Loaded() && pos == old(pos) && leftPtr == 0
      ensures ok ==>
                leftSize == Min(MAX_BUFFER_SIZE, |All(left)| - old(Pos(left))) && Pos(left) == old(Pos(left)) + leftSize
      decreases height, 0
    {
      hide Stacked, Full, Begun, IsEnd, All, Pos, Repr, Height;
      Parts(this);
      leftPtr := 0;
      leftIsEnd := IsEnd(left) == Some(true);
      leftSize := 0;
      ghost var b := Pos(left);
      if Full(left) { EndIs(left); }
      while IsEnd(left) != Some(true) && leftSize < MAX_BUFFER_SIZE
        invariant leftPtr == 0 && pos == old(pos) && leftSize <= MAX_BUFFER_SIZE
        invariant if Full(left) then Begun(left) && Pos(left) == b + leftSize <= |All(left)| else Unfilled(left)
        invariant Full(left) ==> forall i :: 0 <= i < leftSize ==> buffer[i] == Some(All(left)[b + i])
        invariant !Full(left) ==> leftSize == 0 && IsEnd(left) == Some(false)
        decreases MAX_BUFFER_SIZE - leftSize
      {
        if Full(left) {
          EndIs(left);
          Filled(left);
        }
        buffer[leftSize] := left.Next();
        if buffer[leftSize] == None { return false; }
        leftSize := leftSize + 1;
        var _ := left.NextTuple();
        EndIs(left);
      }
      if Full(left) { EndIs(left); }
      return true;
    }

    lemma PairFirst()
      requires Stacked(Join(this)) && Full(Join(this)) && Begun(Join(this)) && pos < |all|
      ensures Running() && OnPair() && all[pos] == Pair(leftPtr) && Rest(leftPtr + 1) == all[pos + 1..]
    {
      hide Remaining, All, Pos, Stacked, Full;
      Parts(this);
      NextPosition(db, All(left), Pos(left), leftSize, All(right), Pos(right), leftPtr, conds);
      assert all[pos..][0] == all[pos] && all[pos..][1..] == all[pos + 1..];
    }

    lemma PairPlace()
      requires Running() && OnPair()
      ensures Full(left) && Pos(right) < |All(right)| && leftPtr < leftSize < SIZE_MODULUS && leftPtr < MAX_BUFFER_SIZE
      ensures Readable(right) && !Unfilled(right) && buffer[leftPtr].Some?
      ensures buffer[leftPtr].value + All(right)[Pos(right)] == Pair(leftPtr)
    {
      Filled(right);
    }

    lemma Standing()
      requires Running() && OnPair() && pos <= |all| && Rest(leftPtr) == all[pos..]
      ensures Begun(Join(this))
    {
      hide Remaining, All, Pos, Full, SatAll;
      Parts(this);
      NextPosition(db, All(left), Pos(left), leftSize, All(right), Pos(right), leftPtr, conds);
    }

    lemma Exhausted()
      requires Stacked(Join(this)) && Begun(left) && Begun(right)
      requires Pos(left) == |All(left)| && Pos(right) == |All(right)| && pos <= |all| && all[pos..] == []
      ensures Begun(Join(this))
    {
      hide All, Pos;
    }

    /** The pair at the buffer position, as one row. */
    method Next() returns (r: Option<Env>)
      requires Stacked(Join(this)) && leftPtr < MAX_BUFFER_SIZE && (buffer[leftPtr].Some? ==> Readable(right))
      ensures r == if buffer[leftPtr] == None || Unfilled(right) then None
                   else Some(buffer[leftPtr].value + All(right)[Pos(right)])
      decreases height, 0
    {
      hide Stacked, Begun, All, Pos, Height;
      Parts(this);
      if buffer[leftPtr] == None { return None; }
      var u := right.Next();
      r := if u == None then None else Some(buffer[leftPtr].value + u.value);
    }

    /** At the end of the buffer: the next right row, or the first one again with the next block. True when both inputs
        are exhausted. */
    method NextRight() returns (done: bool)
      requires Running() && Pos(right) < |All(right)| && leftPtr == leftSize
      modifies this, parts
      ensures Begun(left) && Begun(right) && pos == old(pos)
      ensures done ==> Pos(left) == |All(left)| && Pos(right) == |All(right)| && old(Rest(leftPtr)) == []
      ensures !done ==> Running() && Pos(right) < |All(right)| && leftPtr == 0 && Rest(0) == old(Rest(leftPtr))
      ensures !done ==> Pos(left) > old(Pos(left)) || (Pos(left) == old(Pos(left)) && Pos(right) > old(Pos(right)))
      decreases height, 1
    {
      hide Remaining, Stacked, Begun, All, Pos, Height, IsEnd, Repr, Full;
      Parts(this);
      FullInputs(this);
      if Pos(right) + 1 < |All(right)| {
        NextRow(db, All(left), Pos(left), leftSize, All(right), Pos(right), conds);
      } else {
        var b' := Min(Pos(left) + MAX_BUFFER_SIZE, |All(left)|);
        NextBlock(db, All(left), Pos(left), leftSize, All(right), Pos(right), b', conds);
      }
      var _ := right.NextTuple();
      EndIs(right);
      EndIs(left);
      if IsEnd(right) == Some(true) && IsEnd(left) == Some(true) { return true; }
      if IsEnd(right) == Some(true) {
        var _ := right.BeginTuple();
        var _ := LoadLeftBuffer();
      }
      leftPtr := 0;
      return false;
    }

    /** Looks for a match of the current right row in the rest of the buffer; nothing if that row is not there. */
    method ScanBuffer() returns (found: Option<bool>)
      requires Stacked(Join(this)) && Full(left) && Begun(left) && Loaded() && leftPtr <= leftSize
      requires Readable(right) && (Unfilled(right) ==> leftPtr < leftSize)
      modifies this`leftPtr
      ensures Stacked(Join(this)) && Loaded() && Readable(right) && old(leftPtr) <= leftPtr <= leftSize
      ensures found == None <==> Unfilled(right)
      ensures found.Some? ==> Begun(left) && Begun(right) && Rest(leftPtr) == old(Rest(leftPtr))
      ensures found.Some? ==> if found.value then OnPair() else leftPtr == leftSize
      decreases height, 1
    {
      hide Remaining, Stacked, Begun, All, Pos, Height, Repr, SatAll, Full;
      Parts(this);
      while leftPtr < leftSize
        invariant Loaded() && Readable(right) && Begun(left) && old(leftPtr) <= leftPtr <= leftSize
        invariant if Unfilled(right) then leftPtr == old(leftPtr)
                  else Begun(right) && Rest(leftPtr) == old(Rest(leftPtr))
        decreases leftSize - leftPtr
      {
        var r := Next();
        if r == None { return None; }
        var ok := CheckConds(db, r.value, conds);
        if ok { return Some(true); }
        NextPosition(db, All(left), Pos(left), leftSize, All(right), Pos(right), leftPtr, conds);
        leftPtr := leftPtr + 1;
      }
      return Some(false);
    }

    /** The right input promises a row that is not there. */
    ghost predicate Blocked()
      requires Stacked(Join(this))
      reads this, parts
    {
      && Full(left) && Begun(left) && Loaded() && Unfilled(right) && IsEnd(right) == Some(false)
      && leftPtr == SIZE_MODULUS - 1 && 0 < leftSize
    }

    /** Behind the buffer position, the rows from `at` on are to come. */
    ghost predicate Before(at: nat)
      reads this, parts
    {
      && Running() && Pos(right) < |All(right)| && (leftPtr == SIZE_MODULUS - 1 || leftPtr < leftSize)
      && at <= |all| && Rest((leftPtr + 1) % SIZE_MODULUS) == all[at..]
    }

    /** Moves to the next matching pair, or to the end; row `at` is then the next one to deliver. Fails if the right
        input promises a row that is not there. */
    method NextTuple(ghost at: nat) returns (ok: bool)
      requires Stacked(Join(this)) && (Blocked() || Before(at))
      modifies this, parts
      ensures ok <==> !old(Blocked())
      ensures ok ==> Begun(Join(this)) && pos == at
      decreases height, 2
    {
      hide Remaining, Stacked, Begun, All, Pos, Height, Repr, IsEnd, Full, SatAll;
      Parts(this);
      ghost var missing := Blocked();
      if !missing {
        FullInputs(this);
        Filled(right);
      }
      leftPtr, pos := (leftPtr + 1) % SIZE_MODULUS, at;
      while IsEnd(left) != Some(true) || IsEnd(right) != Some(true)
        invariant Full(left) && Begun(left) && Loaded() && leftPtr <= leftSize && pos == at
        invariant missing ==> Unfilled(right) && leftPtr < leftSize && IsEnd(right) == Some(false)
        invariant !missing ==> Running() && Pos(right) < |All(right)| && Rest(leftPtr) == all[at..]
        decreases |All(left)| - Pos(left), |All(right)| - Pos(right), leftSize - leftPtr
      {
        if leftPtr == leftSize {
          var done := NextRight();
          if done {
            Exhausted();
            return true;
          }
        }
        if !missing {
          FullInputs(this);
          Filled(right);
        }
        var found := ScanBuffer();
        if found == None { return false; }
        if found.value {
          Standing();
          return true;
        }
      }
      EndIs(right);
      assert false;
    }

    /** Moves to the first matching pair, or to the end; fails if one of the inputs promises a row that is not there. */
    method FirstTuple() returns (ok: bool)
      requires Stacked(Join(this)) && IsEnd(left) == IsEnd(right) == Some(false)
      requires if Full(left) then Begun(left) && Pos(left) == 0 < |All(left)| else Unfilled(left)
      requires if Full(right) then Begun(right) && Pos(right) == 0 < |All(right)| else Unfilled(right)
      modifies this, parts
      ensures ok <==> Full(left) && Full(right)
      ensures ok ==> Begun(Join(this)) && pos == 0
      decreases height, 3
    {
      hide Remaining, Stacked, Begun, All, Pos, Height, Repr, IsEnd, Full, BlockRows;
      Parts(this);
      FullIs(this);
      ok := LoadLeftBuffer();
      if !ok { return false; }
      leftPtr := SIZE_MODULUS - 1;
      if Full(right) {
        Filled(right);
        FirstBlock(db, All(left), 0, All(right), Min(MAX_BUFFER_SIZE, |All(left)|), conds);
        JoinAll(this);
        assert Rest(0) == all == all[0..];
      }
      ok := NextTuple(0);
    }

    /** Starts the join. An input that turns out to be empty ends the start early: the buffer is left as it was, and
        behind an empty left input also the right one. A new join with an empty input somewhere fails, or is stuck. */
    method BeginTuple() returns (ok: bool)
      requires Stacked(Join(this)) && (Full(Join(this)) || Unstarted(Join(this)))
      modifies this, parts
      ensures Full(Join(this)) ==> ok && Begun(Join(this)) && pos == 0
      ensures !Full(Join(this)) && ok ==>
                Stuck(Join(this)) && leftSize == old(leftSize) && buffer[..] == old(buffer[..])
      ensures Full(left) && All(left) == [] ==> ok && unchanged(Repr(right)) && IsEnd(Join(this)) == None
      ensures Full(left) && Full(right) && All(left) != [] && All(right) == [] ==>
                ok && IsEnd(Join(this)) == Some(false)
      decreases height, 4
    {
      hide Remaining, Stacked, Begun, All, Pos, Height, Repr, IsEnd, Full, BlockRows, Unstarted;
      Parts(this);
      FullIs(this);
      ok := left.BeginTuple();
      if !ok { return false; }
      if Full(left) { EndIs(left); }
      EndBoth(this);
      if IsEnd(left) == None { return false; }
      if IsEnd(left) == Some(true) {
        StillUnstarted(this);
        return true;
      }
      ok := right.BeginTuple();
      if !ok { return false; }
      if Full(right) { EndIs(right); }
      EndBoth(this);
      if IsEnd(right) == None { return false; }
      if IsEnd(right) == Some(true) { return true; }
      ok := FirstTuple();
    }
  }

  lemma FullIs(j: BlockNestedLoopJoin)
    requires Stacked(Join(j))
    ensures Full(Join(j)) <==> Full(j.left) && Full(j.right) && All(j.left) != [] && All(j.right) != []
    ensures Unstarted(Join(j)) ==> Unstarted(j.left) && Unstarted(j.right) && Unfilled(Join(j))
  {
  }

  lemma StillUnstarted(j: BlockNestedLoopJoin)
    requires Stacked(j.right) && Unstarted(j.right)
    ensures IsEnd(j.right) == None
  {
    UnstartedEnd(j.right);
  }

  lemma EndBoth(j: BlockNestedLoopJoin)
    requires Stacked(Join(j))
    ensures IsEnd(Join(j)) == if IsEnd(j.left) == Some(true) then IsEnd(j.right) else IsEnd(j.left)
  {
  }

  lemma JoinAll(j: BlockNestedLoopJoin)
    requires Stacked(Join(j))
    ensures All(Join(j)) == j.all == BlockRows(j.db, All(j.left), 0, All(j.right), j.conds)
  {
  }

  lemma FullInputs(j: BlockNestedLoopJoin)
    requires Stacked(Join(j)) && Full(Join(j))
    ensures Full(j.left) && Full(j.right) && All(j.left) != [] && All(j.right) != []
  {
  }
}
