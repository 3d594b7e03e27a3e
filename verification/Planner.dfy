/** From a conjunctive query to a tree of scans and joins, and what such a tree computes. */
module Planner {
  import opened Values

  datatype TabCol = TabCol(tab: string, col: string)

  /** A comparison of a column with a value or with another column. With a value on the right the
      right column is left blank. */
  datatype Condition = Condition(lhs: TabCol, op: CompOp, isRhsVal: bool, rhsCol: TabCol, rhsVal: Value)

  datatype Plan =
    | ScanPlan(tab: string, conds: seq<Condition>, indexCols: seq<string>)
    | JoinPlan(left: Plan, right: Plan, conds: seq<Condition>)

  // ---------- what a plan computes ----------

  type Row = map<string, Value>
  type Database = map<string, seq<Row>>

  /** One row number for each of some tables: a combination of rows. */
  type Env = map<string, nat>

  predicate Found(db: Database, e: Env, c: TabCol) {
    c.tab in e && c.tab in db && e[c.tab] < |db[c.tab]| && c.col in db[c.tab][e[c.tab]]
  }

  function Cell(db: Database, e: Env, c: TabCol): Value
    requires Found(db, e, c)
  {
    db[c.tab][e[c.tab]][c.col]
  }

  predicate Sat(db: Database, e: Env, c: Condition) {
    Found(db, e, c.lhs) &&
    if c.isRhsVal then BinOp(c.op, Cell(db, e, c.lhs), c.rhsVal)
    else Found(db, e, c.rhsCol) && BinOp(c.op, Cell(db, e, c.lhs), Cell(db, e, c.rhsCol))
  }

  predicate SatAll(db: Database, e: Env, cs: seq<Condition>) {
    forall i :: 0 <= i < |cs| ==> Sat(db, e, cs[i])
  }

  /** The rows `i`, `i+1`, ... of a scanned table that satisfy its conditions. */
  function ScanRows(db: Database, tab: string, cs: seq<Condition>, i: nat): (s: seq<Env>)
    decreases if tab in db then |db[tab]| - i else 0
  {
    if tab !in db || i >= |db[tab]| then []
    else (if SatAll(db, map[tab := i], cs) then [map[tab := i]] else []) + ScanRows(db, tab, cs, i + 1)
  }

  /** The combinations of the left rows with one right row that satisfy the join conditions. */
  function MatchRows(db: Database, ls: seq<Env>, b: Env, cs: seq<Condition>): seq<Env> {
    if ls == [] then []
    else (if SatAll(db, ls[0] + b, cs) then [ls[0] + b] else []) + MatchRows(db, ls[1..], b, cs)
  }

  function JoinRows(db: Database, ls: seq<Env>, rs: seq<Env>, cs: seq<Condition>): seq<Env> {
    if rs == [] then [] else MatchRows(db, ls, rs[0], cs) + JoinRows(db, ls, rs[1..], cs)
  }

  /** The combinations of rows a plan yields. */
  function Exec(db: Database, p: Plan): seq<Env> {
    match p
    case ScanPlan(tab, conds, _) => ScanRows(db, tab, conds, 0)
    case JoinPlan(l, r, conds) => JoinRows(db, Exec(db, l), Exec(db, r), conds)
  }

  // ---------- the shape of a plan ----------

  ghost function Tabs(p: Plan): set<string> {
    match p
    case ScanPlan(tab, _, _) => {tab}
    case JoinPlan(l, r, _) => Tabs(l) + Tabs(r)
  }

  ghost function Scans(p: Plan): set<Plan> {
    match p
    case ScanPlan(_, _, _) => {p}
    case JoinPlan(l, r, _) => Scans(l) + Scans(r)
  }

  ghost function JoinConds(p: Plan): set<Condition> {
    match p
    case ScanPlan(_, _, _) => {}
    case JoinPlan(l, r, cs) => JoinConds(l) + JoinConds(r) + (set c | c in cs)
  }

  /** No table is read twice. */
  ghost predicate Apart(p: Plan) {
    p.JoinPlan? ==> Apart(p.left) && Apart(p.right) && Tabs(p.left) !! Tabs(p.right)
  }

  /** Every column of a condition belongs to the given tables. */
  ghost predicate Over(c: Condition, tabs: set<string>) {
    c.lhs.tab in tabs && (!c.isRhsVal ==> c.rhsCol.tab in tabs)
  }

  /** Every column that a join mentions comes from one of its inputs. */
  ghost predicate JoinsResolved(p: Plan) {
    p.JoinPlan? ==>
      JoinsResolved(p.left) && JoinsResolved(p.right) && forall i :: 0 <= i < |p.conds| ==> Over(p.conds[i], Tabs(p))
  }

  ghost predicate ScanResolved(p: Plan)
    requires p.ScanPlan?
  {
    forall i :: 0 <= i < |p.conds| ==> Over(p.conds[i], {p.tab})
  }

  /** Every column that a node mentions comes from below it, so that no look-up can fail. */
  ghost predicate Resolved(p: Plan) {
    match p
    case ScanPlan(_, _, _) => ScanResolved(p)
    case JoinPlan(l, r, cs) => Resolved(l) && Resolved(r) && forall i :: 0 <= i < |cs| ==> Over(cs[i], Tabs(p))
  }

  /** A combination names one existing row of each of the tables. */
  ghost predicate Combination(db: Database, e: Env, tabs: set<string>) {
    e.Keys == tabs && forall t :: t in tabs ==> t in db && e[t] < |db[t]|
  }

  /** All conditions of a plan, wherever they are attached. */
  ghost predicate SatPlan(db: Database, e: Env, p: Plan) {
    match p
    case ScanPlan(_, cs, _) => SatAll(db, e, cs)
    case JoinPlan(l, r, cs) => SatPlan(db, e, l) && SatPlan(db, e, r) && SatAll(db, e, cs)
  }

  ghost predicate NoDup(s: seq<Env>) {
    forall i, j :: 0 <= i < j < |s| ==> s[i] != s[j]
  }

  // ---------- a resolved plan is a filtered product ----------

  lemma SatFrame(db: Database, e: Env, e': Env, c: Condition, tabs: set<string>)
    requires Over(c, tabs) && tabs <= e.Keys && tabs <= e'.Keys && forall t :: t in tabs ==> e[t] == e'[t]
    ensures Sat(db, e, c) == Sat(db, e', c)
  {
  }

  lemma {:induction false} SatPlanFrame(db: Database, e: Env, e': Env, p: Plan)
    requires Resolved(p) && Tabs(p) <= e.Keys && Tabs(p) <= e'.Keys && forall t :: t in Tabs(p) ==> e[t] == e'[t]
    ensures SatPlan(db, e, p) == SatPlan(db, e', p)
  {
    forall i | 0 <= i < |p.conds| ensures Sat(db, e, p.conds[i]) == Sat(db, e', p.conds[i]) {
      SatFrame(db, e, e', p.conds[i], Tabs(p));
    }
    if p.JoinPlan? {
      SatPlanFrame(db, e, e', p.left);
      SatPlanFrame(db, e, e', p.right);
    }
  }

  lemma NoDupCons(x: seq<Env>, s: seq<Env>)
    requires |x| <= 1 && NoDup(s) && (x == [] || x[0] !in s)
    ensures NoDup(x + s)
  {
    forall i, j | 0 <= i < j < |x + s| ensures (x + s)[i] != (x + s)[j] {
      if i < |x| { assert (x + s)[j] == s[j - |x|]; }
    }
  }

  lemma {:induction false} ScanRowsAre(db: Database, tab: string, cs: seq<Condition>, i: nat, e: Env)
    ensures e in ScanRows(db, tab, cs, i) <==> Combination(db, e, {tab}) && i <= e[tab] && SatAll(db, e, cs)
    decreases if tab in db then |db[tab]| - i else 0
  {
    if tab in db && i < |db[tab]| {
      ScanRowsAre(db, tab, cs, i + 1, e);
      if Combination(db, e, {tab}) && e[tab] == i { assert e == map[tab := i]; }
    }
  }

  lemma {:induction false} ScanRowsNoDup(db: Database, tab: string, cs: seq<Condition>, i: nat)
    ensures NoDup(ScanRows(db, tab, cs, i))
    decreases if tab in db then |db[tab]| - i else 0
  {
    if tab in db && i < |db[tab]| {
      ScanRowsNoDup(db, tab, cs, i + 1);
      ScanRowsAre(db, tab, cs, i + 1, map[tab := i]);
      NoDupCons(if SatAll(db, map[tab := i], cs) then [map[tab := i]] else [], ScanRows(db, tab, cs, i + 1));
    }
  }

  ghost function Part(e: Env, tabs: set<string>): Env {
    map t | t in e && t in tabs :: e[t]
  }

  ghost predicate KeysAre(s: seq<Env>, tabs: set<string>) {
    forall i :: 0 <= i < |s| ==> s[i].Keys == tabs
  }

  lemma PartsOfSum(a: Env, b: Env)
    requires a.Keys !! b.Keys
    ensures Part(a + b, a.Keys) == a && Part(a + b, b.Keys) == b && (a + b).Keys == a.Keys + b.Keys
  {
  }

  lemma SumOfParts(e: Env, tl: set<string>, tr: set<string>)
    requires e.Keys == tl + tr && tl !! tr
    ensures Part(e, tl) + Part(e, tr) == e && Part(e, tl).Keys == tl && Part(e, tr).Keys == tr
  {
  }

  lemma {:induction false} MatchRowsAre(db: Database, ls: seq<Env>, b: Env, cs: seq<Condition>, tl: set<string>, e: Env)
    requires KeysAre(ls, tl) && tl !! b.Keys
    ensures e in MatchRows(db, ls, b, cs) <==>
            e.Keys == tl + b.Keys && Part(e, tl) in ls && Part(e, b.Keys) == b && SatAll(db, e, cs)
  {
    if ls != [] {
      MatchRowsAre(db, ls[1..], b, cs, tl, e);
      PartsOfSum(ls[0], b);
      if e.Keys == tl + b.Keys && Part(e, tl) == ls[0] && Part(e, b.Keys) == b { SumOfParts(e, tl, b.Keys); }
      assert ls == [ls[0]] + ls[1..];
    }
  }

  lemma {:induction false} MatchRowsNoDup(db: Database, ls: seq<Env>, b: Env, cs: seq<Condition>, tl: set<string>)
    requires KeysAre(ls, tl) && tl !! b.Keys && NoDup(ls)
    ensures NoDup(MatchRows(db, ls, b, cs))
  {
    if ls != [] {
      MatchRowsNoDup(db, ls[1..], b, cs, tl);
      PartsOfSum(ls[0], b);
      MatchRowsAre(db, ls[1..], b, cs, tl, ls[0] + b);
      NoDupCons(if SatAll(db, ls[0] + b, cs) then [ls[0] + b] else [], MatchRows(db, ls[1..], b, cs));
    }
  }

  lemma {:induction false} JoinRowsAre(db: Database, ls: seq<Env>, rs: seq<Env>, cs: seq<Condition>, tl: set<string>,
                                       tr: set<string>, e: Env)
    requires KeysAre(ls, tl) && KeysAre(rs, tr) && tl !! tr
    ensures e in JoinRows(db, ls, rs, cs) <==>
            e.Keys == tl + tr && Part(e, tl) in ls && Part(e, tr) in rs && SatAll(db, e, cs)
  {
    if rs != [] {
      JoinRowsAre(db, ls, rs[1..], cs, tl, tr, e);
      MatchRowsAre(db, ls, rs[0], cs, tl, e);
      assert rs == [rs[0]] + rs[1..];
    }
  }

  lemma NoDupAppend(x: seq<Env>, y: seq<Env>)
    requires NoDup(x) && NoDup(y) && forall i :: 0 <= i < |x| ==> x[i] !in y
    ensures NoDup(x + y)
  {
    forall i, j | 0 <= i < j < |x + y| ensures (x + y)[i] != (x + y)[j] {
      if i < |x| <= j { assert (x + y)[j] == y[j - |x|]; }
    }
  }

  lemma {:induction false} JoinRowsNoDup(db: Database, ls: seq<Env>, rs: seq<Env>, cs: seq<Condition>, tl: set<string>,
                                         tr: set<string>)
    requires KeysAre(ls, tl) && KeysAre(rs, tr) && tl !! tr && NoDup(ls) && NoDup(rs)
    ensures NoDup(JoinRows(db, ls, rs, cs))
  {
    if rs != [] {
      JoinRowsNoDup(db, ls, rs[1..], cs, tl, tr);
      MatchRowsNoDup(db, ls, rs[0], cs, tl);
      var x := MatchRows(db, ls, rs[0], cs);
      forall i | 0 <= i < |x| ensures x[i] !in JoinRows(db, ls, rs[1..], cs) {
        MatchRowsAre(db, ls, rs[0], cs, tl, x[i]);
        JoinRowsAre(db, ls, rs[1..], cs, tl, tr, x[i]);
      }
      NoDupAppend(x, JoinRows(db, ls, rs[1..], cs));
    }
  }

  /** A resolved plan over distinct tables yields, once each, the combinations of existing rows that
      satisfy all its conditions. */
  lemma {:induction false} ExecIsFilteredProduct(db: Database, p: Plan, e: Env)
    requires Apart(p) && Resolved(p)
    ensures e in Exec(db, p) <==> Combination(db, e, Tabs(p)) && SatPlan(db, e, p)
  {
    match p
    case ScanPlan(tab, cs, _) =>
      ScanRowsAre(db, tab, cs, 0, e);
    case JoinPlan(l, r, cs) =>
      ExecKeys(db, l);
      ExecKeys(db, r);
      JoinRowsAre(db, Exec(db, l), Exec(db, r), cs, Tabs(l), Tabs(r), e);
      if e.Keys == Tabs(l) + Tabs(r) {
        ExecIsFilteredProduct(db, l, Part(e, Tabs(l)));
        ExecIsFilteredProduct(db, r, Part(e, Tabs(r)));
        SumOfParts(e, Tabs(l), Tabs(r));
        SatPlanFrame(db, e, Part(e, Tabs(l)), l);
        SatPlanFrame(db, e, Part(e, Tabs(r)), r);
      }
  }

  lemma {:induction false} ExecKeys(db: Database, p: Plan)
    requires Apart(p)
    ensures KeysAre(Exec(db, p), Tabs(p)) && NoDup(Exec(db, p))
  {
    match p
    case ScanPlan(tab, cs, _) =>
      ScanRowsNoDup(db, tab, cs, 0);
      forall i | 0 <= i < |Exec(db, p)| ensures Exec(db, p)[i].Keys == Tabs(p) {
        ScanRowsAre(db, tab, cs, 0, Exec(db, p)[i]);
      }
    case JoinPlan(l, r, cs) =>
      ExecKeys(db, l);
      ExecKeys(db, r);
      JoinRowsNoDup(db, Exec(db, l), Exec(db, r), cs, Tabs(l), Tabs(r));
      forall i | 0 <= i < |Exec(db, p)| ensures Exec(db, p)[i].Keys == Tabs(p) {
        JoinRowsAre(db, Exec(db, l), Exec(db, r), cs, Tabs(l), Tabs(r), Exec(db, p)[i]);
      }
  }

  // ---------- a scan that asks for a column of another table ----------

  /** Yields nothing on any database. */
  ghost predicate Barren(p: Plan) {
    forall db :: Exec(db, p) == []
  }

  lemma {:induction false} ForeignScan(db: Database, tab: string, cs: seq<Condition>, k: nat, i: nat)
    requires k < |cs| && cs[k].lhs.tab != tab
    ensures ScanRows(db, tab, cs, i) == []
    decreases if tab in db then |db[tab]| - i else 0
  {
    if tab in db && i < |db[tab]| {
      assert !Sat(db, map[tab := i], cs[k]);
      ForeignScan(db, tab, cs, k, i + 1);
    }
  }

  lemma {:induction false} NothingMatches(db: Database, rs: seq<Env>, cs: seq<Condition>)
    ensures JoinRows(db, [], rs, cs) == []
  {
    if rs != [] { NothingMatches(db, rs[1..], cs); }
  }

  /** A tree with a scan that yields nothing yields nothing. */
  lemma {:induction false} EmptyBelow(db: Database, p: Plan, s: Plan)
    requires s in Scans(p) && Exec(db, s) == []
    ensures Exec(db, p) == []
  {
    if p.JoinPlan? {
      if s in Scans(p.left) {
        EmptyBelow(db, p.left, s);
        NothingMatches(db, Exec(db, p.right), p.conds);
      } else {
        EmptyBelow(db, p.right, s);
      }
    }
  }
}
