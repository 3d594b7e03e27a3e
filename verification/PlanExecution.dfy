/** A plan run by its tree of iterators delivers what the plan denotes. */
module PlanExecution {
  import opened Wrappers
  import opened Planner
  import opened PlanBuilder
  import opened Conditions
  import opened JoinExecutor

  // ---------- the order of the inputs does not matter ----------

  /** Works on the rows one by one. */
  ghost predicate Rowwise(f: seq<Env> -> seq<Env>) {
    forall x, y :: f(x + y) == f(x) + f(y)
  }

  lemma PullOut(f: seq<Env> -> seq<Env>, x: seq<Env>, k: nat)
    requires Rowwise(f) && k < |x|
    ensures multiset(x) == multiset{x[k]} + multiset(x[..k] + x[k+1..])
    ensures multiset(f(x)) == multiset(f([x[k]])) + multiset(f(x[..k] + x[k+1..]))
  {
    assert x == x[..k] + ([x[k]] + x[k+1..]);
    assert f(x) == f(x[..k]) + (f([x[k]]) + f(x[k+1..]));
    assert f(x[..k] + x[k+1..]) == f(x[..k]) + f(x[k+1..]);
  }

  lemma Cancel(e: Env, x: multiset<Env>, y: multiset<Env>)
    requires multiset{e} + x == multiset{e} + y
    ensures x == y
  {
    assert x == (multiset{e} + x) - multiset{e};
    assert y == (multiset{e} + y) - multiset{e};
  }

  lemma Locate(y: seq<Env>, e: Env) returns (k: nat)
    requires e in multiset(y)
    ensures k < |y| && y[k] == e
  {
    k :| 0 <= k < |y| && y[k] == e;
  }

  /** What is made row by row out of the same rows in another order is the same in another order. */
  lemma {:induction false} SameRows(f: seq<Env> -> seq<Env>, x: seq<Env>, y: seq<Env>)
    requires Rowwise(f) && multiset(x) == multiset(y)
    ensures multiset(f(x)) == multiset(f(y))
    decreases |x|
  {
    hide Rowwise;
    if x == [] {
      assert |y| == |multiset(y)| == 0;
    } else {
      PullOut(f, x, 0);
      assert x[0] in multiset(x);
      var k := Locate(y, x[0]);
      PullOut(f, y, k);
      var x', y' := x[..0] + x[1..], y[..k] + y[k+1..];
      Cancel(x[0], multiset(x'), multiset(y'));
      SameRows(f, x', y');
    }
  }

  lemma SameMatches(db: Database, x: seq<Env>, y: seq<Env>, b: Env, cs: seq<Condition>)
    requires multiset(x) == multiset(y)
    ensures multiset(MatchRows(db, x, b, cs)) == multiset(MatchRows(db, y, b, cs))
  {
    var f := (z: seq<Env>) => MatchRows(db, z, b, cs);
    forall x, y ensures f(x + y) == f(x) + f(y) { MatchAppend(db, x, y, b, cs); }
    SameRows(f, x, y);
  }

  lemma {:induction false} SameLeft(db: Database, x: seq<Env>, y: seq<Env>, rs: seq<Env>, cs: seq<Condition>)
    requires multiset(x) == multiset(y)
    ensures multiset(JoinRows(db, x, rs, cs)) == multiset(JoinRows(db, y, rs, cs))
  {
    if rs != [] {
      SameMatches(db, x, y, rs[0], cs);
      SameLeft(db, x, y, rs[1..], cs);
    }
  }

  lemma {:induction false} JoinAppend(db: Database, ls: seq<Env>, x: seq<Env>, y: seq<Env>, cs: seq<Condition>)
    ensures JoinRows(db, ls, x + y, cs) == JoinRows(db, ls, x, cs) + JoinRows(db, ls, y, cs)
  {
    if x == [] {
      assert x + y == y;
    } else {
      hide MatchRows;
      JoinAppend(db, ls, x[1..], y, cs);
      assert (x + y)[0] == x[0] && (x + y)[1..] == x[1..] + y;
      Assoc(MatchRows(db, ls, x[0], cs), JoinRows(db, ls, x[1..], cs), JoinRows(db, ls, y, cs));
    }
  }

  /** A join of the same rows in another order gives the same rows. */
  lemma SameJoin(db: Database, ls: seq<Env>, ls': seq<Env>, rs: seq<Env>, rs': seq<Env>, cs: seq<Condition>)
    requires multiset(ls) == multiset(ls') && multiset(rs) == multiset(rs')
    ensures multiset(JoinRows(db, ls, rs, cs)) == multiset(JoinRows(db, ls', rs', cs))
  {
    SameLeft(db, ls, ls', rs, cs);
    var f := (z: seq<Env>) => JoinRows(db, ls', z, cs);
    forall x, y ensures f(x + y) == f(x) + f(y) { JoinAppend(db, ls', x, y, cs); }
    SameRows(f, rs, rs');
  }

  // ---------- the tree of iterators ----------

  /** No join has an input without rows. */
  ghost predicate Feasible(db: Database, p: Plan) {
    p.JoinPlan? ==> Feasible(db, p.left) && Feasible(db, p.right) && Exec(db, p.left) != [] && Exec(db, p.right) != []
  }

  lemma EmptyToo<X>(x: seq<X>, y: seq<X>)
    requires multiset(x) == multiset(y)
    ensures x == [] <==> y == []
  {
    assert |x| == |multiset(x)| && |y| == |multiset(y)|;
  }

  /** A plan that yields anything has no empty input. */
  lemma {:induction false} YieldIsFeasible(db: Database, p: Plan)
    requires Exec(db, p) != []
    ensures Feasible(db, p)
  {
    if p.JoinPlan? {
      NothingMatches(db, Exec(db, p.right), p.conds);
      YieldIsFeasible(db, p.left);
      YieldIsFeasible(db, p.right);
    }
  }

  /** A join above a scan without rows has an empty input. */
  lemma EmptyScanInfeasible(db: Database, p: Plan, s: Plan)
    requires p.JoinPlan? && s in Scans(p) && Exec(db, s) == []
    ensures !Feasible(db, p)
  {
    EmptyBelow(db, if s in Scans(p.left) then p.left else p.right, s);
  }

  lemma {:induction false} TableScan(p: Plan, t: string) returns (s: Plan)
    requires t in Tabs(p)
    ensures s in Scans(p) && s.ScanPlan? && s.tab == t
  {
    match p
    case ScanPlan(_, _, _) => s := p;
    case JoinPlan(l, r, _) => s := TableScan(if t in Tabs(l) then l else r, t);
  }

  /** The iterators for a plan: new objects, which deliver exactly the rows the plan denotes, each as often. */
  method ConvertPlan(db: Database, p: Plan) returns (e: Executor)
    ensures Stacked(e) && fresh(Repr(e)) && multiset(All(e)) == multiset(Exec(db, p))
    ensures Unstarted(e) && (Full(e) <==> Feasible(db, p))
    decreases p
  {
    hide Exec, JoinRows, BlockRows, ScanRows, Stacked, Full, All, Feasible;
    match p
    case ScanPlan(tab, conds, _) =>
      var s := new SeqScan(db, tab, conds);
      e := Scan(s);
      ScanDelivers(p, s);
    case JoinPlan(l, r, conds) =>
      var left := ConvertPlan(db, l);
      var right := ConvertPlan(db, r);
      var j := new BlockNestedLoopJoin(db, left, right, conds);
      e := Join(j);
      Parts(j);
      JoinRepr(j);
      JoinDelivers(db, l, r, conds, j);
      JoinFeasible(db, l, r, conds, j);
      assert Unstarted(e) by { JoinUnstarted(j); }
  }

  lemma ScanDelivers(p: Plan, s: SeqScan)
    requires p.ScanPlan? && s.tab == p.tab && s.conds == p.conds
    ensures Stacked(Scan(s)) && Repr(Scan(s)) == {s} && (Unstarted(Scan(s)) <==> !s.started) && Full(Scan(s))
            && Feasible(s.db, p) && All(Scan(s)) == Exec(s.db, p)
  {
  }

  lemma JoinFeasible(db: Database, l: Plan, r: Plan, cs: seq<Condition>, j: BlockNestedLoopJoin)
    requires Stacked(Join(j)) && (Full(j.left) <==> Feasible(db, l)) && (Full(j.right) <==> Feasible(db, r))
    requires multiset(All(j.left)) == multiset(Exec(db, l)) && multiset(All(j.right)) == multiset(Exec(db, r))
    ensures Full(Join(j)) <==> Feasible(db, JoinPlan(l, r, cs))
  {
    hide All, Exec;
    EmptyToo(All(j.left), Exec(db, l));
    EmptyToo(All(j.right), Exec(db, r));
  }

  lemma JoinUnstarted(j: BlockNestedLoopJoin)
    requires Stacked(Join(j)) && Unstarted(j.left) && Unstarted(j.right) && Unfilled(Join(j))
    ensures Unstarted(Join(j))
  {
  }

  lemma JoinRepr(j: BlockNestedLoopJoin)
    ensures Repr(Join(j)) == {j} + j.parts
  {
  }

  lemma JoinDelivers(db: Database, l: Plan, r: Plan, cs: seq<Condition>, j: BlockNestedLoopJoin)
    requires Stacked(Join(j)) && j.db == db && j.conds == cs
    requires multiset(All(j.left)) == multiset(Exec(db, l)) && multiset(All(j.right)) == multiset(Exec(db, r))
    ensures multiset(All(Join(j))) == multiset(Exec(db, JoinPlan(l, r, cs)))
  {
    hide Stacked, All, JoinRows, BlockRows;
    JoinAll(j);
    BlocksAreNestedLoop(db, All(j.left), 0, All(j.right), cs);
    assert All(j.left)[0..] == All(j.left);
    SameJoin(db, All(j.left), Exec(db, l), All(j.right), Exec(db, r), cs);
  }

  /** Runs a new iterator from its start to its end; fails exactly if some join has an empty input. */
  method Run(e: Executor) returns (ok: bool, out: seq<Env>)
    requires Stacked(e) && Unstarted(e)
    modifies Repr(e)
    ensures ok <==> Full(e)
    ensures ok ==> Begun(e) && IsEnd(e) == Some(true) && out == All(e)
  {
    hide Stacked, Full, Begun, IsEnd, All, Unstarted;
    out := [];
    ok := e.BeginTuple();
    if !ok { return; }
    while true
      invariant if Full(e) then Begun(e) && Pos(e) <= |All(e)| && out == All(e)[..Pos(e)] else Stuck(e)
      decreases |All(e)| - Pos(e)
    {
      if Full(e) { EndIs(e); }
      var end := IsEnd(e);
      if end == None { return false, out; }
      if end == Some(true) { break; }
      if Full(e) { Filled(e); }
      var r := e.Next();
      if r == None { return false, out; }
      out := out + [r.value];
      var _ := e.NextTuple();
      EndIs(e);
    }
    EndIs(e);
    assert All(e)[..|All(e)|] == All(e);
    return true, out;
  }

  /** A plan run by its iterators. It fails exactly if some join has an empty input; otherwise it delivers exactly the
      rows the plan denotes, each as often. */
  method Execute(db: Database, p: Plan) returns (ok: bool, out: seq<Env>)
    ensures ok <==> Feasible(db, p)
    ensures ok ==> multiset(out) == multiset(Exec(db, p))
  {
    hide Stacked, Full, Begun, IsEnd, All, Pos, Repr, Exec, Feasible, Unstarted;
    var e := ConvertPlan(db, p);
    ok, out := Run(e);
  }

  /** The table has no rows. */
  predicate NoRows(db: Database, t: string) { t !in db || db[t] == [] }

  /** From the query to its result. A run that does not fail delivers each combination of rows that the query asks for
      exactly once, and nothing else. With all same-table comparisons on the first table, only queries without a result
      can fail; every query over several tables fails if one of them has no rows. */
  method RunQuery(db: Database, tables: seq<string>, conds: seq<Condition>,
                  choose: (string, seq<Condition>) -> seq<string>)
      returns (ok: bool, out: seq<Env>, ghost p: Plan)
    requires QueryOk(tables, conds)
    ensures Tabs(p) == (set t | t in tables) && (ok <==> Feasible(db, p))
    ensures ok ==> OnFirstTable(tables, conds) && NoDup(out) && forall e :: e in out <==> AskedFor(db, e, tables, conds)
    ensures OnFirstTable(tables, conds) && (exists e :: AskedFor(db, e, tables, conds)) ==> ok
    ensures |tables| == 1 ==> ok
    ensures |tables| > 1 && (exists t :: t in tables && NoRows(db, t)) ==> !ok
  {
    hide Exec, Wanted, AskedFor, QueryOk, OnFirstTable, Tabs, Scans, Unsatisfiable, Apart, NoDup, Resolved;
    var q := MakeOneRel(tables, conds, choose);
    p := q;
    ok, out := Execute(db, q);
    forall e
      ensures Wanted(db, e, tables, conds) <==> AskedFor(db, e, tables, conds)
    {
      WantedAsked(db, e, tables, conds);
    }
    if ok { OnceEach(Exec(db, q), out); }
    MisplacedFails(db, tables, conds, q);
    ResultIsFeasible(db, tables, conds, q);
    if |tables| > 1 { NoRowsFails(db, tables, q); }
  }

  lemma MisplacedFails(db: Database, tables: seq<string>, conds: seq<Condition>, p: Plan)
    requires QueryOk(tables, conds) && (p.ScanPlan? <==> |tables| == 1)
    requires !OnFirstTable(tables, conds) ==> exists s :: s in Scans(p) && Barren(s)
    ensures !OnFirstTable(tables, conds) ==> !Feasible(db, p)
  {
    if !OnFirstTable(tables, conds) {
      var c :| c in conds && SameTable(c) && c.lhs.tab != tables[0];
      assert c.lhs.tab in tables;
      var s :| s in Scans(p) && Barren(s);
      EmptyScanInfeasible(db, p, s);
    }
  }

  lemma ResultIsFeasible(db: Database, tables: seq<string>, conds: seq<Condition>, p: Plan)
    requires QueryOk(tables, conds) && (OnFirstTable(tables, conds) ==> Delivers(p, tables, conds))
    ensures OnFirstTable(tables, conds) && (exists e :: Wanted(db, e, tables, conds)) ==> Feasible(db, p)
  {
    if OnFirstTable(tables, conds) && exists e :: Wanted(db, e, tables, conds) {
      var e :| Wanted(db, e, tables, conds);
      assert e in Exec(db, p);
      YieldIsFeasible(db, p);
    }
  }

  lemma NoRowsFails(db: Database, tables: seq<string>, p: Plan)
    requires p.JoinPlan? && Tabs(p) == (set t | t in tables)
    ensures (exists t :: t in tables && NoRows(db, t)) ==> !Feasible(db, p)
  {
    if t :| t in tables && NoRows(db, t) {
      var s := TableScan(p, t);
      EmptyScanInfeasible(db, p, s);
    }
  }

  /** Two tables, one with a row and one without: the query for all pairs, which has an empty result, fails whichever
      table comes first. */
  method EmptyTableExample(row: Row, choose: (string, seq<Condition>) -> seq<string>) returns (ok: bool, ok': bool)
    ensures !ok && !ok' && forall e :: !AskedFor(map["a" := [row], "b" := []], e, ["a", "b"], [])
  {
    hide Feasible, AskedFor, OnFirstTable, NoDup;
    var db: Database := map["a" := [row], "b" := []];
    assert "a"[0] != "b"[0];
    assert "b" == ["a", "b"][1] && "b" == ["b", "a"][0] && NoRows(db, "b");
    var out;
    ghost var p;
    ok, out, p := RunQuery(db, ["a", "b"], [], choose);
    ok', out, p := RunQuery(db, ["b", "a"], [], choose);
    forall e ensures !AskedFor(db, e, ["a", "b"], []) { NotAsked(db, e, ["a", "b"], [], "b"); }
  }

  lemma NotAsked(db: Database, e: Env, tables: seq<string>, conds: seq<Condition>, t: string)
    requires t in tables && NoRows(db, t)
    ensures !AskedFor(db, e, tables, conds)
  {
  }

  lemma OnceEach(x: seq<Env>, y: seq<Env>)
    requires NoDup(x) && multiset(x) == multiset(y)
    ensures NoDup(y) && forall e :: e in y <==> e in x
  {
    forall e ensures e in y <==> e in x { assert e in y <==> e in multiset(y); }
    forall i, j | 0 <= i < j < |y| ensures y[i] != y[j] {
      if y[i] == y[j] {
        TwiceThere(y, i, j);
        OnceThere(x, y[i]);
      }
    }
  }

  lemma TwiceThere(y: seq<Env>, i: nat, j: nat)
    requires i < j < |y| && y[i] == y[j]
    ensures multiset(y)[y[i]] >= 2
  {
    assert y == y[..j] + [y[j]] + y[j+1..];
    assert y[i] in y[..j];
  }

  lemma {:induction false} OnceThere(x: seq<Env>, e: Env)
    requires NoDup(x)
    ensures multiset(x)[e] <= 1
  {
    if x != [] {
      assert x == [x[0]] + x[1..];
      OnceThere(x[1..], e);
      if x[0] == e { assert e !in x[1..]; }
    }
  }
}
