/** Building the join tree of a query: scan conditions, join order, and pushed-down conditions. */
module PlanBuilder {
  import opened Wrappers
  import opened Values
  import opened Planner

  /** The same comparison read from the other side. */
  function Mirror(c: Condition): Condition {
    c.(lhs := c.rhsCol, rhsCol := c.lhs, op := SwapOp(c.op))
  }

  lemma MirrorSat(db: Database, e: Env, c: Condition)
    requires !c.isRhsVal
    ensures Sat(db, e, Mirror(c)) == Sat(db, e, c) && Mirror(Mirror(c)) == c
  {
    if Found(db, e, c.lhs) && Found(db, e, c.rhsCol) { SwapLaw(c.op, Cell(db, e, c.lhs), Cell(db, e, c.rhsCol)); }
  }

  // ---------- conditions for a scan ----------

  /** The test by which a table claims a condition for its own scan. */
  predicate Claims(tab: string, c: Condition) {
    (tab == c.lhs.tab && c.isRhsVal) || c.lhs.tab == c.rhsCol.tab
  }

  function Picked(cs: seq<Condition>, tab: string, want: bool): seq<Condition> {
    if cs == [] then []
    else Picked(cs[..|cs|-1], tab, want) + (if Claims(tab, cs[|cs|-1]) == want then [cs[|cs|-1]] else [])
  }

  lemma {:induction false} PickedAre(cs: seq<Condition>, tab: string, want: bool, c: Condition)
    ensures c in Picked(cs, tab, want) <==> c in cs && Claims(tab, c) == want
  {
    if cs != [] {
      PickedAre(cs[..|cs|-1], tab, want, c);
      assert cs == cs[..|cs|-1] + [cs[|cs|-1]];
    }
  }

  /** Removes from the list the conditions claimed by a table, and returns them in order. */
  method PopConds(conds: seq<Condition>, tab: string) returns (solved: seq<Condition>, rest: seq<Condition>)
    ensures solved == Picked(conds, tab, true) && rest == Picked(conds, tab, false)
  {
    solved, rest := [], conds;
    var it := 0;
    ghost var n := 0;
    while it < |rest|
      invariant 0 <= it <= |rest| && 0 <= n <= |conds| && |rest| - it == |conds| - n
      invariant solved == Picked(conds[..n], tab, true)
      invariant rest[..it] == Picked(conds[..n], tab, false) && rest[it..] == conds[n..]
      decreases |rest| - it
    {
      assert conds[..n+1][..n] == conds[..n] && rest[it] == rest[it..][0] == conds[n];
      if Claims(tab, rest[it]) {
        solved := solved + [rest[it]];
        rest := rest[..it] + rest[it+1..];
      } else {
        assert rest[..it+1] == rest[..it] + [rest[it]];
        it := it + 1;
      }
      n := n + 1;
    }
    assert conds[..n] == conds && rest[..it] == rest;
  }

  // ---------- pushing a condition into a join tree ----------

  /** Attaches a condition to the lowest join that has both its tables. The code is 3 once attached,
      1 or 2 when only the left or only the right column was found, and 0 when neither was. */
  function PushConds(c: Condition, p: Plan): (r: (int, Plan)) {
    match p
    case ScanPlan(tab, _, _) =>
      (if tab == c.lhs.tab then 1 else if tab == c.rhsCol.tab then 2 else 0, p)
    case JoinPlan(l, r, cs) =>
      var (lc, l') := PushConds(c, l);
      if lc == 3 then (3, JoinPlan(l', r, cs))
      else
        var (rc, r') := PushConds(c, r);
        if rc == 3 then (3, JoinPlan(l', r', cs))
        else if lc == 0 || rc == 0 then (lc + rc, p)
        else (3, JoinPlan(l, r, cs + [if lc == 2 then Mirror(c) else c]))
  }

  /** A column comparison between two tables. */
  predicate Cross(c: Condition) {
    !c.isRhsVal && c.lhs.tab != c.rhsCol.tab
  }

  /** What pushing a condition into a tree does, for every tree and condition. */
  lemma {:induction false} PushCondsIs(c: Condition, p: Plan)
    requires Apart(p) && Cross(c)
    ensures PushConds(c, p).0 == if c.lhs.tab in Tabs(p) && c.rhsCol.tab in Tabs(p) then 3
                                 else if c.lhs.tab in Tabs(p) then 1 else if c.rhsCol.tab in Tabs(p) then 2 else 0
    ensures PushConds(c, p).0 != 3 ==> PushConds(c, p).1 == p
    ensures Apart(PushConds(c, p).1) && Tabs(PushConds(c, p).1) == Tabs(p) && Scans(PushConds(c, p).1) == Scans(p)
    ensures JoinsResolved(p) ==> JoinsResolved(PushConds(c, p).1)
  {
    if p.JoinPlan? {
      PushCondsIs(c, p.left);
      PushCondsIs(c, p.right);
    }
  }

  lemma {:induction false} PushCondsAdds(c: Condition, p: Plan)
    requires Apart(p) && Cross(c) && PushConds(c, p).0 == 3
    ensures var j := JoinConds(PushConds(c, p).1); j == JoinConds(p) + {c} || j == JoinConds(p) + {Mirror(c)}
  {
    if p.JoinPlan? {
      PushCondsIs(c, p.left);
      PushCondsIs(c, p.right);
      if PushConds(c, p.left).0 == 3 {
        PushCondsAdds(c, p.left);
      } else if PushConds(c, p.right).0 == 3 {
        PushCondsAdds(c, p.right);
      } else {
        assert forall x: Condition :: (set d | d in p.conds + [x]) == (set d | d in p.conds) + {x};
      }
    }
  }

  // ---------- joining the scans ----------

  /** `scans[i]` reads `tables[i]`, and no table is listed twice. */
  ghost predicate ScansOf(tables: seq<string>, scans: seq<Plan>) {
    && |scans| == |tables| && "" !in tables
    && (forall i :: 0 <= i < |scans| ==> scans[i].ScanPlan? && scans[i].tab == tables[i])
    && (forall i, j :: 0 <= i < j < |tables| ==> tables[i] != tables[j])
  }

  /** The tree so far is made of exactly the scans marked as used. */
  ghost predicate Built(tables: seq<string>, scans: seq<Plan>, used: seq<int>, p: Plan) {
    && |used| == |tables| == |scans|
    && Apart(p) && JoinsResolved(p)
    && (forall t :: t in Tabs(p) ==> t in tables)
    && (forall i :: 0 <= i < |used| ==> (used[i] == 1 || used[i] == -1) && (used[i] == 1 <==> tables[i] in Tabs(p)))
    && (forall s :: s in Scans(p) <==> exists i :: 0 <= i < |used| && used[i] == 1 && scans[i] == s)
  }

  ghost predicate Joined(tables: seq<string>, used: seq<int>, joined: seq<string>) {
    |used| == |tables| && forall i :: 0 <= i < |tables| ==> (tables[i] in joined <==> used[i] == 1)
  }

  /** The tree's join conditions are the given ones, some of them mirrored. */
  ghost predicate Covers(js: set<Condition>, cs: seq<Condition>) {
    && (forall i :: 0 <= i < |cs| ==> cs[i] in js || Mirror(cs[i]) in js)
    && (forall j :: j in js ==> j in cs || Mirror(j) in cs)
  }

  /** Finds the scan of a table and marks it used. */
  method PopScan(tables: seq<string>, scans: seq<Plan>, tab: string, used: seq<int>, joined: seq<string>)
    returns (p: Option<Plan>, used': seq<int>, joined': seq<string>, ghost k: nat)
    requires ScansOf(tables, scans) && |used| == |tables|
    ensures if tab in tables
            then k < |tables| && tables[k] == tab && p == Some(scans[k]) && used' == used[k := 1]
              && joined' == joined + [tab]
            else p == None && used' == used && joined' == joined
  {
    var i := 0;
    while i < |scans|
      invariant 0 <= i <= |scans| && forall j :: 0 <= j < i ==> tables[j] != tab
    {
      if scans[i].tab == tab {
        return Some(scans[i]), used[i := 1], joined + [tab], i;
      }
      i := i + 1;
    }
    return None, used, joined, 0;
  }

  /** A tree of one scan. */
  lemma OneScan(tables: seq<string>, scans: seq<Plan>, used: seq<int>, k: nat)
    requires ScansOf(tables, scans) && |used| == |tables| && k < |tables|
    requires forall i :: 0 <= i < |used| ==> used[i] == if i == k then 1 else -1
    ensures Built(tables, scans, used, scans[k]) && JoinConds(scans[k]) == {}
  {
    forall s ensures s in Scans(scans[k]) <==> exists i :: 0 <= i < |used| && used[i] == 1 && scans[i] == s {
      if s == scans[k] { assert used[k] == 1 && scans[k] == s; }
    }
  }

  ghost predicate Union(u1: seq<int>, u2: seq<int>, u: seq<int>) {
    |u1| == |u2| == |u| && forall i :: 0 <= i < |u| ==>
        !(u1[i] == 1 && u2[i] == 1) && u[i] == if u1[i] == 1 || u2[i] == 1 then 1 else -1
  }

  lemma JoinScansUsed(scans: seq<Plan>, u1: seq<int>, p1: Plan, u2: seq<int>, p2: Plan, u: seq<int>, s: Plan)
    requires Union(u1, u2, u) && |u| == |scans|
    requires s in Scans(p1) <==> exists i :: 0 <= i < |u1| && u1[i] == 1 && scans[i] == s
    requires s in Scans(p2) <==> exists i :: 0 <= i < |u2| && u2[i] == 1 && scans[i] == s
    ensures s in Scans(p1) + Scans(p2) <==> exists i :: 0 <= i < |u| && u[i] == 1 && scans[i] == s
  {
    if s in Scans(p1) {
      var i :| 0 <= i < |u1| && u1[i] == 1 && scans[i] == s;
      assert u[i] == 1;
    } else if s in Scans(p2) {
      var i :| 0 <= i < |u2| && u2[i] == 1 && scans[i] == s;
      assert u[i] == 1;
    }
  }

  /** Joining two trees over different tables. */
  lemma JoinTrees(tables: seq<string>, scans: seq<Plan>, u1: seq<int>, p1: Plan, u2: seq<int>, p2: Plan, u: seq<int>,
                  cs: seq<Condition>)
    requires ScansOf(tables, scans) && Built(tables, scans, u1, p1) && Built(tables, scans, u2, p2) && Union(u1, u2, u)
    requires forall i :: 0 <= i < |cs| ==> Over(cs[i], Tabs(p1) + Tabs(p2))
    ensures Built(tables, scans, u, JoinPlan(p1, p2, cs))
    ensures JoinConds(JoinPlan(p1, p2, cs)) == JoinConds(p1) + JoinConds(p2) + (set c | c in cs)
  {
    var q := JoinPlan(p1, p2, cs);
    assert Tabs(q) == Tabs(p1) + Tabs(p2) && Scans(q) == Scans(p1) + Scans(p2);
    assert Tabs(p1) !! Tabs(p2) by {
      forall t | t in Tabs(p1) ensures t !in Tabs(p2) {
        var i :| 0 <= i < |tables| && tables[i] == t;
        assert u1[i] == 1;
      }
    }
    forall s ensures s in Scans(q) <==> exists i :: 0 <= i < |u| && u[i] == 1 && scans[i] == s {
      JoinScansUsed(scans, u1, p1, u2, p2, u, s);
    }
  }

  ghost function Only(n: nat, k: nat): seq<int> {
    seq(n, i => if i == k then 1 else -1)
  }

  /** Joining one more scan to the tree. */
  lemma AddScan(tables: seq<string>, scans: seq<Plan>, used: seq<int>, p: Plan, k: nat, cs: seq<Condition>)
    requires ScansOf(tables, scans) && Built(tables, scans, used, p) && k < |tables| && used[k] == -1
    requires forall i :: 0 <= i < |cs| ==> Over(cs[i], Tabs(p) + {tables[k]})
    ensures Built(tables, scans, used[k := 1], JoinPlan(scans[k], p, cs))
    ensures JoinConds(JoinPlan(scans[k], p, cs)) == JoinConds(p) + (set c | c in cs)
  {
    hide Built;
    OneScan(tables, scans, Only(|tables|, k), k);
    assert Union(Only(|tables|, k), used, used[k := 1]) by { UsedMarks(tables, scans, used, p); }
    JoinTrees(tables, scans, Only(|tables|, k), scans[k], used, p, used[k := 1], cs);
  }

  lemma UsedMarks(tables: seq<string>, scans: seq<Plan>, used: seq<int>, p: Plan)
    requires Built(tables, scans, used, p)
    ensures |used| == |tables| == |scans| && forall i :: 0 <= i < |used| ==> used[i] == 1 || used[i] == -1
  {
  }

  /** Joining two more scans with each other and the result to the tree. */
  lemma AddPair(tables: seq<string>, scans: seq<Plan>, used: seq<int>, p: Plan, k: nat, h: nat, c: Condition)
    requires ScansOf(tables, scans) && Built(tables, scans, used, p) && k < |tables| && h < |tables| && k != h
    requires used[k] == -1 && used[h] == -1 && Over(c, {tables[k], tables[h]})
    ensures var q := JoinPlan(JoinPlan(scans[k], scans[h], [c]), p, []);
            Built(tables, scans, used[k := 1][h := 1], q) && JoinConds(q) == JoinConds(p) + {c}
  {
    hide Built;
    UsedMarks(tables, scans, used, p);
    NewPair(tables, scans, k, h, c);
    JoinTrees(tables, scans, Only(|tables|, h)[k := 1], JoinPlan(scans[k], scans[h], [c]), used, p,
              used[k := 1][h := 1], []);
  }

  lemma NewPair(tables: seq<string>, scans: seq<Plan>, k: nat, h: nat, c: Condition)
    requires ScansOf(tables, scans) && k < |tables| && h < |tables| && k != h && Over(c, {tables[k], tables[h]})
    ensures var q := JoinPlan(scans[k], scans[h], [c]);
            Built(tables, scans, Only(|tables|, h)[k := 1], q) && JoinConds(q) == {c}
  {
    OneScan(tables, scans, Only(|tables|, h), h);
    AddScan(tables, scans, Only(|tables|, h), scans[h], k, [c]);
    assert (set d | d in [c]) == {c};
  }

  /** Places one join condition: it brings in the scans it needs, or goes into the tree. */
  method PlaceCond(tables: seq<string>, scans: seq<Plan>, used: seq<int>, joined: seq<string>, p: Plan, c: Condition)
    returns (used': seq<int>, joined': seq<string>, p': Plan)
    requires ScansOf(tables, scans) && Built(tables, scans, used, p) && Joined(tables, used, joined)
    requires Cross(c) && c.lhs.tab in tables && c.rhsCol.tab in tables
    ensures Built(tables, scans, used', p') && Joined(tables, used', joined')
    ensures JoinConds(p') == JoinConds(p) + {c} || JoinConds(p') == JoinConds(p) + {Mirror(c)}
  {
    hide Built;
    var left, right, reverse := None, None, false;
    ghost var k, h := 0, 0;
    used', joined' := used, joined;
    UsedMarks(tables, scans, used, p);
    if c.lhs.tab !in joined' {
      left, used', joined', k := PopScan(tables, scans, c.lhs.tab, used', joined');
    }
    if c.rhsCol.tab !in joined' {
      right, used', joined', h := PopScan(tables, scans, c.rhsCol.tab, used', joined');
      reverse := true;
    }
    if left.Some? && right.Some? {
      p' := JoinPlan(JoinPlan(left.value, right.value, [c]), p, []);
      AddPair(tables, scans, used, p, k, h, c);
    } else if left.Some? || right.Some? {
      var d := c;
      if reverse {
        d := Mirror(c);
        left := right;
        k := h;
      }
      p' := JoinPlan(left.value, p, [d]);
      assert Over(d, Tabs(p) + {tables[k]}) by { OtherSide(tables, scans, used, joined, p, k, c, d); }
      AddScan(tables, scans, used, p, k, [d]);
      assert (set x | x in [d]) == {d};
    } else {
      p' := PushConds(c, p).1;
      PushKeeps(tables, scans, used, joined, p, c);
    }
  }

  lemma OtherSide(tables: seq<string>, scans: seq<Plan>, used: seq<int>, joined: seq<string>, p: Plan, k: nat,
                  c: Condition, d: Condition)
    requires ScansOf(tables, scans) && Built(tables, scans, used, p) && Joined(tables, used, joined) && k < |tables|
    requires c.lhs.tab in tables && c.rhsCol.tab in tables && (d == c || d == Mirror(c)) && !c.isRhsVal
    requires (tables[k] == c.lhs.tab && c.rhsCol.tab in joined) || (tables[k] == c.rhsCol.tab && c.lhs.tab in joined)
    ensures Over(d, Tabs(p) + {tables[k]})
  {
    var i :| 0 <= i < |tables| && tables[i] == c.lhs.tab;
    var j :| 0 <= j < |tables| && tables[j] == c.rhsCol.tab;
  }

  lemma PushKeeps(tables: seq<string>, scans: seq<Plan>, used: seq<int>, joined: seq<string>, p: Plan, c: Condition)
    requires ScansOf(tables, scans) && Built(tables, scans, used, p) && Joined(tables, used, joined) && Cross(c)
    requires c.lhs.tab in tables && c.rhsCol.tab in tables && c.lhs.tab in joined && c.rhsCol.tab in joined
    ensures Built(tables, scans, used, PushConds(c, p).1)
    ensures var j := JoinConds(PushConds(c, p).1); j == JoinConds(p) + {c} || j == JoinConds(p) + {Mirror(c)}
  {
    var i :| 0 <= i < |tables| && tables[i] == c.lhs.tab;
    var j :| 0 <= j < |tables| && tables[j] == c.rhsCol.tab;
    PushCondsIs(c, p);
    PushCondsAdds(c, p);
  }

  lemma CoversMore(js: set<Condition>, js': set<Condition>, cs: seq<Condition>, n: nat)
    requires n < |cs| && Covers(js, cs[..n]) && (js' == js + {cs[n]} || js' == js + {Mirror(cs[n])}) && Cross(cs[n])
    ensures Covers(js', cs[..n+1])
  {
    assert cs[..n+1] == cs[..n] + [cs[n]] && Mirror(Mirror(cs[n])) == cs[n];
    var ds := cs[..n+1];
    forall i | 0 <= i < |ds| ensures ds[i] in js' || Mirror(ds[i]) in js' {
      if i < n { assert cs[..n][i] == ds[i]; }
    }
  }

  lemma CoversNone(p: Plan, cs: seq<Condition>)
    requires cs == [] && JoinConds(p) == {}
    ensures Covers(JoinConds(p), cs)
  {
  }

  lemma CoversOne(p: Plan, cs: seq<Condition>)
    requires 0 < |cs| && JoinConds(p) == {cs[0]}
    ensures Covers(JoinConds(p), cs[..1])
  {
    assert cs[..1] == [cs[0]];
  }

  /** The first join, of the two scans named by the first condition. */
  method FirstJoin(tables: seq<string>, scans: seq<Plan>, c: Condition)
      returns (p: Plan, used: seq<int>, joined: seq<string>)
    requires ScansOf(tables, scans) && Cross(c) && c.lhs.tab in tables && c.rhsCol.tab in tables
    ensures Built(tables, scans, used, p) && Joined(tables, used, joined) && JoinConds(p) == {c}
  {
    hide Built;
    used, joined := seq(|tables|, _ => -1), seq(|tables|, _ => "");
    var left, right;
    ghost var k, h;
    left, used, joined, k := PopScan(tables, scans, c.lhs.tab, used, joined);
    right, used, joined, h := PopScan(tables, scans, c.rhsCol.tab, used, joined);
    p := JoinPlan(left.value, right.value, [c]);
    NewPair(tables, scans, k, h, c);
    assert used == Only(|tables|, h)[k := 1];
  }

  /** Joins the scans not used so far, without conditions. */
  method JoinRest(tables: seq<string>, scans: seq<Plan>, used: seq<int>, q: Plan) returns (p: Plan)
    requires ScansOf(tables, scans) && Built(tables, scans, used, q)
    ensures Apart(p) && JoinsResolved(p) && Tabs(p) == (set t | t in tables) && JoinConds(p) == JoinConds(q)
    ensures forall s :: s in Scans(p) <==> s in scans
  {
    p := q;
    ghost var u := used;
    var i := 0;
    UsedMarks(tables, scans, used, q);
    while i < |tables|
      invariant 0 <= i <= |tables| && Built(tables, scans, u, p) && JoinConds(p) == JoinConds(q)
      invariant |u| == |used| && forall j :: 0 <= j < |u| ==> u[j] == if j < i then 1 else used[j]
    {
      if used[i] == -1 {
        AddScan(tables, scans, u, p, i, []);
        p := JoinPlan(scans[i], p, []);
        u := u[i := 1];
      }
      i := i + 1;
    }
    forall t ensures t in Tabs(p) <==> t in tables {
      if t in tables { var j :| 0 <= j < |tables| && tables[j] == t; assert u[j] == 1; }
    }
    forall s ensures s in Scans(p) <==> s in scans {
      if s in scans { var j :| 0 <= j < |scans| && scans[j] == s; assert u[j] == 1; }
    }
  }

  /** Joins the scans of all tables under the given conditions. */
  method JoinScans(tables: seq<string>, scans: seq<Plan>, conds: seq<Condition>) returns (p: Plan)
    requires ScansOf(tables, scans) && 0 < |tables|
    requires forall i :: 0 <= i < |conds| ==>
               Cross(conds[i]) && conds[i].lhs.tab in tables && conds[i].rhsCol.tab in tables
    ensures Apart(p) && JoinsResolved(p) && Tabs(p) == (set t | t in tables) && Covers(JoinConds(p), conds)
    ensures forall s :: s in Scans(p) <==> s in scans
  {
    hide Built, Joined, Covers;
    var used, joined := seq(|tables|, _ => -1), seq(|tables|, _ => "");
    if 1 <= |conds| {
      p, used, joined := FirstJoin(tables, scans, conds[0]);
      var rest := conds[1..];
      assert conds[1..] == rest;
      assert Covers(JoinConds(p), conds[..1]) by { CoversOne(p, conds); }
      while rest != []
        invariant |rest| < |conds| && rest == conds[|conds| - |rest|..]
        invariant Built(tables, scans, used, p) && Joined(tables, used, joined)
                  && Covers(JoinConds(p), conds[..|conds| - |rest|])
        decreases |rest|
      {
        ghost var js, n := JoinConds(p), |conds| - |rest|;
        assert rest[0] == conds[n];
        used, joined, p := PlaceCond(tables, scans, used, joined, p, rest[0]);
        CoversMore(js, JoinConds(p), conds, n);
        rest := rest[1..];
      }
      assert conds[..|conds| - |rest|] == conds;
    } else {
      p := scans[0];
      OneScan(tables, scans, used[0 := 1], 0);
      used := used[0 := 1];
      assert Covers(JoinConds(p), conds) by { CoversNone(p, conds); }
    }
    p := JoinRest(tables, scans, used, p);
  }

  // ---------- the whole query ----------

  /** A query after name resolution: distinct tables, and conditions over their columns. A value
      condition has a blank right column. */
  ghost predicate QueryOk(tables: seq<string>, conds: seq<Condition>) {
    && 0 < |tables| && "" !in tables && (forall i, j :: 0 <= i < j < |tables| ==> tables[i] != tables[j])
    && forall c :: c in conds ==>
        c.lhs.tab in tables && if c.isRhsVal then c.rhsCol.tab == "" else c.rhsCol.tab in tables
  }

  /** Compares two columns of one table. */
  predicate SameTable(c: Condition) {
    !c.isRhsVal && c.lhs.tab == c.rhsCol.tab
  }

  ghost predicate Unclaimed(tables: seq<string>, n: nat, c: Condition)
    requires n <= |tables|
  {
    forall i :: 0 <= i < n ==> !Claims(tables[i], c)
  }

  /** A scan holds the conditions that its table was the first to claim. */
  ghost predicate ScanClaims(tables: seq<string>, conds: seq<Condition>, s: Plan, j: nat)
    requires j < |tables|
  {
    s.ScanPlan? && s.tab == tables[j]
      && forall c :: c in s.conds <==> c in conds && Claims(tables[j], c) && Unclaimed(tables, j, c)
  }

  /** The first `n` tables have claimed their conditions; `rest` is what remains. */
  ghost predicate Claimed(tables: seq<string>, conds: seq<Condition>, scans: seq<Plan>, rest: seq<Condition>, n: nat) {
    && n == |scans| <= |tables|
    && (forall j :: 0 <= j < n ==> ScanClaims(tables, conds, scans[j], j))
    && (forall c :: c in rest <==> c in conds && Unclaimed(tables, n, c))
  }

  /** Builds the scan of each table from the conditions it claims. The choice of an index, which does
      not affect the rows scanned, is a parameter. */
  method MakeScans(tables: seq<string>, conds: seq<Condition>, choose: (string, seq<Condition>) -> seq<string>)
    returns (scans: seq<Plan>, rest: seq<Condition>)
    ensures Claimed(tables, conds, scans, rest, |tables|)
  {
    scans, rest := [], conds;
    var i := 0;
    while i < |tables|
      invariant 0 <= i <= |tables| && Claimed(tables, conds, scans, rest, i)
    {
      ghost var rest0 := rest;
      var mine;
      mine, rest := PopConds(rest, tables[i]);
      ghost var scans0 := scans;
      scans := scans + [ScanPlan(tables[i], mine, choose(tables[i], mine))];
      ClaimedMore(tables, conds, scans0, rest0, i, scans, rest);
      i := i + 1;
    }
  }

  lemma ClaimedMore(tables: seq<string>, conds: seq<Condition>, scans: seq<Plan>, rest: seq<Condition>, n: nat,
                    scans': seq<Plan>, rest': seq<Condition>)
    requires Claimed(tables, conds, scans, rest, n) && n < |tables| && |scans'| == n + 1 && scans'[..n] == scans
    requires scans'[n].ScanPlan? && scans'[n].tab == tables[n] && scans'[n].conds == Picked(rest, tables[n], true)
    requires rest' == Picked(rest, tables[n], false)
    ensures Claimed(tables, conds, scans', rest', n + 1)
  {
    forall c ensures c in rest' <==> c in conds && Unclaimed(tables, n + 1, c) {
      PickedAre(rest, tables[n], false, c);
    }
    forall j | 0 <= j < n + 1 ensures ScanClaims(tables, conds, scans'[j], j) {
      if j < n {
        assert scans'[j] == scans[j];
      } else {
        forall c ensures c in scans'[n].conds <==> c in conds && Claims(tables[n], c) && Unclaimed(tables, n, c) {
          PickedAre(rest, tables[n], true, c);
        }
      }
    }
  }

  // ---------- the plan's conditions are the query's ----------

  lemma {:induction false} ResolvedIs(p: Plan)
    ensures Resolved(p) <==> JoinsResolved(p) && forall s :: s in Scans(p) ==> s.ScanPlan? && ScanResolved(s)
  {
    if p.JoinPlan? {
      ResolvedIs(p.left);
      ResolvedIs(p.right);
    }
  }

  lemma {:induction false} SatPlanIs(db: Database, e: Env, p: Plan)
    ensures SatPlan(db, e, p) <==>
            (forall s :: s in Scans(p) ==> SatAll(db, e, s.conds)) && forall c :: c in JoinConds(p) ==> Sat(db, e, c)
  {
    if p.JoinPlan? {
      SatPlanIs(db, e, p.left);
      SatPlanIs(db, e, p.right);
      assert SatAll(db, e, p.conds) <==> forall c :: c in p.conds ==> Sat(db, e, c);
    }
  }

  /** Every condition goes to the first table that claims it, or to the joins. */
  lemma FirstClaim(tables: seq<string>, conds: seq<Condition>, scans: seq<Plan>, rest: seq<Condition>, c: Condition)
      returns (j: nat)
    requires Claimed(tables, conds, scans, rest, |tables|) && c in conds
    ensures c in rest || (j < |scans| && c in scans[j].conds)
  {
    j := 0;
    while j < |tables| && !Claims(tables[j], c)
      invariant 0 <= j <= |tables| && Unclaimed(tables, j, c)
    {
      j := j + 1;
    }
    if j < |tables| { assert ScanClaims(tables, conds, scans[j], j); }
  }

  lemma CoveredSat(db: Database, e: Env, js: set<Condition>, rest: seq<Condition>)
    requires Covers(js, rest) && forall c :: c in rest ==> !c.isRhsVal
    ensures (forall c :: c in js ==> Sat(db, e, c)) <==> forall c :: c in rest ==> Sat(db, e, c)
  {
    if forall c :: c in js ==> Sat(db, e, c) {
      forall c | c in rest ensures Sat(db, e, c) {
        var i :| 0 <= i < |rest| && rest[i] == c;
        MirrorSat(db, e, c);
      }
    }
    if forall c :: c in rest ==> Sat(db, e, c) {
      forall c | c in js ensures Sat(db, e, c) {
        if c !in rest { MirrorSat(db, e, Mirror(c)); }
      }
    }
  }

  /** The plan asks of a combination of rows exactly what the query asks. */
  lemma SameConditions(db: Database, e: Env, tables: seq<string>, conds: seq<Condition>, scans: seq<Plan>,
                       rest: seq<Condition>, p: Plan)
    requires Claimed(tables, conds, scans, rest, |tables|) && Covers(JoinConds(p), rest)
    requires (forall s :: s in Scans(p) <==> s in scans) && forall c :: c in rest ==> !c.isRhsVal
    ensures SatPlan(db, e, p) <==> SatAll(db, e, conds)
  {
    SatPlanIs(db, e, p);
    CoveredSat(db, e, JoinConds(p), rest);
    if SatPlan(db, e, p) {
      forall i | 0 <= i < |conds| ensures Sat(db, e, conds[i]) {
        var j := FirstClaim(tables, conds, scans, rest, conds[i]);
        if conds[i] !in rest {
          assert scans[j] in scans && SatAll(db, e, scans[j].conds);
          var k :| 0 <= k < |scans[j].conds| && scans[j].conds[k] == conds[i];
        }
      }
    }
    if SatAll(db, e, conds) {
      assert forall c :: c in conds ==> Sat(db, e, c);
      forall s | s in Scans(p) ensures SatAll(db, e, s.conds) {
        var j :| 0 <= j < |scans| && scans[j] == s;
        assert ScanClaims(tables, conds, scans[j], j);
      }
    }
  }

  /** Scans find their columns exactly when every same-table comparison is on the first table. */
  lemma ScansResolvedIff(tables: seq<string>, conds: seq<Condition>, scans: seq<Plan>, rest: seq<Condition>)
    requires QueryOk(tables, conds) && Claimed(tables, conds, scans, rest, |tables|)
    ensures (forall s :: s in scans ==> s.ScanPlan? && ScanResolved(s)) <==>
            forall c :: c in conds && SameTable(c) ==> c.lhs.tab == tables[0]
  {
    if forall s :: s in scans ==> s.ScanPlan? && ScanResolved(s) {
      forall c | c in conds && SameTable(c) ensures c.lhs.tab == tables[0] {
        assert ScanClaims(tables, conds, scans[0], 0) && Unclaimed(tables, 0, c);
        assert scans[0] in scans;
        var k :| 0 <= k < |scans[0].conds| && scans[0].conds[k] == c;
        assert Over(scans[0].conds[k], {tables[0]});
      }
    }
    if forall c :: c in conds && SameTable(c) ==> c.lhs.tab == tables[0] {
      forall s | s in scans ensures s.ScanPlan? && ScanResolved(s) {
        var j :| 0 <= j < |scans| && scans[j] == s;
        assert ScanClaims(tables, conds, scans[j], j);
        forall k | 0 <= k < |s.conds| ensures Over(s.conds[k], {s.tab}) {
          assert s.conds[k] in s.conds;
          if j > 0 { assert !Claims(tables[0], s.conds[k]); }
        }
      }
    }
  }

  lemma RestIsCross(tables: seq<string>, conds: seq<Condition>, scans: seq<Plan>, rest: seq<Condition>)
    requires QueryOk(tables, conds) && Claimed(tables, conds, scans, rest, |tables|)
    ensures ScansOf(tables, scans)
    ensures forall c :: c in rest ==> Cross(c) && c.lhs.tab in tables && c.rhsCol.tab in tables
    ensures |tables| == 1 ==> rest == []
  {
    forall i | 0 <= i < |scans| ensures scans[i].ScanPlan? && scans[i].tab == tables[i] {
      assert ScanClaims(tables, conds, scans[i], i);
    }
    forall c | c in rest ensures Cross(c) && c.lhs.tab in tables && c.rhsCol.tab in tables {
      var i :| 0 <= i < |tables| && tables[i] == c.lhs.tab;
      assert !Claims(tables[i], c);
    }
    assert rest != [] ==> rest[0] in rest;
  }

  /** Every comparison within one table is on the first table. */
  ghost predicate OnFirstTable(tables: seq<string>, conds: seq<Condition>)
    requires 0 < |tables|
  {
    forall c :: c in conds && SameTable(c) ==> c.lhs.tab == tables[0]
  }

  /** The combination of rows is one that the query asks for. */
  ghost predicate Wanted(db: Database, e: Env, tables: seq<string>, conds: seq<Condition>) {
    Combination(db, e, set t | t in tables) && SatAll(db, e, conds)
  }

  /** On every database the tree yields exactly the combinations of rows that the query asks for. */
  ghost predicate Delivers(p: Plan, tables: seq<string>, conds: seq<Condition>) {
    forall db, e :: e in Exec(db, p) <==> Wanted(db, e, tables, conds)
  }

  /** On no database the query asks for anything. */
  ghost predicate Unsatisfiable(tables: seq<string>, conds: seq<Condition>) {
    forall db, e :: !Wanted(db, e, tables, conds)
  }

  /** The tree for a query. It reads each table once and yields no combination twice. Its look-ups succeed exactly when
      every comparison within one table is on the first table. Then it yields, on every database, exactly the
      combinations that the query asks for; otherwise it yields nothing on any database. So it is right exactly when
      the comparisons are on the first table or the query asks for nothing anyway. */
  method MakeOneRel(tables: seq<string>, conds: seq<Condition>, choose: (string, seq<Condition>) -> seq<string>)
      returns (p: Plan)
    requires QueryOk(tables, conds)
    ensures Apart(p) && Tabs(p) == (set t | t in tables) && (p.ScanPlan? <==> |tables| == 1)
    ensures Resolved(p) <==> OnFirstTable(tables, conds)
    ensures OnFirstTable(tables, conds) ==> Delivers(p, tables, conds)
    ensures !OnFirstTable(tables, conds) ==> Barren(p) && exists s :: s in Scans(p) && Barren(s)
    ensures Delivers(p, tables, conds) <==> OnFirstTable(tables, conds) || Unsatisfiable(tables, conds)
    ensures forall db :: NoDup(Exec(db, p))
  {
    hide Claimed, Resolved, Exec, SatPlan, ScansOf, OnFirstTable, Delivers, Unsatisfiable;
    var scans, rest := MakeScans(tables, conds, choose);
    RestIsCross(tables, conds, scans, rest);
    if |tables| == 1 {
      assert |scans| == 1 by { OneEach(tables, conds, scans, rest); }
      p := scans[0];
      SingleScan(tables, scans);
      assert Covers(JoinConds(p), rest) by { CoversNone(p, rest); }
    } else {
      p := JoinScans(tables, scans, rest);
      JoinNeeded(tables, conds, p);
    }
    PlanCorrect(tables, conds, scans, rest, p);
  }

  /** A query over several tables needs a join. */
  lemma JoinNeeded(tables: seq<string>, conds: seq<Condition>, p: Plan)
    requires QueryOk(tables, conds) && Tabs(p) == (set t | t in tables) && |tables| > 1
    ensures p.JoinPlan?
  {
    assert tables[0] in Tabs(p) && tables[1] in Tabs(p) && tables[0] != tables[1];
  }

  /** `b.x = b.y` in a query over `a` and `b`. */
  function InB(v: Value): Condition { Condition(TabCol("b", "x"), Eq, false, TabCol("b", "y"), v) }

  function OneRowEach(v: Value): Database { map["a" := [map[]], "b" := [map["x" := v, "y" := v]]] }

  lemma InBMisplaced(v: Value)
    ensures QueryOk(["a", "b"], [InB(v)]) && !OnFirstTable(["a", "b"], [InB(v)])
  {
    assert "a"[0] != "b"[0];
    assert "a" == ["a", "b"][0] && "b" == ["a", "b"][1] && InB(v) == [InB(v)][0] && SameTable(InB(v));
  }

  lemma InBWanted(v: Value)
    ensures Wanted(OneRowEach(v), map["a" := 0, "b" := 0], ["a", "b"], [InB(v)])
  {
    var e: Env := map["a" := 0, "b" := 0];
    assert "a"[0] != "b"[0] && "x"[0] != "y"[0];
    SameValue(v);
    assert Sat(OneRowEach(v), e, InB(v));
    assert (set t | t in ["a", "b"]) == {"a", "b"} == e.Keys;
  }

  /** Table `a` claims that condition: on a database with one row in each table the query asks for their combination,
      and the tree does not deliver it. */
  method MisplacedExample(v: Value, choose: (string, seq<Condition>) -> seq<string>) returns (p: Plan)
    ensures QueryOk(["a", "b"], [InB(v)]) && !OnFirstTable(["a", "b"], [InB(v)])
    ensures Wanted(OneRowEach(v), map["a" := 0, "b" := 0], ["a", "b"], [InB(v)])
    ensures Exec(OneRowEach(v), p) == [] && !Delivers(p, ["a", "b"], [InB(v)])
  {
    hide QueryOk, OnFirstTable, Wanted, Exec;
    InBMisplaced(v);
    InBWanted(v);
    p := MakeOneRel(["a", "b"], [InB(v)], choose);
  }

  lemma SameValue(v: Value)
    ensures BinOp(Eq, v, v)
  {
    if v.Text? { StrCmpMirror(v.s, v.s); }
  }

  lemma OneEach(tables: seq<string>, conds: seq<Condition>, scans: seq<Plan>, rest: seq<Condition>)
    requires Claimed(tables, conds, scans, rest, |tables|)
    ensures |scans| == |tables|
  {
  }

  lemma SingleScan(tables: seq<string>, scans: seq<Plan>)
    requires ScansOf(tables, scans) && |tables| == 1
    ensures |scans| == 1 && scans[0].ScanPlan? && Apart(scans[0]) && JoinsResolved(scans[0])
            && Tabs(scans[0]) == (set t | t in tables) && JoinConds(scans[0]) == {}
    ensures forall s :: s in Scans(scans[0]) <==> s in scans
  {
    assert tables == [tables[0]] && scans == [scans[0]];
  }

  /** If some same-table comparison is on another table, the first scan has it and finds no column for it. */
  lemma MisplacedYieldsNothing(tables: seq<string>, conds: seq<Condition>, scans: seq<Plan>, rest: seq<Condition>,
                               p: Plan)
    requires QueryOk(tables, conds) && Claimed(tables, conds, scans, rest, |tables|) && !OnFirstTable(tables, conds)
    requires forall s :: s in Scans(p) <==> s in scans
    ensures Barren(p) && exists s :: s in Scans(p) && Barren(s)
  {
    var c :| c in conds && SameTable(c) && c.lhs.tab != tables[0];
    assert ScanClaims(tables, conds, scans[0], 0) && Unclaimed(tables, 0, c);
    var s := scans[0];
    assert s in scans;
    var k :| 0 <= k < |s.conds| && s.conds[k] == c;
    assert Barren(s) by {
      forall db ensures Exec(db, s) == [] { ForeignScan(db, s.tab, s.conds, k, 0); }
    }
    forall db ensures Exec(db, p) == [] { EmptyBelow(db, p, s); }
  }

  lemma PlanCorrect(tables: seq<string>, conds: seq<Condition>, scans: seq<Plan>, rest: seq<Condition>, p: Plan)
    requires QueryOk(tables, conds) && Claimed(tables, conds, scans, rest, |tables|) && Covers(JoinConds(p), rest)
    requires Apart(p) && JoinsResolved(p) && Tabs(p) == (set t | t in tables)
             && forall s :: s in Scans(p) <==> s in scans
    requires forall c :: c in rest ==> Cross(c)
    ensures Resolved(p) <==> OnFirstTable(tables, conds)
    ensures OnFirstTable(tables, conds) ==> Delivers(p, tables, conds)
    ensures !OnFirstTable(tables, conds) ==> Barren(p) && exists s :: s in Scans(p) && Barren(s)
    ensures Delivers(p, tables, conds) <==> OnFirstTable(tables, conds) || Unsatisfiable(tables, conds)
    ensures forall db :: NoDup(Exec(db, p))
  {
    hide Claimed, Exec, SatPlan, Combination, SatAll, Apart, JoinsResolved;
    ResolvedIs(p);
    ScansResolvedIff(tables, conds, scans, rest);
    forall db ensures NoDup(Exec(db, p)) { ExecKeys(db, p); }
    if OnFirstTable(tables, conds) {
      forall db, e ensures e in Exec(db, p) <==> Wanted(db, e, tables, conds) {
        ExecIsFilteredProduct(db, p, e);
        SameConditions(db, e, tables, conds, scans, rest, p);
      }
    } else {
      MisplacedYieldsNothing(tables, conds, scans, rest, p);
    }
  }

  /** A query that asks for two columns to be equal and unequal asks for nothing, wherever its comparisons are. */
  lemma OpposedConditions(tables: seq<string>, conds: seq<Condition>, c: Condition)
    requires c in conds && c.(op := SwapEq(c.op)) in conds && c.op in {Eq, Ne}
    ensures Unsatisfiable(tables, conds)
  {
    var c' := c.(op := SwapEq(c.op));
    var i :| 0 <= i < |conds| && conds[i] == c;
    var j :| 0 <= j < |conds| && conds[j] == c';
    forall db, e ensures !Wanted(db, e, tables, conds) {
      assert Sat(db, e, conds[i]) ==> !Sat(db, e, conds[j]);
    }
  }

  function SwapEq(op: CompOp): CompOp { if op == Eq then Ne else Eq }
}
