/** What conditions and queries ask for, told by the order of the numbers and texts in the rows. */
module Conditions {
  import opened Values
  import opened Memory
  import opened IxKeys
  import opened Planner
  import opened PlanBuilder

  /** Two integers compared by an operator. */
  predicate Relation(op: CompOp, a: int, b: int) {
    match op
    case Eq => a == b
    case Ne => a != b
    case Lt => a < b
    case Gt => a > b
    case Le => a <= b
    case Ge => a >= b
  }

  /** The text of a character array: it ends before the first zero byte. */
  function CText(s: seq<Byte>): (t: seq<Byte>)
    ensures |t| <= |s|
  {
    if s == [] || s[0] == 0 then [] else [s[0]] + CText(s[1..])
  }

  /** The text, filled up with zeros to `n` bytes, as a number whose first byte weighs most. */
  function TextNumber(s: seq<Byte>, n: nat): nat
    requires |CText(s)| <= n
  {
    BigEndian(CText(s) + Zeros(n - |CText(s)|))
  }

  lemma {:induction false} StrCmpOrder(s: seq<Byte>, t: seq<Byte>, n: nat)
    requires |CText(s)| <= n && |CText(t)| <= n
    ensures StrCmp(s, t) == MemCmp(CText(s) + Zeros(n - |CText(s)|), CText(t) + Zeros(n - |CText(t)|))
    decreases n
  {
    var u, v := CText(s), CText(t);
    var a, b := u + Zeros(n - |u|), v + Zeros(n - |v|);
    if n > 0 {
      assert a[0] == (if s == [] then 0 else s[0]) && b[0] == if t == [] then 0 else t[0];
      if a[0] == b[0] != 0 {
        StrCmpOrder(s[1..], t[1..], n - 1);
        assert a[1..] == u[1..] + Zeros(n - |u|) && b[1..] == v[1..] + Zeros(n - |v|);
      } else if a[0] == b[0] {
        assert a == Zeros(n) && b == Zeros(n);
        MemCmpOrder(a, b);
      }
    }
  }

  /** Texts compare as their numbers do. */
  lemma TextOrder(s: seq<Byte>, t: seq<Byte>, n: nat)
    requires |CText(s)| <= n && |CText(t)| <= n
    ensures StrCmp(s, t) < 0 <==> TextNumber(s, n) < TextNumber(t, n)
    ensures StrCmp(s, t) == 0 <==> TextNumber(s, n) == TextNumber(t, n)
  {
    StrCmpOrder(s, t, n);
    BigEndianOrder(CText(s) + Zeros(n - |CText(s)|), CText(t) + Zeros(n - |CText(t)|));
  }

  /** Two values compared by an operator: two numbers, or two texts. */
  predicate Related(op: CompOp, l: Value, r: Value) {
    match l
    case Num(a) => r.Num? && Relation(op, a, r.n)
    case Text(s) => r.Text? && Relation(op, TextNumber(s, |s| + |r.s|), TextNumber(r.s, |s| + |r.s|))
  }

  /** Row `i` of a table has value `v` in the column. */
  predicate Has(db: Database, e: Env, c: TabCol, v: Value) {
    c.tab in e && c.tab in db && e[c.tab] < |db[c.tab]| && (c.col, v) in db[c.tab][e[c.tab]].Items
  }

  /** What a condition asks of a combination of rows: its column, and the constant or the other column, have values that
      are so related. */
  ghost predicate Asks(db: Database, e: Env, c: Condition) {
    exists l, r ::
      Has(db, e, c.lhs, l) && (if c.isRhsVal then r == c.rhsVal else Has(db, e, c.rhsCol, r)) && Related(c.op, l, r)
  }

  lemma BinOpRelated(op: CompOp, l: Value, r: Value)
    ensures BinOp(op, l, r) <==> Related(op, l, r)
  {
    if l.Text? && r.Text? { TextOrder(l.s, r.s, |l.s| + |r.s|); }
  }

  lemma FoundHas(db: Database, e: Env, c: TabCol, v: Value)
    ensures Has(db, e, c, v) <==> Found(db, e, c) && Cell(db, e, c) == v
  {
  }

  lemma SatAsks(db: Database, e: Env, c: Condition)
    ensures Sat(db, e, c) <==> Asks(db, e, c)
  {
    hide BinOp, Related, Has;
    forall l, r ensures BinOp(c.op, l, r) <==> Related(c.op, l, r) { BinOpRelated(c.op, l, r); }
    forall v
      ensures Has(db, e, c.lhs, v) <==> Found(db, e, c.lhs) && Cell(db, e, c.lhs) == v
    {
      FoundHas(db, e, c.lhs, v);
    }
    forall v ensures Has(db, e, c.rhsCol, v) <==> Found(db, e, c.rhsCol) && Cell(db, e, c.rhsCol) == v {
      FoundHas(db, e, c.rhsCol, v);
    }
    if Sat(db, e, c) {
      var l, r := Cell(db, e, c.lhs), if c.isRhsVal then c.rhsVal else Cell(db, e, c.rhsCol);
      assert Has(db, e, c.lhs, l) && Related(c.op, l, r);
    }
  }

  /** All conditions are met exactly if each is, in that sense. */
  lemma SatAllAsks(db: Database, e: Env, cs: seq<Condition>)
    ensures SatAll(db, e, cs) <==> forall c :: c in cs ==> Asks(db, e, c)
  {
    hide Sat, Asks;
    forall c ensures Sat(db, e, c) <==> Asks(db, e, c) { SatAsks(db, e, c); }
    if SatAll(db, e, cs) {
      forall c | c in cs ensures Asks(db, e, c) {
        var i :| 0 <= i < |cs| && cs[i] == c;
        assert Sat(db, e, cs[i]);
      }
    }
  }

  /** A column with an integer against an integer. */
  lemma NumberCondition(db: Database, e: Env, c: Condition, a: int, b: int)
    requires Has(db, e, c.lhs, Num(a)) && (if c.isRhsVal then c.rhsVal == Num(b) else Has(db, e, c.rhsCol, Num(b)))
    ensures c.op == Eq ==> (SatAll(db, e, [c]) <==> a == b)
    ensures c.op == Ne ==> (SatAll(db, e, [c]) <==> a != b)
    ensures c.op == Lt ==> (SatAll(db, e, [c]) <==> a < b)
    ensures c.op == Gt ==> (SatAll(db, e, [c]) <==> a > b)
    ensures c.op == Le ==> (SatAll(db, e, [c]) <==> a <= b)
    ensures c.op == Ge ==> (SatAll(db, e, [c]) <==> a >= b)
  {
    assert SatAll(db, e, [c]) <==> Sat(db, e, [c][0]);
    FoundHas(db, e, c.lhs, Num(a));
    FoundHas(db, e, c.rhsCol, Num(b));
  }

  /** A column with a text against a text. */
  lemma TextCondition(db: Database, e: Env, c: Condition, s: seq<Byte>, t: seq<Byte>, n: nat)
    requires Has(db, e, c.lhs, Text(s)) && (if c.isRhsVal then c.rhsVal == Text(t) else Has(db, e, c.rhsCol, Text(t)))
    requires |CText(s)| <= n && |CText(t)| <= n
    ensures c.op == Eq ==> (SatAll(db, e, [c]) <==> TextNumber(s, n) == TextNumber(t, n))
    ensures c.op == Ne ==> (SatAll(db, e, [c]) <==> TextNumber(s, n) != TextNumber(t, n))
    ensures c.op == Lt ==> (SatAll(db, e, [c]) <==> TextNumber(s, n) < TextNumber(t, n))
    ensures c.op == Gt ==> (SatAll(db, e, [c]) <==> TextNumber(s, n) > TextNumber(t, n))
    ensures c.op == Le ==> (SatAll(db, e, [c]) <==> TextNumber(s, n) <= TextNumber(t, n))
    ensures c.op == Ge ==> (SatAll(db, e, [c]) <==> TextNumber(s, n) >= TextNumber(t, n))
  {
    hide TextNumber;
    assert SatAll(db, e, [c]) <==> Sat(db, e, [c][0]);
    FoundHas(db, e, c.lhs, Text(s));
    FoundHas(db, e, c.rhsCol, Text(t));
    TextOrder(s, t, n);
  }

  /** A query asks for a combination: one existing row of each table, and every condition asks for it. */
  ghost predicate AskedFor(db: Database, e: Env, tables: seq<string>, conds: seq<Condition>) {
    && (forall t :: t in e <==> t in tables) && (forall t :: t in e ==> t in db && e[t] < |db[t]|)
    && forall c :: c in conds ==> Asks(db, e, c)
  }

  lemma WantedAsked(db: Database, e: Env, tables: seq<string>, conds: seq<Condition>)
    ensures Wanted(db, e, tables, conds) <==> AskedFor(db, e, tables, conds)
  {
    hide Asks, SatAll;
    SatAllAsks(db, e, conds);
    var ts := set t | t in tables;
    assert forall t :: t in ts <==> t in tables;
    if AskedFor(db, e, tables, conds) { assert e.Keys == ts; }
  }
}
