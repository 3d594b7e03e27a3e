/** A run of insertions, in an index of any order, that loses a separator: the clash happens above the leaves. */
module IxSeparatorRun {
  import opened Wrappers
  import opened IxNode
  import opened IxTree
  import opened IxLeaves
  import opened IxClash
  import opened IxIndex

  type Run = seq<(Key, Rid)>

  /** The keys of the last leaf. */
  ghost function LastKeys(ix: IxIndexHandle): seq<Key>
    reads ix
    requires ix.lastLeaf in ix.pages && ix.pages[ix.lastLeaf].num <= |ix.pages[ix.lastLeaf].keys|
  {
    var n := ix.pages[ix.lastLeaf];
    n.keys[..n.num]
  }

  /** A valid index after a run, whose last leaf has the keys `s`. */
  ghost predicate Holds(ix: IxIndexHandle, es: Run, s: seq<Key>)
    reads ix
  {
    && ix.Valid() && ix.contents == RunWins(map[], es) && ix.lastLeaf in ix.pages && ix.lastLeaf in ix.g
    && ix.pages[ix.lastLeaf].num <= |ix.pages[ix.lastLeaf].keys| && LastKeys(ix) == s
  }

  lemma LastFacts(ix: IxIndexHandle)
    requires ix.Valid()
    ensures ix.root in ix.g && ix.lastLeaf in ix.pages && ix.lastLeaf in ix.g && ix.pages[ix.lastLeaf].isLeaf
            && ix.g[ix.lastLeaf].hi == PosInf
    ensures NodeOk(ix.pages[ix.lastLeaf], ix.g[ix.lastLeaf], ix.max, ix.zero, ix.max - 1) && 4 <= ix.max
    ensures ix.lastLeaf == ix.root ==> ix.pages[ix.lastLeaf].parent == NO_PAGE && ix.g[ix.lastLeaf].lo == NegInf
  {
    OkAt(ix.Shape(), NO_PAGE, NO_PAGE, NO_PAGE, NO_PAGE, ix.lastLeaf);
  }

  lemma GoesLast(ix: IxIndexHandle, k: Key)
    requires ix.Valid() && ix.lastLeaf in ix.pages && ix.lastLeaf in ix.g && Within(k, ix.g[ix.lastLeaf])
    ensures ix.root in ix.g && LeafFor(ix.pages, ix.root, k, ix.Height()) == ix.lastLeaf
  {
    hide AllNodesOk, AllSizesOk, AllKidsOk, AllUpOk, ContentsOk, LeafFor;
    var t := ix.Shape();
    LastFacts(ix);
    ix.RootSpans(k);
    LeafForIs(t, NO_PAGE, NO_PAGE, t.root, k);
    OneLeaf(t, ix.leaves, ix.firstLeaf, ix.lastLeaf, NO_PAGE, NO_PAGE, NO_PAGE, NO_PAGE,
            LeafFor(t.pages, t.root, k, t.g[t.root].level), ix.lastLeaf, k);
  }

  /** A key that fits the last leaf and meets no clash there, nor above if the leaf does not fill up or is the root. */
  ghost predicate Harmlessly(ix: IxIndexHandle, s: seq<Key>, k: Key)
    reads ix
  {
    && k !in s && (s == [] || k != ix.zero) && ((s != [] && s[0] <= k) || ix.lastLeaf == ix.root)
    && (|s| + 1 < ix.max || ix.lastLeaf == ix.root)
  }

  lemma NoClashLast(ix: IxIndexHandle, es: Run, s: seq<Key>, k: Key)
    requires Holds(ix, es, s) && Harmlessly(ix, s, k)
    ensures ix.root in ix.g && LeafFor(ix.pages, ix.root, k, ix.Height()) == ix.lastLeaf
    ensures !InsertClash(ix.pages, ix.root, k, ix.Height())
  {
    hide IndexOk, LeafFor;
    LastFacts(ix);
    var n := ix.pages[ix.lastLeaf];
    assert s != [] ==> s[0] == n.keys[0];
    GoesLast(ix, k);
  }

  /** The keys with one more at its place. */
  ghost function With(s: seq<Key>, k: Key): seq<Key> {
    var pos := LowerBound(s, k);
    s[..pos] + [k] + s[pos..]
  }

  lemma NodeWith(n: Node, k: Key, r: Rid)
    requires |n.keys| == |n.rids| && n.num < |n.keys| && k !in n.keys[..n.num] && !SlotClash(n, k)
    ensures var m := NodeInsert(n, k, r);
            m.num == n.num + 1 <= |m.keys| == |n.keys| && m.keys[..m.num] == With(n.keys[..n.num], k)
  {
    var pos := LowerBound(n.keys[..n.num], k);
    if pos < n.num { assert n.keys[..n.num][pos] == n.keys[pos]; }
  }

  /** One insertion into the last leaf. */
  method Step(ix: IxIndexHandle, es: Run, ghost s: seq<Key>, k: Key, r: Rid)
    requires Holds(ix, es, s) && Harmlessly(ix, s, k)
    modifies ix
    ensures |s| + 1 < ix.max ==>
              Holds(ix, es + [(k, r)], With(s, k)) && (ix.lastLeaf == ix.root <==> old(ix.lastLeaf == ix.root))
    ensures |s| + 1 == ix.max ==>
              Holds(ix, es + [(k, r)], With(s, k)[ix.max / 2..]) && ix.lastLeaf != ix.root && |With(s, k)| == ix.max
  {
    hide IndexOk, InsertClash, LeafClash, Find, Lost, LeafFor, NodeInsert, SlotClash, LowerBound;
    NoClashLast(ix, es, s, k);
    LastFacts(ix);
    ghost var n := ix.pages[ix.lastLeaf];
    NotSlotClash(n, ix.g[ix.lastLeaf], ix.max, ix.zero, k);
    NodeWith(n, k, r);
    assert (es + [(k, r)])[..|es|] == es;
    var p := ix.InsertEntry(k, r);
    LastFacts(ix);
    if |s| + 1 == ix.max {
      ghost var m, u := NodeInsert(n, k, r), ix.pages[ix.lastLeaf];
      assert u.keys[..u.num] == m.keys[ix.max / 2..];
      assert m.keys[..m.num] == m.keys;
    }
  }

  lemma NotSlotClash(n: Node, x: Info, max: nat, zero: Key, k: Key)
    requires NodeOk(n, x, max, zero, max - 1) && Below(k, x.hi) && (n.num == 0 || k != zero)
    ensures !SlotClash(n, k)
  {
  }

  // ---------- the run ----------

  /** `zero - 2 * i`, ..., `zero - 2`, `zero`. */
  ghost function Evens(zero: Key, i: nat): (s: seq<Key>)
    ensures |s| == i + 1 && s[i] == zero && forall j :: 0 <= j <= i ==> s[j] == zero - 2 * (i - j)
  {
    seq(i + 1, j => zero - 2 * (i - j))
  }

  lemma EvensStep(zero: Key, i: nat)
    ensures With(Evens(zero, i), zero - 2 * (i + 1)) == Evens(zero, i + 1)
  {
    var s, k := Evens(zero, i), zero - 2 * (i + 1);
    LowerBoundUnique(s, k, 0);
  }

  lemma FirstStep(k: Key)
    ensures With([], k) == [k]
  {
  }

  lemma Behind(s: seq<Key>, k: Key)
    requires forall j :: 0 <= j < |s| ==> s[j] < k
    ensures With(s, k) == s + [k]
  {
    LowerBoundUnique(s, k, |s|);
  }

  lemma OneBelow(s: seq<Key>, zero: Key)
    requires 0 < |s| && s[|s|-1] == zero && forall j :: 0 <= j < |s| - 1 ==> s[j] < zero - 1
    ensures With(s, zero - 1) == s[..|s|-1] + [zero - 1, zero]
  {
    LowerBoundUnique(s, zero - 1, |s| - 1);
    assert s[|s|-1..] == [zero];
  }

  /** Zero, and then keys below it until the leaf is split: zero is the last key of the last leaf. */
  method FillRoot(order: nat, zero: Key, r: Rid) returns (ix: IxIndexHandle, es: Run)
    requires 2 < order
    ensures fresh(ix) && ix.max == order + 1 && ix.zero == zero && ix.lastLeaf != ix.root && (zero, r) in es
    ensures Holds(ix, es, Evens(zero, order)[(order + 1) / 2..])
  {
    hide IxIndexHandle.Valid, LowerBound, RunWins, With, Evens;
    ix := new IxIndexHandle(order, zero);
    StartEmpty(ix);
    Step(ix, [], [], zero, r);
    FirstStep(zero);
    es := [] + [(zero, r)];
    var i := 0;
    assert Evens(zero, 0) == [zero];
    while i + 1 < order
      invariant 0 <= i < order && fresh(ix) && ix.max == order + 1 && ix.zero == zero && ix.lastLeaf == ix.root
                && (zero, r) in es
      invariant Holds(ix, es, Evens(zero, i))
    {
      EvensStep(zero, i);
      Step(ix, es, Evens(zero, i), zero - 2 * (i + 1), r);
      es := es + [(zero - 2 * (i + 1), r)];
      i := i + 1;
    }
    EvensStep(zero, i);
    Step(ix, es, Evens(zero, i), zero - 2 * (i + 1), r);
    es := es + [(zero - 2 * (i + 1), r)];
  }

  lemma StartEmpty(ix: IxIndexHandle)
    requires ix.Valid() && ix.contents == map[] && ix.lastLeaf == ix.root
    ensures Holds(ix, [], [])
  {
    LastFacts(ix);
    var n := ix.pages[ix.lastLeaf];
    assert LeafHolds(n, ix.g[ix.lastLeaf], map[]);
    var first := n.keys[0];
    assert n.num == 0 <== first !in ix.contents;
  }

  /** Zero is in the middle of a full page that the last leaf will become with one key more, behind the others. */
  ghost predicate ZeroMiddle(s: seq<Key>, max: nat, zero: Key, k: Key) {
    max / 2 < |s| && s[max / 2] == zero && s[0] < zero < k && forall j :: 0 <= j < |s| ==> s[j] < k
  }

  /** One more key below zero where zero is not in the middle yet. */
  method FillHalf(order: nat, zero: Key, r: Rid) returns (ix: IxIndexHandle, es: Run, ghost s: seq<Key>)
    requires 2 < order
    ensures fresh(ix) && ix.max == order + 1 && ix.zero == zero && ix.lastLeaf != ix.root && (zero, r) in es
    ensures Holds(ix, es, s) && |s| == (order + 1) / 2 + 1 && ZeroMiddle(s, ix.max, zero, zero + 1)
  {
    hide IxIndexHandle.Valid, LowerBound, RunWins, With;
    ix, es := FillRoot(order, zero, r);
    var mid := (order + 1) / 2;
    s := Evens(zero, order)[mid..];
    assert |s| == order + 1 - mid && s[|s|-1] == zero;
    if order + 1 - mid == mid {
      OneBelow(s, zero);
      Step(ix, es, s, zero - 1, r);
      es := es + [(zero - 1, r)];
      s := s[..|s|-1] + [zero - 1, zero];
    }
  }

  /** Then keys above zero until one more fills the last leaf. */
  method FillLast(order: nat, zero: Key, r: Rid) returns (ix: IxIndexHandle, es: Run, ghost s: seq<Key>, k: Key)
    requires 2 < order
    ensures fresh(ix) && ix.max == order + 1 && ix.zero == zero && ix.lastLeaf != ix.root && (zero, r) in es
    ensures Holds(ix, es, s) && |s| + 1 == ix.max && ZeroMiddle(s, ix.max, zero, k)
  {
    hide IxIndexHandle.Valid, LowerBound, RunWins, With;
    ix, es, s := FillHalf(order, zero, r);
    var mid := (order + 1) / 2;
    k := zero + 1;
    while mid + (k - zero) < order
      invariant zero < k && mid + (k - zero) <= order && |s| == mid + (k - zero) && ZeroMiddle(s, order + 1, zero, k)
      invariant fresh(ix) && ix.max == order + 1 && ix.zero == zero && ix.lastLeaf != ix.root && (zero, r) in es
                && Holds(ix, es, s)
    {
      Behind(s, k);
      Step(ix, es, s, k, r);
      es := es + [(k, r)];
      s := s + [k];
      k := k + 1;
    }
  }

  lemma MiddleClash(ix: IxIndexHandle, es: Run, s: seq<Key>, k: Key)
    requires Holds(ix, es, s) && |s| + 1 == ix.max && ix.lastLeaf != ix.root && ZeroMiddle(s, ix.max, ix.zero, k)
    ensures ix.root in ix.g && Clashes(ix.Now(), k) && !LeafClash(ix.pages, ix.root, k, ix.Height())
  {
    hide AllNodesOk, AllSizesOk, AllKidsOk, AllUpOk, ContentsOk, ChainOk, LeafFor;
    LastFacts(ix);
    var n := ix.pages[ix.lastLeaf];
    assert s[0] == n.keys[0] && s[ix.max / 2] == n.keys[ix.max / 2];
    GoesLast(ix, k);
    LowerBoundUnique(s, k, |s|);
    SeparatorClash(ix.Shape(), ix.lastLeaf, k);
  }

  /** The key that fills the last leaf hands zero to the parent, whose next slot has never held a key and reads as zero.
      Before it every search is right, zero is stored, and the leaf has no clash; after it a stored key is lost. */
  method SeparatorRun(order: nat, zero: Key, r: Rid)
      returns (ix: IxIndexHandle, es: Run, k: Key, ghost before: Snapshot)
    requires 2 < order
    ensures fresh(ix) && ix.root in ix.g && (zero, r) in es && Says(before, RunWins(map[], es))
    ensures Clashes(before, k) && !LeafClash(before.pages, before.root, k, before.height)
    ensures Lost(ix.pages, ix.root, ix.Height(), RunWins(map[], es + [(k, r)]))
  {
    hide IxIndexHandle.Valid, InsertClash, LeafClash, Find, Lost, LeafFor, NodeInsert, Says, LowerBound, ZeroMiddle;
    ghost var s;
    ix, es, s, k := FillLast(order, zero, r);
    MiddleClash(ix, es, s, k);
    ix.SaysContents();
    before := ix.Now();
    var _ := ix.InsertEntry(k, r);
    assert (es + [(k, r)])[..|es|] == es;
  }
}
