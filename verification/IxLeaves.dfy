/** The leaf level: the chain of leaves, the sorted map it stores, and the search that reaches it. */
module IxLeaves {
  import opened Wrappers
  import opened IxNode
  import opened IxTree

  /** The leaves from left to right, linked by `nextLeaf`, with adjoining key intervals. */
  ghost predicate ChainOk(t: Tree, leaves: seq<int>, first: int, last: int)
    requires t.g.Keys == t.pages.Keys
  {
    && 0 < |leaves| && first == leaves[0] && last == leaves[|leaves|-1]
    && (forall i :: 0 <= i < |leaves| ==> leaves[i] in t.pages && t.pages[leaves[i]].isLeaf)
    && (forall i, j :: 0 <= i < j < |leaves| ==> leaves[i] != leaves[j])
    && (forall p :: p in t.pages && t.pages[p].isLeaf ==> p in leaves)
    && (forall i :: 0 <= i < |leaves| - 1 ==>
          t.pages[leaves[i]].nextLeaf == leaves[i+1] && t.g[leaves[i]].hi == t.g[leaves[i+1]].lo)
    && t.pages[last].nextLeaf == LEAF_HEADER_PAGE
    && t.g[first].lo == NegInf && t.g[last].hi == PosInf
  }

  ghost predicate SlotIs(n: Node, i: int, k: Key) { 0 <= i < n.num && i < |n.keys| && n.keys[i] == k }
  ghost predicate Has(n: Node, k: Key) { exists i :: SlotIs(n, i, k) }

  /** What one leaf says about the stored map: its entries are in the map, and every key of the map
      inside its interval is one of its entries. */
  ghost predicate LeafHolds(n: Node, x: Info, m: map<Key, Rid>) {
    && n.num <= |n.keys| && n.num <= |n.rids|
    && (forall i :: 0 <= i < n.num ==> n.keys[i] in m && m[n.keys[i]] == n.rids[i])
    && (forall k :: k in m && Within(k, x) ==> Has(n, k))
  }

  ghost predicate ContentsOk(t: Tree, m: map<Key, Rid>)
    requires t.g.Keys == t.pages.Keys
  {
    forall p :: p in t.pages && t.pages[p].isLeaf ==> LeafHolds(t.pages[p], t.g[p], m)
  }

  /** The whole index: search tree, leaf chain, and stored map. */
  ghost predicate IndexOk(t: Tree, leaves: seq<int>, first: int, last: int, m: map<Key, Rid>,
                          over: int, l: int, r: int, low: int) {
    TreeOk(t, over, l, r, low) && ChainOk(t, leaves, first, last) && ContentsOk(t, m)
  }

  // ---------- steps above the leaf level ----------

  ghost predicate SameLeaf(n: Node, m: Node) {
    m == n.(parent := m.parent)
  }

  /** Both trees have the same leaves, in the same positions, up to parent links. */
  ghost predicate SameLeaves(t: Tree, t': Tree)
    requires t.g.Keys == t.pages.Keys && t'.g.Keys == t'.pages.Keys
  {
    && (forall p :: p in t.pages && t.pages[p].isLeaf ==>
          p in t'.pages && SameLeaf(t.pages[p], t'.pages[p]) && t'.g[p] == t.g[p])
    && (forall p :: p in t'.pages && t'.pages[p].isLeaf ==> p in t.pages && t.pages[p].isLeaf)
  }

  lemma LeafHoldsFrame(n: Node, n': Node, x: Info, m: map<Key, Rid>)
    requires LeafHolds(n, x, m) && SameLeaf(n, n')
    ensures LeafHolds(n', x, m)
  {
    forall k | k in m && Within(k, x) ensures Has(n', k) {
      var i :| SlotIs(n, i, k);
      assert SlotIs(n', i, k);
    }
  }

  lemma LeavesFrame(t: Tree, t': Tree, leaves: seq<int>, first: int, last: int, m: map<Key, Rid>)
    requires t.g.Keys == t.pages.Keys && t'.g.Keys == t'.pages.Keys && SameLeaves(t, t')
    requires ChainOk(t, leaves, first, last) && ContentsOk(t, m)
    ensures ChainOk(t', leaves, first, last) && ContentsOk(t', m)
  {
    forall p | p in t'.pages && t'.pages[p].isLeaf ensures LeafHolds(t'.pages[p], t'.g[p], m) {
      LeafHoldsFrame(t.pages[p], t'.pages[p], t.g[p], m);
    }
  }

  // ---------- intervals of distinct leaves ----------

  /** No page has an empty interval. */
  lemma Inhabited(t: Tree, over: int, l: int, r: int, low: int, p: int) returns (k: Key)
    requires TreeOk(t, over, l, r, low) && p in t.pages
    ensures Within(k, t.g[p])
  {
    var n, x := t.pages[p], t.g[p];
    assert NodeOk(n, x, t.max, t.zero, if p == over then t.max else t.max - 1) && SizeOk(n, p == t.root, t.max);
    if 0 < n.num {
      k := n.keys[0];
    } else {
      assert UpOk(t.pages, t.g, t.root, l, r, p);
      if p == l { assert UpOk(t.pages, t.g, t.root, l, r, r); }
      k := if x.hi.At? then x.hi.k - 1 else 0;
    }
  }

  /** Intervals along the chain lie in order. */
  lemma {:induction false} IntervalsOrdered(t: Tree, leaves: seq<int>, first: int, last: int, over: int, l: int, r: int,
                                            low: int, i: nat, j: nat, k: Key)
    requires TreeOk(t, over, l, r, low) && ChainOk(t, leaves, first, last)
    requires i < j < |leaves| && AtLeast(k, t.g[leaves[j]].lo)
    ensures !Below(k, t.g[leaves[i]].hi)
    decreases j - i
  {
    assert t.g[leaves[j-1]].hi == t.g[leaves[j]].lo;
    var x := Inhabited(t, over, l, r, low, leaves[j-1]);
    if j > i + 1 {
      IntervalsOrdered(t, leaves, first, last, over, l, r, low, i, j - 1, k);
    }
  }

  /** A key lies in the interval of at most one leaf. */
  lemma OneLeaf(t: Tree, leaves: seq<int>, first: int, last: int, over: int, l: int, r: int, low: int, p: int, q: int,
                k: Key)
    requires TreeOk(t, over, l, r, low) && ChainOk(t, leaves, first, last)
    requires p in t.pages && q in t.pages && t.pages[p].isLeaf && t.pages[q].isLeaf
    requires Within(k, t.g[p]) && Within(k, t.g[q])
    ensures p == q
  {
    var i :| 0 <= i < |leaves| && leaves[i] == p;
    var j :| 0 <= j < |leaves| && leaves[j] == q;
    if i < j {
      IntervalsOrdered(t, leaves, first, last, over, l, r, low, i, j, k);
    } else if j < i {
      IntervalsOrdered(t, leaves, first, last, over, l, r, low, j, i, k);
    }
  }

  // ---------- the ends of the chain ----------

  /** Some leaf is responsible for each key. */
  lemma CoveringLeaf(t: Tree, leaves: seq<int>, first: int, last: int, k: Key) returns (i: nat)
    requires Settled(t) && ChainOk(t, leaves, first, last)
    ensures i < |leaves| && Within(k, t.g[leaves[i]])
  {
    hide AllNodesOk, AllSizesOk, AllKidsOk, AllUpOk, RootHighest;
    i := 0;
    while !Below(k, t.g[leaves[i]].hi)
      invariant i < |leaves| && AtLeast(k, t.g[leaves[i]].lo)
      decreases |leaves| - i
    {
      assert t.g[leaves[i]].hi == t.g[leaves[i+1]].lo;
      assert !t.g[leaves[i]].hi.NegInf? by { var x := Inhabited(t, NO_PAGE, NO_PAGE, NO_PAGE, NO_PAGE, leaves[i]); }
      i := i + 1;
    }
  }

  lemma RootAbove(t: Tree, q: int)
    requires Settled(t) && q in t.pages && q != t.root
    ensures 1 <= t.g[t.root].level
  {
    assert UpOk(t.pages, t.g, t.root, NO_PAGE, NO_PAGE, q);
    var y := t.pages[q].parent;
    var j :| IsKid(t.pages, y, j, q);
    assert NodeOk(t.pages[y], t.g[y], t.max, t.zero, if y == NO_PAGE then t.max else t.max - 1);
  }

  /** With more than one leaf, none is empty. */
  lemma LeavesFilled(t: Tree, leaves: seq<int>, first: int, last: int, i: nat)
    requires Settled(t) && ChainOk(t, leaves, first, last) && i < |leaves| && 1 < |leaves|
    ensures 0 < t.pages[leaves[i]].num
  {
    var p, q := leaves[i], leaves[if i == 0 then 1 else 0];
    assert SizeOk(t.pages[p], p == t.root, t.max);
    assert NodeOk(t.pages[p], t.g[p], t.max, t.zero, if p == NO_PAGE then t.max else t.max - 1);
    if q != t.root { RootAbove(t, q); }
  }

  /** Where a stored key is found. */
  lemma StoredAt(t: Tree, leaves: seq<int>, first: int, last: int, m: map<Key, Rid>, k: Key) returns (i: nat, j: nat)
    requires Settled(t) && ChainOk(t, leaves, first, last) && ContentsOk(t, m) && k in m
    ensures i < |leaves| && leaves[i] in t.pages && SlotIs(t.pages[leaves[i]], j, k) && Within(k, t.g[leaves[i]])
  {
    i := CoveringLeaf(t, leaves, first, last, k);
    assert LeafHolds(t.pages[leaves[i]], t.g[leaves[i]], m);
    assert Has(t.pages[leaves[i]], k);
    j :| SlotIs(t.pages[leaves[i]], j, k);
  }

  lemma LeafFacts(t: Tree, leaves: seq<int>, first: int, last: int, m: map<Key, Rid>, i: nat, s: nat)
    requires Settled(t) && ChainOk(t, leaves, first, last) && ContentsOk(t, m) && i < |leaves|
             && s < t.pages[leaves[i]].num
    ensures var n := t.pages[leaves[i]]; n.num <= |n.keys| && n.keys[s] in m && Within(n.keys[s], t.g[leaves[i]])
    ensures var n := t.pages[leaves[i]]; forall a, b :: 0 <= a < b < n.num ==> n.keys[a] < n.keys[b]
  {
    hide AllSizesOk, AllKidsOk, AllUpOk;
    assert LeafHolds(t.pages[leaves[i]], t.g[leaves[i]], m);
    OkAt(t, NO_PAGE, NO_PAGE, NO_PAGE, NO_PAGE, leaves[i]);
  }

  /** The first leaf starts with the least stored key. */
  lemma LeastEntry(t: Tree, leaves: seq<int>, first: int, last: int, m: map<Key, Rid>, k: Key)
    requires Settled(t) && ChainOk(t, leaves, first, last) && ContentsOk(t, m) && k in m
    ensures 0 < t.pages[first].num <= |t.pages[first].keys| && t.pages[first].keys[0] in m
            && t.pages[first].keys[0] <= k
  {
    hide TreeOk, ContentsOk;
    var i, j := StoredAt(t, leaves, first, last, m, k);
    if i > 0 {
      LeavesFilled(t, leaves, first, last, 0);
      IntervalsOrdered(t, leaves, first, last, NO_PAGE, NO_PAGE, NO_PAGE, NO_PAGE, 0, i, k);
    }
    LeafFacts(t, leaves, first, last, m, 0, 0);
  }

  /** The last leaf ends with the greatest stored key. */
  lemma GreatestEntry(t: Tree, leaves: seq<int>, first: int, last: int, m: map<Key, Rid>, k: Key)
    requires Settled(t) && ChainOk(t, leaves, first, last) && ContentsOk(t, m) && k in m
    ensures var n := t.pages[last]; 0 < n.num <= |n.keys| && n.keys[n.num-1] in m && k <= n.keys[n.num-1]
  {
    hide TreeOk, ContentsOk;
    var i, j := StoredAt(t, leaves, first, last, m, k);
    var e := |leaves| - 1;
    if i < e { LeavesFilled(t, leaves, first, last, e); }
    var n := t.pages[last];
    LeafFacts(t, leaves, first, last, m, e, n.num - 1);
    if i < e { IntervalsOrdered(t, leaves, first, last, NO_PAGE, NO_PAGE, NO_PAGE, NO_PAGE, i, e, n.keys[n.num-1]); }
  }

  // ---------- leaf insertion and leaf split ----------

  lemma LeafHoldsMore(n: Node, x: Info, m: map<Key, Rid>, pos: nat, k: Key, r: Rid, n': Node)
    requires LeafHolds(n, x, m) && PairAdded(n, pos, k, r, n') && k !in m
    ensures LeafHolds(n', x, m[k := r])
  {
    forall k' | k' in m[k := r] && Within(k', x) ensures Has(n', k') {
      if k' == k {
        assert SlotIs(n', pos, k);
      } else {
        var i :| SlotIs(n, i, k');
        assert SlotIs(n', if i < pos then i else i + 1, k');
      }
    }
  }

  lemma LeafHoldsStill(n: Node, x: Info, m: map<Key, Rid>, k: Key, r: Rid)
    requires LeafHolds(n, x, m) && k !in m && !Within(k, x)
    ensures LeafHolds(n, x, m[k := r])
  {
  }

  /** A leaf insertion adds exactly its key to the map. */
  lemma LeafAddContents(t: Tree, leaves: seq<int>, first: int, last: int, m: map<Key, Rid>, p: int, pos: nat, k: Key,
                        r: Rid, t': Tree)
    requires Settled(t) && ChainOk(t, leaves, first, last) && ContentsOk(t, m)
    requires OnePage(t, p, t') && t.pages[p].isLeaf && Within(k, t.g[p]) && k !in m
    requires PairAdded(t.pages[p], pos, k, r, t'.pages[p])
    ensures ChainOk(t', leaves, first, last) && ContentsOk(t', m[k := r])
  {
    assert ChainOk(t', leaves, first, last) by { hide AllNodesOk, AllSizesOk, AllKidsOk, AllUpOk, ContentsOk; }
    hide AllNodesOk, AllSizesOk, AllKidsOk, AllUpOk, ChainOk, LeafHolds, PairAdded;
    forall q | q in t'.pages && t'.pages[q].isLeaf ensures LeafHolds(t'.pages[q], t'.g[q], m[k := r]) {
      assert LeafHolds(t.pages[q], t.g[q], m);
      if q == p {
        LeafHoldsMore(t.pages[p], t.g[p], m, pos, k, r, t'.pages[p]);
      } else {
        if Within(k, t.g[q]) {
          OneLeaf(t, leaves, first, last, NO_PAGE, NO_PAGE, NO_PAGE, NO_PAGE, p, q, k);
        }
        LeafHoldsStill(t.pages[q], t.g[q], m, k, r);
      }
    }
  }

  /** The chain with `q` put in after position `i`. */
  ghost predicate PutIn(leaves: seq<int>, i: nat, q: int, leaves': seq<int>) {
    && i < |leaves| && |leaves'| == |leaves| + 1
    && (forall j :: 0 <= j <= i ==> leaves'[j] == leaves[j])
    && leaves'[i+1] == q
    && (forall j :: i + 1 < j < |leaves'| ==> leaves'[j] == leaves[j-1])
  }

  /** Splitting the leaf at chain position `i`: links and intervals of the longer chain. */
  lemma SplitChain(t: Tree, leaves: seq<int>, first: int, last: int, p: int, q: int, i: nat, t': Tree,
                   leaves': seq<int>)
    requires t.g.Keys == t.pages.Keys && t'.g.Keys == t'.pages.Keys && ChainOk(t, leaves, first, last)
    requires SplitTo(t, p, q, t') && t.pages[p].isLeaf && i < |leaves| && leaves[i] == p && PutIn(leaves, i, q, leaves')
    requires t'.pages[q].nextLeaf == t.pages[p].nextLeaf && t'.pages[p].nextLeaf == q
    ensures ChainOk(t', leaves', first, if last == p then q else last)
  {
    SplitEnds(t, leaves, first, last, p, q, i, t', leaves');
    hide SplitTo, PutIn;
    forall x | x in t'.pages && t'.pages[x].isLeaf ensures x in leaves' {
      SplitListed(t, leaves, first, last, p, q, i, t', leaves', x);
    }
    forall j | 0 <= j < |leaves'|
      ensures leaves'[j] in t'.pages && t'.pages[leaves'[j]].isLeaf
      ensures j < |leaves'| - 1 ==>
                t'.pages[leaves'[j]].nextLeaf == leaves'[j+1] && t'.g[leaves'[j]].hi == t'.g[leaves'[j+1]].lo
    {
      SplitLinks(t, leaves, first, last, p, q, i, t', leaves', j);
    }
  }

  lemma SplitListed(t: Tree, leaves: seq<int>, first: int, last: int, p: int, q: int, i: nat, t': Tree,
                    leaves': seq<int>, x: int)
    requires t.g.Keys == t.pages.Keys && ChainOk(t, leaves, first, last)
    requires SplitTo(t, p, q, t') && i < |leaves| && PutIn(leaves, i, q, leaves') && x in t'.pages && t'.pages[x].isLeaf
    ensures x in leaves'
  {
    if x != q {
      var j :| 0 <= j < |leaves| && leaves[j] == x;
      assert leaves'[if j <= i then j else j + 1] == x;
    } else {
      assert leaves'[i+1] == q;
    }
  }

  lemma SplitEnds(t: Tree, leaves: seq<int>, first: int, last: int, p: int, q: int, i: nat, t': Tree, leaves': seq<int>)
    requires t.g.Keys == t.pages.Keys && t'.g.Keys == t'.pages.Keys && ChainOk(t, leaves, first, last)
    requires SplitTo(t, p, q, t') && t.pages[p].isLeaf && i < |leaves| && leaves[i] == p && PutIn(leaves, i, q, leaves')
    requires t'.pages[q].nextLeaf == t.pages[p].nextLeaf && t'.pages[p].nextLeaf == q
    ensures 0 < |leaves'| && first == leaves'[0] && leaves'[|leaves'|-1] == (if last == p then q else last)
    ensures forall i, j :: 0 <= i < j < |leaves'| ==> leaves'[i] != leaves'[j]
    ensures var e := if last == p then q else last;
            e in t'.pages && t'.pages[e].nextLeaf == LEAF_HEADER_PAGE && t'.g[e].hi == PosInf
    ensures first in t'.pages && t'.g[first].lo == NegInf
  {
  }

  lemma SplitLinks(t: Tree, leaves: seq<int>, first: int, last: int, p: int, q: int, i: nat, t': Tree,
                   leaves': seq<int>, j: nat)
    requires t.g.Keys == t.pages.Keys && t'.g.Keys == t'.pages.Keys && ChainOk(t, leaves, first, last)
    requires SplitTo(t, p, q, t') && t.pages[p].isLeaf && i < |leaves| && leaves[i] == p && PutIn(leaves, i, q, leaves')
    requires t'.pages[q].nextLeaf == t.pages[p].nextLeaf && t'.pages[p].nextLeaf == q && j < |leaves'|
    ensures leaves'[j] in t'.pages && t'.pages[leaves'[j]].isLeaf
    ensures j < |leaves'| - 1 ==>
              t'.pages[leaves'[j]].nextLeaf == leaves'[j+1] && t'.g[leaves'[j]].hi == t'.g[leaves'[j+1]].lo
  {
  }

  lemma SplitContents(t: Tree, m: map<Key, Rid>, p: int, q: int, t': Tree)
    requires t.g.Keys == t.pages.Keys && t'.g.Keys == t'.pages.Keys && ContentsOk(t, m)
    requires SplitTo(t, p, q, t') && t.pages[p].isLeaf && NodeOk(t.pages[p], t.g[p], t.max, t.zero, t.max)
    ensures ContentsOk(t', m)
  {
    forall x | x in t'.pages && t'.pages[x].isLeaf ensures LeafHolds(t'.pages[x], t'.g[x], m) {
      if x == p || x == q {
        SplitLeafHolds(t, m, p, q, t', x);
      } else {
        assert LeafHolds(t.pages[x], t.g[x], m);
      }
    }
  }

  lemma SplitLeafHolds(t: Tree, m: map<Key, Rid>, p: int, q: int, t': Tree, x: int)
    requires t.g.Keys == t.pages.Keys && t'.g.Keys == t'.pages.Keys && ContentsOk(t, m) && (x == p || x == q)
    requires SplitTo(t, p, q, t') && t.pages[p].isLeaf && NodeOk(t.pages[p], t.g[p], t.max, t.zero, t.max)
    ensures LeafHolds(t'.pages[x], t'.g[x], m)
  {
    var n, mid := t.pages[p], t.max / 2;
    assert LeafHolds(n, t.g[p], m);
    var n' := t'.pages[x];
    forall k | k in m && Within(k, t'.g[x]) ensures Has(n', k) {
      assert Within(n.keys[mid], t.g[p]);
      assert Within(k, t.g[p]);
      var j :| SlotIs(n, j, k);
      assert SlotIs(n', if x == p then j else j - mid, k);
    }
  }

  // ---------- the search ----------

  predicate Descends(n: Node, k: Key) {
    !n.isLeaf && n.num <= |n.keys| && n.num <= |n.rids| && UpperBound(n.keys[..n.num], k) <= n.num
  }

  /** The child an inner page sends the search for `k` to. */
  function ChildFor(n: Node, k: Key): int
    requires Descends(n, k)
  {
    n.rids[UpperBound(n.keys[..n.num], k) - 1].pageNo
  }

  /** The page a descent from page `p` for key `k` ends on. */
  function LeafFor(pages: Pages, p: int, k: Key, fuel: nat): int
    decreases fuel
  {
    if p !in pages || fuel == 0 || !Descends(pages[p], k) then p
    else LeafFor(pages, ChildFor(pages[p], k), k, fuel - 1)
  }

  /** What the page `q` answers for key `k`. */
  function Answer(pages: Pages, q: int, k: Key): Option<Rid> {
    if q !in pages || !pages[q].isLeaf || pages[q].num > |pages[q].keys| || pages[q].num > |pages[q].rids| then None
    else
      var n := pages[q];
      var i := LowerBound(n.keys[..n.num], k);
      if i == n.num || n.keys[i] != k then None else Some(n.rids[i])
  }

  /** The answer of a search from page `p`. */
  function Find(pages: Pages, p: int, k: Key, fuel: nat): Option<Rid> {
    Answer(pages, LeafFor(pages, p, k, fuel), k)
  }

  function Get(m: map<Key, Rid>, k: Key): Option<Rid> {
    if k in m then Some(m[k]) else None
  }

  lemma LeafForStep(pages: Pages, p: int, k: Key, fuel: nat)
    requires p in pages && fuel > 0 && Descends(pages[p], k)
    ensures LeafFor(pages, p, k, fuel) == LeafFor(pages, ChildFor(pages[p], k), k, fuel - 1)
  {
  }

  /** A descent stays on pages responsible for the key. */
  lemma DescendStep(t: Tree, over: int, low: int, p: int, k: Key)
    requires TreeOk(t, over, NO_PAGE, NO_PAGE, low) && p in t.pages && !t.pages[p].isLeaf && Within(k, t.g[p])
    ensures Descends(t.pages[p], k) && ChildFor(t.pages[p], k) in t.pages
    ensures Within(k, t.g[ChildFor(t.pages[p], k)]) && t.g[ChildFor(t.pages[p], k)].level + 1 == t.g[p].level
  {
    hide AllNodesOk, AllSizesOk, AllKidsOk, AllUpOk, RootHighest;
    OkAt(t, over, NO_PAGE, NO_PAGE, low, p);
    var n := t.pages[p];
    var ks := n.keys[..n.num];
    var i := UpperBound(ks, k) - 1;
    KidAt(t, over, NO_PAGE, NO_PAGE, low, p, i);
    assert 0 < i ==> ks[i] <= k;
    assert i + 1 < n.num ==> k < ks[i+1];
  }

  lemma LeafAnswer(n: Node, x: Info, max: nat, zero: Key, cap: int, m: map<Key, Rid>, k: Key)
    requires NodeOk(n, x, max, zero, cap) && LeafHolds(n, x, m) && Within(k, x)
    ensures var i := LowerBound(n.keys[..n.num], k);
            (k in m <==> i < n.num && n.keys[i] == k) && (k in m ==> m[k] == n.rids[i])
  {
    var ks := n.keys[..n.num];
    var i := LowerBound(ks, k);
    if k in m {
      var j :| SlotIs(n, j, k);
      assert ks[j] == k;
    }
  }

  /** A descent ends on the leaf responsible for the key. */
  lemma {:induction false} LeafForIs(t: Tree, over: int, low: int, p: int, k: Key)
    requires TreeOk(t, over, NO_PAGE, NO_PAGE, low) && p in t.pages && Within(k, t.g[p])
    ensures var q := LeafFor(t.pages, p, k, t.g[p].level); q in t.pages && t.pages[q].isLeaf && Within(k, t.g[q])
    decreases t.g[p].level
  {
    hide AllNodesOk, AllSizesOk, AllKidsOk, AllUpOk, RootHighest;
    var n := t.pages[p];
    OkAt(t, over, NO_PAGE, NO_PAGE, low, p);
    if !n.isLeaf {
      DescendStep(t, over, low, p, k);
      LeafForStep(t.pages, p, k, t.g[p].level);
      LeafForIs(t, over, low, ChildFor(n, k), k);
    }
  }

  /** Searching is exact: from any page responsible for `k` the descent answers as the stored map. */
  lemma FindExact(t: Tree, m: map<Key, Rid>, p: int, k: Key)
    requires Settled(t) && ContentsOk(t, m) && p in t.pages && Within(k, t.g[p])
    ensures Find(t.pages, p, k, t.g[p].level) == Get(m, k)
  {
    LeafForIs(t, NO_PAGE, NO_PAGE, p, k);
    var q := LeafFor(t.pages, p, k, t.g[p].level);
    assert NodeOk(t.pages[q], t.g[q], t.max, t.zero, if q == NO_PAGE then t.max else t.max - 1);
    assert LeafHolds(t.pages[q], t.g[q], m);
    LeafAnswer(t.pages[q], t.g[q], t.max, t.zero, t.max - 1, m, k);
  }
}
