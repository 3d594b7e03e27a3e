/** The B+ tree as a graph of pages: its invariant, stated page by page, and the tree steps of an
    insertion (leaf insertion, separator upkeep, split, entering a sibling, growing a root). */
module IxTree {
  import opened IxNode

  type Pages = map<int, Node>

  datatype Bound = NegInf | At(k: Key) | PosInf

  predicate AtLeast(k: Key, lo: Bound) { lo.NegInf? || (lo.At? && lo.k <= k) }
  predicate Below(k: Key, hi: Bound) { hi.PosInf? || (hi.At? && k < hi.k) }

  /** What the tree position of a page implies: its height above the leaves and the key interval
      `[lo, hi)` it is responsible for. */
  datatype Info = Info(level: nat, lo: Bound, hi: Bound)
  type Infos = map<int, Info>

  predicate Within(k: Key, x: Info) { AtLeast(k, x.lo) && Below(k, x.hi) }

  /** Page map, page positions, root page, slots per page, and the key made of zero bytes. */
  datatype Tree = Tree(pages: Pages, g: Infos, root: int, max: nat, zero: Key)

  /** A page taken by itself. A slot out of use holds the zero key or a key beyond the interval. */
  ghost predicate NodeOk(n: Node, x: Info, max: nat, zero: Key, cap: int) {
    && Shaped(n, max) && n.num <= cap
    && (n.isLeaf <==> x.level == 0)
    && (forall i, j :: 0 <= i < j < n.num ==> n.keys[i] < n.keys[j])
    && (forall i :: 0 <= i < n.num ==> Within(n.keys[i], x))
    && (forall i :: n.num <= i < max ==> n.keys[i] == zero || !Below(n.keys[i], x.hi))
  }

  ghost predicate SizeOk(n: Node, isRoot: bool, max: nat) {
    if isRoot then n.isLeaf || 2 <= n.num else max / 2 <= n.num
  }

  /** Upper end of the interval that the parent of `c` accounts for. While a split page `l` waits for
      its new right sibling `r` to be entered in the parent, `l` stands for both. */
  ghost function SpanHi(g: Infos, c: int, l: int, r: int): Bound
    requires c in g && (c == l ==> r in g)
  {
    if c == l then g[r].hi else g[c].hi
  }

  /** Slot `i` of the inner page `p` and the child it points to. The child `low` may have a smaller
      first key than the slot records. */
  ghost predicate KidOk(pages: Pages, g: Infos, p: int, i: int, l: int, r: int, low: int)
    requires p in pages && p in g && 0 <= i < pages[p].num
    requires |pages[p].keys| == |pages[p].rids| && pages[p].num <= |pages[p].keys|
  {
    var n := pages[p];
    var c := n.rids[i].pageNo;
    && c in pages && c in g && (c == l ==> r in g)
    && pages[c].parent == p
    && g[c].level + 1 == g[p].level
    && g[c].lo == (if i == 0 then g[p].lo else At(n.keys[i]))
    && SpanHi(g, c, l, r) == (if i + 1 < n.num then At(n.keys[i+1]) else g[p].hi)
    && 0 < pages[c].num <= |pages[c].keys|
    && (pages[c].keys[0] == n.keys[i] || (c == low && i == 0 && pages[c].keys[0] < n.keys[0]))
  }

  ghost predicate KidsOk(pages: Pages, g: Infos, p: int, l: int, r: int, low: int)
    requires p in pages && p in g
    requires |pages[p].keys| == |pages[p].rids| && pages[p].num <= |pages[p].keys|
  {
    forall i :: 0 <= i < pages[p].num ==> KidOk(pages, g, p, i, l, r, low)
  }

  ghost predicate IsKid(pages: Pages, y: int, i: int, c: int) {
    y in pages && !pages[y].isLeaf && 0 <= i < pages[y].num && i < |pages[y].rids| && pages[y].rids[i].pageNo == c
  }

  /** The way up from page `p`. */
  ghost predicate UpOk(pages: Pages, g: Infos, root: int, l: int, r: int, p: int)
    requires p in pages && p in g
  {
    if p == root then
      && pages[p].parent == NO_PAGE && g[p].lo == NegInf
      && (p == l ==> r in g) && SpanHi(g, p, l, r) == PosInf
    else if p == r then
      && l in pages && l in g
      && pages[p].parent == pages[l].parent && pages[p].isLeaf == pages[l].isLeaf
      && g[p].level == g[l].level && 0 < pages[p].num <= |pages[p].keys|
      && g[p].lo == g[l].hi == At(pages[p].keys[0])
    else
      exists i :: IsKid(pages, pages[p].parent, i, p)
  }

  ghost predicate AllNodesOk(pages: Pages, g: Infos, max: nat, zero: Key, over: int)
    requires g.Keys == pages.Keys
  {
    forall p :: p in pages ==> NodeOk(pages[p], g[p], max, zero, if p == over then max else max - 1)
  }

  ghost predicate AllSizesOk(pages: Pages, root: int, max: nat) {
    forall p :: p in pages ==> SizeOk(pages[p], p == root, max)
  }

  ghost predicate AllKidsOk(pages: Pages, g: Infos, l: int, r: int, low: int)
    requires g.Keys == pages.Keys
    requires forall p :: p in pages ==> |pages[p].keys| == |pages[p].rids| && pages[p].num <= |pages[p].keys|
  {
    forall p :: p in pages && !pages[p].isLeaf ==> KidsOk(pages, g, p, l, r, low)
  }

  ghost predicate AllUpOk(pages: Pages, g: Infos, root: int, l: int, r: int)
    requires g.Keys == pages.Keys
  {
    forall p :: p in pages ==> UpOk(pages, g, root, l, r, p)
  }

  ghost predicate RootHighest(g: Infos, root: int)
    requires root in g
  {
    forall p :: p in g ==> g[p].level <= g[root].level
  }

  /** The search tree. `over` is the page allowed to be full, `(l, r)` a split not yet entered in the
      parent, `low` a page whose first key the parent has not been told; each is NO_PAGE when absent. */
  ghost predicate TreeOk(t: Tree, over: int, l: int, r: int, low: int) {
    && 4 <= t.max && t.g.Keys == t.pages.Keys && t.root in t.pages && NO_PAGE !in t.pages
    && (l == NO_PAGE <==> r == NO_PAGE) && (r != NO_PAGE ==> l in t.pages && r in t.pages && l != r && r != t.root)
    && RootHighest(t.g, t.root)
    && AllNodesOk(t.pages, t.g, t.max, t.zero, over)
    && AllSizesOk(t.pages, t.root, t.max)
    && AllKidsOk(t.pages, t.g, l, r, low)
    && AllUpOk(t.pages, t.g, t.root, l, r)
  }

  ghost predicate Settled(t: Tree) { TreeOk(t, NO_PAGE, NO_PAGE, NO_PAGE, NO_PAGE) }

  /** What the tree says of one page. */
  lemma OkAt(t: Tree, over: int, l: int, r: int, low: int, x: int)
    requires TreeOk(t, over, l, r, low) && x in t.pages
    ensures x in t.g && NodeOk(t.pages[x], t.g[x], t.max, t.zero, if x == over then t.max else t.max - 1)
    ensures SizeOk(t.pages[x], x == t.root, t.max) && UpOk(t.pages, t.g, t.root, l, r, x)
  {
  }

  /** What the tree says of one slot of an inner page. */
  lemma KidAt(t: Tree, over: int, l: int, r: int, low: int, x: int, i: int)
    requires TreeOk(t, over, l, r, low) && x in t.pages && !t.pages[x].isLeaf && 0 <= i < t.pages[x].num
    ensures x in t.g && |t.pages[x].keys| == |t.pages[x].rids| && t.pages[x].num <= |t.pages[x].keys|
    ensures KidOk(t.pages, t.g, x, i, l, r, low)
  {
    assert NodeOk(t.pages[x], t.g[x], t.max, t.zero, if x == over then t.max else t.max - 1);
    assert KidsOk(t.pages, t.g, x, l, r, low);
  }

  lemma AddSlots(n: Node, pos: nat, k: Key, r: Rid, m: Node, i: nat)
    requires PairAdded(n, pos, k, r, m) && i < m.num
    ensures m.keys[i] == if i < pos then n.keys[i] else if i == pos then k else n.keys[i-1]
  {
  }

  lemma AddAscends(n: Node, x: Info, max: nat, zero: Key, pos: nat, k: Key, r: Rid, m: Node, i: nat, j: nat)
    requires NodeOk(n, x, max, zero, max - 1) && PairAdded(n, pos, k, r, m) && i < j < m.num
    requires 0 < pos ==> n.keys[pos-1] < k
    requires pos < n.num ==> k < n.keys[pos]
    ensures m.keys[i] < m.keys[j]
  {
    AddSlots(n, pos, k, r, m, i);
    AddSlots(n, pos, k, r, m, j);
    hide PairAdded;
  }

  /** Adding a pair in key order keeps a page in order. */
  lemma NodeAddOk(n: Node, x: Info, max: nat, zero: Key, pos: nat, k: Key, r: Rid, m: Node)
    requires NodeOk(n, x, max, zero, max - 1) && PairAdded(n, pos, k, r, m) && Within(k, x)
    requires 0 < pos ==> n.keys[pos-1] < k
    requires pos < n.num ==> k < n.keys[pos]
    ensures NodeOk(m, x, max, zero, max)
  {
    forall i, j | 0 <= i < j < m.num ensures m.keys[i] < m.keys[j] { AddAscends(n, x, max, zero, pos, k, r, m, i, j); }
    forall i | 0 <= i < m.num ensures Within(m.keys[i], x) { AddSlots(n, pos, k, r, m, i); }
  }

  /** `t'` is `t` with page `y` replaced. */
  ghost predicate OnePage(t: Tree, y: int, t': Tree) {
    && y in t.pages && t'.pages.Keys == t.pages.Keys
    && (forall p :: p in t.pages && p != y ==> t'.pages[p] == t.pages[p])
    && t'.g == t.g && t'.root == t.root && t'.max == t.max && t'.zero == t.zero
  }

  // ---------- inserting into a leaf ----------

  lemma LeafAddKids(t: Tree, p: int, pos: nat, k: Key, r: Rid, t': Tree, y: int)
    requires Settled(t) && OnePage(t, p, t') && t.pages[p].isLeaf && Within(k, t.g[p])
    requires PairAdded(t.pages[p], pos, k, r, t'.pages[p])
    requires pos < t.pages[p].num ==> k < t.pages[p].keys[pos]
    requires y in t.pages && !t.pages[y].isLeaf
    ensures KidsOk(t'.pages, t.g, y, NO_PAGE, NO_PAGE, p)
  {
    assert KidsOk(t.pages, t.g, y, NO_PAGE, NO_PAGE, NO_PAGE);
    assert NodeOk(t.pages[y], t.g[y], t.max, t.zero, t.max - 1);
    forall i | 0 <= i < t.pages[y].num ensures KidOk(t'.pages, t.g, y, i, NO_PAGE, NO_PAGE, p) {
      assert KidOk(t.pages, t.g, y, i, NO_PAGE, NO_PAGE, NO_PAGE);
    }
  }

  lemma LeafAddNodes(t: Tree, p: int, pos: nat, k: Key, r: Rid, t': Tree)
    requires Settled(t) && OnePage(t, p, t') && t.pages[p].isLeaf && Within(k, t.g[p])
    requires PairAdded(t.pages[p], pos, k, r, t'.pages[p])
    requires 0 < pos ==> t.pages[p].keys[pos-1] < k
    requires pos < t.pages[p].num ==> k < t.pages[p].keys[pos]
    ensures AllNodesOk(t'.pages, t'.g, t.max, t.zero, p) && AllSizesOk(t'.pages, t.root, t.max)
  {
    NodeAddOk(t.pages[p], t.g[p], t.max, t.zero, pos, k, r, t'.pages[p]);
    forall q | q in t'.pages
      ensures NodeOk(t'.pages[q], t'.g[q], t.max, t.zero, if q == p then t.max else t.max - 1)
      ensures SizeOk(t'.pages[q], q == t.root, t.max)
    {
      assert NodeOk(t.pages[q], t.g[q], t.max, t.zero, t.max - 1) && SizeOk(t.pages[q], q == t.root, t.max);
    }
  }

  /** A leaf insertion leaves a tree in which that leaf may be full and may have a new first key. */
  lemma LeafAdd(t: Tree, p: int, pos: nat, k: Key, r: Rid, t': Tree)
    requires Settled(t) && OnePage(t, p, t') && t.pages[p].isLeaf && Within(k, t.g[p])
    requires PairAdded(t.pages[p], pos, k, r, t'.pages[p])
    requires 0 < pos ==> t.pages[p].keys[pos-1] < k
    requires pos < t.pages[p].num ==> k < t.pages[p].keys[pos]
    ensures TreeOk(t', p, NO_PAGE, NO_PAGE, p)
  {
    LeafAddNodes(t, p, pos, k, r, t');
    forall y | y in t'.pages && !t'.pages[y].isLeaf ensures KidsOk(t'.pages, t.g, y, NO_PAGE, NO_PAGE, p) {
      LeafAddKids(t, p, pos, k, r, t', y);
    }
    forall q | q in t'.pages ensures UpOk(t'.pages, t.g, t.root, NO_PAGE, NO_PAGE, q) {
      UpFrame(t, p, t', q);
    }
  }

  /** Replacing a page by one with the same parent link and at least the same child slots keeps the
      way up from every page. */
  lemma UpFrame(t: Tree, y: int, t': Tree, q: int)
    requires t.g.Keys == t.pages.Keys && OnePage(t, y, t') && q in t.pages
    requires t'.pages[y].parent == t.pages[y].parent && t'.pages[y].isLeaf == t.pages[y].isLeaf
    requires !t.pages[y].isLeaf ==> t'.pages[y].num == t.pages[y].num && t'.pages[y].rids == t.pages[y].rids
    requires UpOk(t.pages, t.g, t.root, NO_PAGE, NO_PAGE, q) && NO_PAGE !in t.pages
    ensures UpOk(t'.pages, t.g, t.root, NO_PAGE, NO_PAGE, q)
  {
    if q != t.root {
      var i :| IsKid(t.pages, t.pages[q].parent, i, q);
      assert IsKid(t'.pages, t.pages[q].parent, i, q);
    }
  }

  // ---------- telling the ancestors about a new first key ----------

  /** The slot of a page in its parent, as a search by page number finds it. */
  lemma SlotOfKid(t: Tree, over: int, low: int, c: int)
    requires TreeOk(t, over, NO_PAGE, NO_PAGE, low) && c in t.pages && c != t.root
    ensures var y := t.pages[c].parent;
            && y in t.pages && !t.pages[y].isLeaf && t.g[y].level == t.g[c].level + 1 && y != c
            && (exists i :: 0 <= i < t.pages[y].num && t.pages[y].rids[i].pageNo == c)
            && (forall i :: 0 <= i < t.pages[y].num && t.pages[y].rids[i].pageNo == c ==>
                  KidOk(t.pages, t.g, y, i, NO_PAGE, NO_PAGE, low))
  {
    assert UpOk(t.pages, t.g, t.root, NO_PAGE, NO_PAGE, c);
    var y := t.pages[c].parent;
    var i :| IsKid(t.pages, y, i, c);
    assert t.pages[y].rids[i].pageNo == c;
    assert KidsOk(t.pages, t.g, y, NO_PAGE, NO_PAGE, low) && KidOk(t.pages, t.g, y, i, NO_PAGE, NO_PAGE, low);
  }

  /** The parent's first slot, if it is the slot of `c`, records the first key of `c`. */
  ghost predicate FirstKeyTold(pages: Pages, c: int)
    requires c in pages
  {
    var y := pages[c].parent;
    y in pages && 0 < |pages[y].rids| && 0 < |pages[y].keys| && pages[y].rids[0].pageNo == c ==>
      0 < |pages[c].keys| && pages[y].keys[0] == pages[c].keys[0]
  }

  lemma LowResolved(t: Tree, over: int, c: int)
    requires TreeOk(t, over, NO_PAGE, NO_PAGE, c) && c in t.pages
    requires c == t.root || FirstKeyTold(t.pages, c)
    ensures TreeOk(t, over, NO_PAGE, NO_PAGE, NO_PAGE)
  {
    forall y | y in t.pages && !t.pages[y].isLeaf ensures KidsOk(t.pages, t.g, y, NO_PAGE, NO_PAGE, NO_PAGE) {
      assert KidsOk(t.pages, t.g, y, NO_PAGE, NO_PAGE, c);
      assert UpOk(t.pages, t.g, t.root, NO_PAGE, NO_PAGE, t.root);
      forall i | 0 <= i < t.pages[y].num ensures KidOk(t.pages, t.g, y, i, NO_PAGE, NO_PAGE, NO_PAGE) {
        assert KidOk(t.pages, t.g, y, i, NO_PAGE, NO_PAGE, c);
      }
    }
  }

  /** Copying the first key of `c` into its parent moves the disagreement one level up. */
  lemma RaiseLow(t: Tree, over: int, c: int, y: int, t': Tree)
    requires TreeOk(t, over, NO_PAGE, NO_PAGE, c) && c in t.pages && c != t.root && y == t.pages[c].parent
    requires y in t.pages && !t.pages[y].isLeaf && 0 < t.pages[y].num && t.pages[y].rids[0].pageNo == c
    requires OnePage(t, y, t') && t'.pages[y] == t.pages[y].(keys := t.pages[y].keys[0 := t.pages[c].keys[0]])
    ensures t.g.Keys == t.pages.Keys && t'.g.Keys == t'.pages.Keys
    ensures TreeOk(t', over, NO_PAGE, NO_PAGE, y)
  {
    RaiseNodes(t, over, c, y, t');
    hide NodeOk, KidsOk, SizeOk, AllNodesOk, AllSizesOk, RootHighest;
    assert AllKidsOk(t'.pages, t'.g, NO_PAGE, NO_PAGE, y) by {
      forall p | p in t'.pages && !t'.pages[p].isLeaf ensures KidsOk(t'.pages, t.g, p, NO_PAGE, NO_PAGE, y) {
        RaiseKids(t, over, c, y, t', p);
      }
    }
    forall q | q in t'.pages ensures UpOk(t'.pages, t.g, t.root, NO_PAGE, NO_PAGE, q) {
      UpFrame(t, y, t', q);
    }
  }

  lemma RaiseFacts(t: Tree, over: int, c: int, y: int, t': Tree)
    requires TreeOk(t, over, NO_PAGE, NO_PAGE, c) && c in t.pages && c != t.root && y == t.pages[c].parent
    requires y in t.pages && !t.pages[y].isLeaf && 0 < t.pages[y].num && t.pages[y].rids[0].pageNo == c
    requires OnePage(t, y, t') && t'.pages[y] == t.pages[y].(keys := t.pages[y].keys[0 := t.pages[c].keys[0]])
    ensures t.pages[c].keys[0] <= t.pages[y].keys[0] && y != c && AtLeast(t.pages[c].keys[0], t.g[y].lo)
    ensures NodeOk(t'.pages[y], t.g[y], t.max, t.zero, if y == over then t.max else t.max - 1)
    ensures SizeOk(t'.pages[y], y == t.root, t.max)
  {
    hide AllNodesOk, AllSizesOk, AllKidsOk, AllUpOk, RootHighest;
    SlotOfKid(t, over, c, c);
    KidAt(t, over, NO_PAGE, NO_PAGE, c, y, 0);
    OkAt(t, over, NO_PAGE, NO_PAGE, c, c);
    OkAt(t, over, NO_PAGE, NO_PAGE, c, y);
    assert Within(t.pages[c].keys[0], t.g[c]);
    var cap := if y == over then t.max else t.max - 1;
    RaiseNode(t.pages[y], t.g[y], t.max, t.zero, cap, t.pages[c].keys[0], t'.pages[y]);
  }

  lemma RaiseNodes(t: Tree, over: int, c: int, y: int, t': Tree)
    requires TreeOk(t, over, NO_PAGE, NO_PAGE, c) && c in t.pages && c != t.root && y == t.pages[c].parent
    requires y in t.pages && !t.pages[y].isLeaf && 0 < t.pages[y].num && t.pages[y].rids[0].pageNo == c
    requires OnePage(t, y, t') && t'.pages[y] == t.pages[y].(keys := t.pages[y].keys[0 := t.pages[c].keys[0]])
    ensures t.pages[c].keys[0] <= t.pages[y].keys[0] && y != c && AtLeast(t.pages[c].keys[0], t.g[y].lo)
    ensures AllNodesOk(t'.pages, t'.g, t.max, t.zero, over) && AllSizesOk(t'.pages, t.root, t.max)
    ensures forall p :: p in t'.pages ==>
              |t'.pages[p].keys| == |t'.pages[p].rids| && t'.pages[p].num <= |t'.pages[p].keys|
  {
    hide AllKidsOk, AllUpOk, RootHighest;
    RaiseFacts(t, over, c, y, t');
  }

  lemma RaiseNode(n: Node, x: Info, max: nat, zero: Key, cap: int, k: Key, m: Node)
    requires NodeOk(n, x, max, zero, cap) && 0 < n.num && k <= n.keys[0] && AtLeast(k, x.lo)
    requires m == n.(keys := n.keys[0 := k])
    ensures NodeOk(m, x, max, zero, cap)
  {
    assert Within(n.keys[0], x);
  }

  lemma RaiseKids(t: Tree, over: int, c: int, y: int, t': Tree, p: int)
    requires TreeOk(t, over, NO_PAGE, NO_PAGE, c) && c in t.pages && c != t.root && y == t.pages[c].parent
    requires y in t.pages && !t.pages[y].isLeaf && 0 < t.pages[y].num && t.pages[y].rids[0].pageNo == c
    requires OnePage(t, y, t') && t'.pages[y] == t.pages[y].(keys := t.pages[y].keys[0 := t.pages[c].keys[0]])
    requires p in t.pages && !t.pages[p].isLeaf && t.pages[c].keys[0] <= t.pages[y].keys[0] && y != c
    requires AtLeast(t.pages[c].keys[0], t.g[y].lo)
    ensures KidsOk(t'.pages, t.g, p, NO_PAGE, NO_PAGE, y)
  {
    hide AllNodesOk, AllSizesOk, AllKidsOk, AllUpOk, RootHighest;
    OkAt(t, over, NO_PAGE, NO_PAGE, c, p);
    OkAt(t, over, NO_PAGE, NO_PAGE, c, y);
    forall i | 0 <= i < t.pages[p].num ensures KidOk(t'.pages, t.g, p, i, NO_PAGE, NO_PAGE, y) {
      KidAt(t, over, NO_PAGE, NO_PAGE, c, p, i);
    }
  }

  // ---------- entering a new right sibling in its parent ----------

  ghost predicate EnterReady(t: Tree, l: int, r: int, y: int, i: nat) {
    && TreeOk(t, NO_PAGE, l, r, NO_PAGE) && r != NO_PAGE && l != t.root
    && y == t.pages[l].parent && y in t.pages && !t.pages[y].isLeaf && i < t.pages[y].num
    && t.pages[y].rids[i].pageNo == l
    && t.pages[y].keys[i] < t.pages[r].keys[0]
    && (i + 1 < t.pages[y].num ==> t.pages[r].keys[0] < t.pages[y].keys[i+1])
    && Within(t.pages[r].keys[0], t.g[y])
  }

  /** Where the split page sits in its parent, and where the new separator goes. */
  lemma SeparatorSlot(t: Tree, l: int, r: int) returns (i: nat)
    requires TreeOk(t, NO_PAGE, l, r, NO_PAGE)
    requires r != NO_PAGE && l != t.root
    ensures EnterReady(t, l, r, t.pages[l].parent, i)
    ensures var n := t.pages[t.pages[l].parent]; LowerBound(n.keys[..n.num], t.pages[r].keys[0]) == i + 1
    ensures t.pages[r].parent == t.pages[l].parent && t.g[t.pages[l].parent].level == t.g[l].level + 1
  {
    hide AllNodesOk, AllSizesOk, AllKidsOk, AllUpOk, RootHighest;
    OkAt(t, NO_PAGE, l, r, NO_PAGE, l);
    OkAt(t, NO_PAGE, l, r, NO_PAGE, r);
    var y := t.pages[l].parent;
    i :| IsKid(t.pages, y, i, l);
    KidAt(t, NO_PAGE, l, r, NO_PAGE, y, i);
    OkAt(t, NO_PAGE, l, r, NO_PAGE, y);
    var sep := t.pages[r].keys[0];
    assert Within(t.pages[l].keys[0], t.g[l]) && Within(sep, t.g[r]);
    assert i + 1 < t.pages[y].num ==> Within(t.pages[y].keys[i+1], t.g[y]);
    assert Within(t.pages[y].keys[i], t.g[y]);
    LowerBoundUnique(t.pages[y].keys[..t.pages[y].num], sep, i + 1);
  }

  /** Parent page `y` with the new sibling `r` entered after slot `i`. */
  ghost predicate Entered(t: Tree, y: int, i: nat, r: int, t': Tree) {
    && OnePage(t, y, t') && r in t.pages && 0 < |t.pages[r].keys|
    && PairAdded(t.pages[y], i + 1, t.pages[r].keys[0], Rid(r, -1), t'.pages[y])
  }

  lemma EnterNode(t: Tree, l: int, r: int, y: int, i: nat, t': Tree)
    requires EnterReady(t, l, r, y, i) && Entered(t, y, i, r, t')
    ensures NodeOk(t'.pages[y], t.g[y], t.max, t.zero, t.max) && SizeOk(t'.pages[y], y == t.root, t.max)
  {
    NodeAddOk(t.pages[y], t.g[y], t.max, t.zero, i + 1, t.pages[r].keys[0], Rid(r, -1), t'.pages[y]);
  }

  lemma EnterKid(t: Tree, l: int, r: int, y: int, i: nat, t': Tree, j: nat)
    requires EnterReady(t, l, r, y, i) && Entered(t, y, i, r, t') && j < t'.pages[y].num
    ensures KidOk(t'.pages, t.g, y, j, NO_PAGE, NO_PAGE, NO_PAGE)
  {
    hide AllNodesOk, AllSizesOk, AllKidsOk, AllUpOk, RootHighest;
    OkAt(t, NO_PAGE, l, r, NO_PAGE, y);
    OkAt(t, NO_PAGE, l, r, NO_PAGE, r);
    KidAt(t, NO_PAGE, l, r, NO_PAGE, y, i);
    if j <= i {
      KidAt(t, NO_PAGE, l, r, NO_PAGE, y, j);
    } else if j > i + 1 {
      KidAt(t, NO_PAGE, l, r, NO_PAGE, y, j - 1);
    }
  }

  lemma EnterKids(t: Tree, l: int, r: int, y: int, i: nat, t': Tree)
    requires EnterReady(t, l, r, y, i) && Entered(t, y, i, r, t')
    ensures KidsOk(t'.pages, t.g, y, NO_PAGE, NO_PAGE, NO_PAGE)
  {
    hide AllNodesOk, AllSizesOk, AllKidsOk, AllUpOk, RootHighest;
    hide KidOk;
    OkAt(t, NO_PAGE, l, r, NO_PAGE, y);
    forall j | 0 <= j < t'.pages[y].num ensures KidOk(t'.pages, t.g, y, j, NO_PAGE, NO_PAGE, NO_PAGE) {
      EnterKid(t, l, r, y, i, t', j);
    }
  }

  lemma EnterOtherKids(t: Tree, l: int, r: int, y: int, i: nat, t': Tree, p: int)
    requires EnterReady(t, l, r, y, i) && Entered(t, y, i, r, t')
    requires p in t.pages && p != y && !t.pages[p].isLeaf
    ensures KidsOk(t'.pages, t.g, p, NO_PAGE, NO_PAGE, NO_PAGE)
  {
    assert KidsOk(t.pages, t.g, p, l, r, NO_PAGE);
    forall j | 0 <= j < t.pages[p].num ensures KidOk(t'.pages, t.g, p, j, NO_PAGE, NO_PAGE, NO_PAGE) {
      assert KidOk(t.pages, t.g, p, j, l, r, NO_PAGE);
    }
  }

  lemma EnterUp(t: Tree, l: int, r: int, y: int, i: nat, t': Tree, p: int)
    requires EnterReady(t, l, r, y, i) && Entered(t, y, i, r, t')
    requires p in t.pages
    ensures UpOk(t'.pages, t.g, t.root, NO_PAGE, NO_PAGE, p)
  {
    assert UpOk(t.pages, t.g, t.root, l, r, p) && UpOk(t.pages, t.g, t.root, l, r, r);
    if p == r {
      assert IsKid(t'.pages, y, i + 1, r);
    } else if p != t.root {
      var j :| IsKid(t.pages, t.pages[p].parent, j, p);
      if t.pages[p].parent == y && j > i {
        assert IsKid(t'.pages, y, j + 1, p);
      } else {
        assert IsKid(t'.pages, t.pages[p].parent, j, p);
      }
    }
  }

  /** Entering the new sibling completes the split; the parent may now be full. */
  lemma EnterSibling(t: Tree, l: int, r: int, y: int, i: nat, t': Tree)
    requires EnterReady(t, l, r, y, i) && Entered(t, y, i, r, t')
    ensures TreeOk(t', y, NO_PAGE, NO_PAGE, NO_PAGE)
  {
    EnterNode(t, l, r, y, i, t');
    assert AllNodesOk(t'.pages, t'.g, t.max, t.zero, y) && AllSizesOk(t'.pages, t.root, t.max);
    forall p | p in t'.pages && !t'.pages[p].isLeaf ensures KidsOk(t'.pages, t.g, p, NO_PAGE, NO_PAGE, NO_PAGE) {
      if p == y {
        EnterKids(t, l, r, y, i, t');
      } else {
        EnterOtherKids(t, l, r, y, i, t', p);
      }
    }
    forall p | p in t'.pages ensures UpOk(t'.pages, t.g, t.root, NO_PAGE, NO_PAGE, p) {
      EnterUp(t, l, r, y, i, t', p);
    }
  }

  // ---------- growing a new root ----------

  /** Pages `l` and `r` under the new root page `q`. */
  ghost predicate Rooted(t: Tree, l: int, r: int, q: int, t': Tree) {
    && l in t.pages && r in t.pages && l in t.g && q !in t.pages && q != NO_PAGE && l != r
    && t'.pages.Keys == t.pages.Keys + {q} && t'.root == q && t'.max == t.max && t'.zero == t.zero
    && (forall p :: p in t.pages ==> t'.pages[p] == if p == l || p == r then t.pages[p].(parent := q) else t.pages[p])
    && t'.g == t.g[q := Info(t.g[l].level + 1, NegInf, PosInf)]
    && var m := t'.pages[q];
    && Shaped(m, t.max) && m.num == 2 <= t.max && m.parent == NO_PAGE && !m.isLeaf
    && m.rids[0].pageNo == l && m.rids[1].pageNo == r
    && 0 < |t.pages[l].keys| && 0 < |t.pages[r].keys|
    && m.keys[0] == t.pages[l].keys[0] && m.keys[1] == t.pages[r].keys[0]
    && (forall i :: 2 <= i < t.max ==> m.keys[i] == t.zero)
  }

  lemma RootNode(t: Tree, l: int, r: int, q: int, t': Tree)
    requires TreeOk(t, NO_PAGE, l, r, NO_PAGE) && l == t.root && r != NO_PAGE && Rooted(t, l, r, q, t')
    requires t.max / 2 <= t.pages[l].num
    ensures NodeOk(t'.pages[q], t'.g[q], t.max, t.zero, t.max - 1)
    ensures KidsOk(t'.pages, t'.g, q, NO_PAGE, NO_PAGE, NO_PAGE)
  {
    hide AllNodesOk, AllSizesOk, AllKidsOk, AllUpOk, RootHighest;
    OkAt(t, NO_PAGE, l, r, NO_PAGE, l);
    OkAt(t, NO_PAGE, l, r, NO_PAGE, r);
    assert Within(t.pages[l].keys[0], t.g[l]);
  }

  lemma RootOtherKids(t: Tree, l: int, r: int, q: int, t': Tree, p: int)
    requires TreeOk(t, NO_PAGE, l, r, NO_PAGE) && l == t.root && r != NO_PAGE && Rooted(t, l, r, q, t')
    requires p in t.pages && !t.pages[p].isLeaf
    ensures KidsOk(t'.pages, t'.g, p, NO_PAGE, NO_PAGE, NO_PAGE)
  {
    hide AllNodesOk, AllSizesOk, AllKidsOk, AllUpOk, RootHighest;
    OkAt(t, NO_PAGE, l, r, NO_PAGE, p);
    OkAt(t, NO_PAGE, l, r, NO_PAGE, l);
    OkAt(t, NO_PAGE, l, r, NO_PAGE, r);
    forall j | 0 <= j < t.pages[p].num ensures KidOk(t'.pages, t'.g, p, j, NO_PAGE, NO_PAGE, NO_PAGE) {
      KidAt(t, NO_PAGE, l, r, NO_PAGE, p, j);
    }
  }

  lemma RootUp(t: Tree, l: int, r: int, q: int, t': Tree, p: int)
    requires TreeOk(t, NO_PAGE, l, r, NO_PAGE) && l == t.root && r != NO_PAGE && Rooted(t, l, r, q, t')
    requires p in t'.pages
    ensures UpOk(t'.pages, t'.g, q, NO_PAGE, NO_PAGE, p)
  {
    hide AllNodesOk, AllSizesOk, AllKidsOk, AllUpOk, RootHighest;
    if p == l {
      assert IsKid(t'.pages, q, 0, l);
    } else if p == r {
      assert IsKid(t'.pages, q, 1, r);
    } else if p != q {
      OkAt(t, NO_PAGE, l, r, NO_PAGE, p);
      var j :| IsKid(t.pages, t.pages[p].parent, j, p);
      assert IsKid(t'.pages, t.pages[p].parent, j, p);
    }
  }

  /** A new root over the two halves of the old one. */
  lemma GrowRoot(t: Tree, l: int, r: int, q: int, t': Tree)
    requires TreeOk(t, NO_PAGE, l, r, NO_PAGE) && l == t.root && r != NO_PAGE && Rooted(t, l, r, q, t')
    requires t.max / 2 <= t.pages[l].num
    ensures Settled(t')
  {
    RootNodes(t, l, r, q, t');
    RootedKeys(t, l, r, q, t');
    assert RootHighest(t'.g, q);
    hide NodeOk, KidsOk, UpOk, SizeOk, AllNodesOk, AllSizesOk, RootHighest, Rooted;
    assert AllKidsOk(t'.pages, t'.g, NO_PAGE, NO_PAGE, NO_PAGE) by {
      NodesShaped(t');
      forall p | p in t'.pages && !t'.pages[p].isLeaf ensures KidsOk(t'.pages, t'.g, p, NO_PAGE, NO_PAGE, NO_PAGE) {
        RootKids(t, l, r, q, t', p);
      }
    }
    forall p | p in t'.pages ensures UpOk(t'.pages, t'.g, q, NO_PAGE, NO_PAGE, p) {
      RootUp(t, l, r, q, t', p);
    }
  }

  lemma RootKids(t: Tree, l: int, r: int, q: int, t': Tree, p: int)
    requires TreeOk(t, NO_PAGE, l, r, NO_PAGE) && l == t.root && r != NO_PAGE && Rooted(t, l, r, q, t')
    requires t.max / 2 <= t.pages[l].num && p in t'.pages && !t'.pages[p].isLeaf
    ensures p in t'.g && |t'.pages[p].keys| == |t'.pages[p].rids| && t'.pages[p].num <= |t'.pages[p].keys|
    ensures KidsOk(t'.pages, t'.g, p, NO_PAGE, NO_PAGE, NO_PAGE)
  {
    hide KidsOk, AllKidsOk, AllUpOk, AllSizesOk, RootHighest;
    if p == q {
      RootNode(t, l, r, q, t');
    } else {
      assert NodeOk(t.pages[p], t.g[p], t.max, t.zero, t.max - 1);
      RootOtherKids(t, l, r, q, t', p);
    }
  }

  lemma RootNodeAt(t: Tree, l: int, r: int, q: int, t': Tree, p: int)
    requires TreeOk(t, NO_PAGE, l, r, NO_PAGE) && l == t.root && r != NO_PAGE && Rooted(t, l, r, q, t')
    requires t.max / 2 <= t.pages[l].num && p in t.pages
    ensures p in t'.g && NodeOk(t'.pages[p], t'.g[p], t.max, t.zero, t.max - 1) && SizeOk(t'.pages[p], false, t.max)
  {
    hide AllNodesOk, AllSizesOk, AllKidsOk, AllUpOk, RootHighest;
    OkAt(t, NO_PAGE, l, r, NO_PAGE, p);
    assert t'.pages[p] == t.pages[p].(parent := t'.pages[p].parent) && t'.g[p] == t.g[p];
  }

  lemma RootedKeys(t: Tree, l: int, r: int, q: int, t': Tree)
    requires TreeOk(t, NO_PAGE, l, r, NO_PAGE) && Rooted(t, l, r, q, t')
    ensures t'.g.Keys == t'.pages.Keys == t.pages.Keys + {q} && NO_PAGE !in t'.pages && SizeOk(t'.pages[q], true, t.max)
  {
  }

  lemma RootNodes(t: Tree, l: int, r: int, q: int, t': Tree)
    requires TreeOk(t, NO_PAGE, l, r, NO_PAGE) && l == t.root && r != NO_PAGE && Rooted(t, l, r, q, t')
    requires t.max / 2 <= t.pages[l].num
    ensures t'.g.Keys == t'.pages.Keys && AllNodesOk(t'.pages, t'.g, t.max, t.zero, NO_PAGE)
            && AllSizesOk(t'.pages, q, t.max)
  {
    hide TreeOk, Rooted, NodeOk, SizeOk, KidsOk;
    RootedKeys(t, l, r, q, t');
    RootNode(t, l, r, q, t');
    forall p | p in t'.pages
      ensures NodeOk(t'.pages[p], t'.g[p], t.max, t.zero, if p == NO_PAGE then t.max else t.max - 1)
              && SizeOk(t'.pages[p], p == q, t.max)
    {
      if p != q { RootNodeAt(t, l, r, q, t', p); }
    }
  }

  // ---------- splitting a full page ----------

  ghost predicate RightKid(n: Node, mid: int, x: int) {
    !n.isLeaf && 0 <= mid && n.num <= |n.rids| && exists j :: mid <= j < n.num && n.rids[j].pageNo == x
  }

  /** The upper half of the full page `p` moved to the new page `q`, with the children that moved
      along pointing to `q`. */
  ghost predicate SplitTo(t: Tree, p: int, q: int, t': Tree) {
    && p in t.pages && p in t.g && q !in t.pages && q != NO_PAGE
    && Shaped(t.pages[p], t.max) && t.pages[p].num == t.max && 4 <= t.max
    && t'.pages.Keys == t.pages.Keys + {q} && t'.root == t.root && t'.max == t.max && t'.zero == t.zero
    && var n := t.pages[p]; var mid := t.max / 2;
    && var l := t'.pages[p]; var r := t'.pages[q];
    && l.parent == n.parent && l.isLeaf == n.isLeaf && l.num == mid && l.keys == n.keys && l.rids == n.rids
    && Shaped(r, t.max) && r.parent == n.parent && r.isLeaf == n.isLeaf && r.num == t.max - mid
    && (forall j :: 0 <= j < r.num ==> r.keys[j] == n.keys[mid + j] && r.rids[j] == n.rids[mid + j])
    && (forall j :: r.num <= j < t.max ==> r.keys[j] == t.zero)
    && (forall x :: x in t.pages && x != p ==>
          t'.pages[x] == if RightKid(n, mid, x) then t.pages[x].(parent := q) else t.pages[x])
    && t'.g == t.g[p := t.g[p].(hi := At(n.keys[mid]))][q := t.g[p].(lo := At(n.keys[mid]))]
  }

  lemma SplitLeftNode(n: Node, x: Info, max: nat, zero: Key, m: Node)
    requires NodeOk(n, x, max, zero, max) && n.num == max && 4 <= max
    requires m.isLeaf == n.isLeaf && m.num == max / 2 && m.keys == n.keys && m.rids == n.rids
    ensures NodeOk(m, x.(hi := At(n.keys[max / 2])), max, zero, max - 1)
  {
  }

  lemma SplitRightNode(n: Node, x: Info, max: nat, zero: Key, m: Node)
    requires NodeOk(n, x, max, zero, max) && n.num == max && 4 <= max
    requires Shaped(m, max) && m.isLeaf == n.isLeaf && m.num == max - max / 2
    requires forall j :: 0 <= j < m.num ==> m.keys[j] == n.keys[max / 2 + j]
    requires forall j :: m.num <= j < max ==> m.keys[j] == zero
    ensures NodeOk(m, x.(lo := At(n.keys[max / 2])), max, zero, max - 1)
  {
  }

  lemma SplitHalves(t: Tree, p: int, q: int, t': Tree, x: int)
    requires SplitTo(t, p, q, t') && NodeOk(t.pages[p], t.g[p], t.max, t.zero, t.max) && (x == p || x == q)
    ensures NodeOk(t'.pages[x], t'.g[x], t.max, t.zero, t.max - 1) && t.max / 2 <= t'.pages[x].num && 2 <= t.max / 2
  {
    if x == p {
      SplitLeftNode(t.pages[p], t.g[p], t.max, t.zero, t'.pages[p]);
    } else {
      SplitRightNode(t.pages[p], t.g[p], t.max, t.zero, t'.pages[q]);
    }
  }

  lemma SplitOtherNode(t: Tree, p: int, q: int, t': Tree, x: int)
    requires TreeOk(t, p, NO_PAGE, NO_PAGE, NO_PAGE) && SplitTo(t, p, q, t') && x in t.pages && x != p
    ensures NodeOk(t'.pages[x], t'.g[x], t.max, t.zero, t.max - 1) && SizeOk(t'.pages[x], x == t.root, t.max)
  {
    hide AllNodesOk, AllSizesOk, AllKidsOk, AllUpOk, RootHighest;
    OkAt(t, p, NO_PAGE, NO_PAGE, NO_PAGE, x);
    assert t'.pages[x] == t.pages[x].(parent := t'.pages[x].parent) && t'.g[x] == t.g[x];
  }

  lemma SplitNodes(t: Tree, p: int, q: int, t': Tree)
    requires TreeOk(t, p, NO_PAGE, NO_PAGE, NO_PAGE) && SplitTo(t, p, q, t')
    ensures AllNodesOk(t'.pages, t'.g, t.max, t.zero, NO_PAGE) && AllSizesOk(t'.pages, t.root, t.max)
  {
    assert NodeOk(t.pages[p], t.g[p], t.max, t.zero, t.max);
    forall x | x in t'.pages
      ensures NodeOk(t'.pages[x], t'.g[x], t.max, t.zero, if x == NO_PAGE then t.max else t.max - 1)
              && SizeOk(t'.pages[x], x == t.root, t.max)
    {
      if x != p && x != q {
        SplitOtherNode(t, p, q, t', x);
      } else {
        SplitHalves(t, p, q, t', x);
      }
    }
  }

  lemma SplitLeftKids(t: Tree, p: int, q: int, t': Tree)
    requires TreeOk(t, p, NO_PAGE, NO_PAGE, NO_PAGE) && SplitTo(t, p, q, t') && !t.pages[p].isLeaf
    ensures KidsOk(t'.pages, t'.g, p, p, q, NO_PAGE)
  {
    hide AllNodesOk, AllSizesOk, AllKidsOk, AllUpOk, RootHighest;
    OkAt(t, p, NO_PAGE, NO_PAGE, NO_PAGE, p);
    forall j | 0 <= j < t'.pages[p].num ensures KidOk(t'.pages, t'.g, p, j, p, q, NO_PAGE) {
      KidAt(t, p, NO_PAGE, NO_PAGE, NO_PAGE, p, j);
      KidSlotUnique(t, p, p, j);
    }
  }

  /** No page is the child of two slots. */
  lemma KidSlotUnique(t: Tree, over: int, p: int, j: int)
    requires TreeOk(t, over, NO_PAGE, NO_PAGE, NO_PAGE) && p in t.pages && !t.pages[p].isLeaf && 0 <= j < t.pages[p].num
    ensures forall i :: 0 <= i < t.pages[p].num && t.pages[p].rids[i].pageNo == t.pages[p].rids[j].pageNo ==> i == j
  {
    assert KidsOk(t.pages, t.g, p, NO_PAGE, NO_PAGE, NO_PAGE);
    assert NodeOk(t.pages[p], t.g[p], t.max, t.zero, if p == over then t.max else t.max - 1);
    assert KidOk(t.pages, t.g, p, j, NO_PAGE, NO_PAGE, NO_PAGE);
    forall i | 0 <= i < t.pages[p].num && t.pages[p].rids[i].pageNo == t.pages[p].rids[j].pageNo ensures i == j {
      assert KidOk(t.pages, t.g, p, i, NO_PAGE, NO_PAGE, NO_PAGE);
    }
  }

  lemma SplitRightKids(t: Tree, p: int, q: int, t': Tree)
    requires TreeOk(t, p, NO_PAGE, NO_PAGE, NO_PAGE) && SplitTo(t, p, q, t') && !t.pages[p].isLeaf
    ensures KidsOk(t'.pages, t'.g, q, p, q, NO_PAGE)
  {
    hide AllNodesOk, AllSizesOk, AllKidsOk, AllUpOk, RootHighest;
    OkAt(t, p, NO_PAGE, NO_PAGE, NO_PAGE, p);
    forall j | 0 <= j < t'.pages[q].num ensures KidOk(t'.pages, t'.g, q, j, p, q, NO_PAGE) {
      KidAt(t, p, NO_PAGE, NO_PAGE, NO_PAGE, p, t.max / 2 + j);
      assert t.pages[p].rids[t.max / 2 + j].pageNo == t'.pages[q].rids[j].pageNo;
    }
  }

  lemma SplitOtherKids(t: Tree, p: int, q: int, t': Tree, x: int)
    requires TreeOk(t, p, NO_PAGE, NO_PAGE, NO_PAGE) && SplitTo(t, p, q, t')
    requires x in t.pages && x != p && !t.pages[x].isLeaf
    ensures KidsOk(t'.pages, t'.g, x, p, q, NO_PAGE)
  {
    hide AllNodesOk, AllSizesOk, AllKidsOk, AllUpOk, RootHighest;
    OkAt(t, p, NO_PAGE, NO_PAGE, NO_PAGE, x);
    forall j | 0 <= j < t.pages[x].num ensures KidOk(t'.pages, t'.g, x, j, p, q, NO_PAGE) {
      KidAt(t, p, NO_PAGE, NO_PAGE, NO_PAGE, x, j);
      if RightKid(t.pages[p], t.max / 2, t.pages[x].rids[j].pageNo) {
        RightKidParent(t, p, t.pages[x].rids[j].pageNo);
      }
    }
  }

  lemma RightKidParent(t: Tree, p: int, c: int)
    requires TreeOk(t, p, NO_PAGE, NO_PAGE, NO_PAGE) && p in t.pages && RightKid(t.pages[p], t.max / 2, c)
    ensures c in t.pages && t.pages[c].parent == p && c != p && c != t.root && t.g[c].level + 1 == t.g[p].level
  {
    assert KidsOk(t.pages, t.g, p, NO_PAGE, NO_PAGE, NO_PAGE);
    var j :| t.max / 2 <= j < t.pages[p].num && t.pages[p].rids[j].pageNo == c;
    assert KidOk(t.pages, t.g, p, j, NO_PAGE, NO_PAGE, NO_PAGE);
    assert UpOk(t.pages, t.g, t.root, NO_PAGE, NO_PAGE, t.root);
  }

  lemma SplitUpKept(t: Tree, p: int, q: int, t': Tree, x: int)
    requires TreeOk(t, p, NO_PAGE, NO_PAGE, NO_PAGE) && SplitTo(t, p, q, t')
    requires x in t.pages && x != t.root
    ensures exists i :: IsKid(t'.pages, t'.pages[x].parent, i, x)
  {
    hide AllNodesOk, AllSizesOk, AllKidsOk, AllUpOk, RootHighest;
    var n, mid, y := t.pages[p], t.max / 2, t.pages[x].parent;
    OkAt(t, p, NO_PAGE, NO_PAGE, NO_PAGE, x);
    var i :| IsKid(t.pages, y, i, x);
    KidAt(t, p, NO_PAGE, NO_PAGE, NO_PAGE, y, i);
    if RightKid(n, mid, x) {
      RightKidParent(t, p, x);
      KidSlotUnique(t, p, p, i);
      assert IsKid(t'.pages, q, i - mid, x);
    } else {
      assert IsKid(t'.pages, y, i, x);
    }
  }

  lemma SplitUp(t: Tree, p: int, q: int, t': Tree, x: int)
    requires TreeOk(t, p, NO_PAGE, NO_PAGE, NO_PAGE) && SplitTo(t, p, q, t') && x in t'.pages
    ensures UpOk(t'.pages, t'.g, t.root, p, q, x)
  {
    hide AllNodesOk, AllSizesOk, AllKidsOk, AllUpOk, RootHighest;
    if x == t.root {
      OkAt(t, p, NO_PAGE, NO_PAGE, NO_PAGE, x);
      if RightKid(t.pages[p], t.max / 2, x) {
        RightKidParent(t, p, x);
      }
    } else if x != q {
      SplitUpKept(t, p, q, t', x);
    }
  }

  lemma SplitKids(t: Tree, p: int, q: int, t': Tree, x: int)
    requires TreeOk(t, p, NO_PAGE, NO_PAGE, NO_PAGE) && SplitTo(t, p, q, t') && x in t'.pages && !t'.pages[x].isLeaf
    ensures KidsOk(t'.pages, t'.g, x, p, q, NO_PAGE)
  {
    hide AllNodesOk, AllSizesOk, AllKidsOk, AllUpOk, RootHighest;
    hide KidsOk;
    if x == p {
      SplitLeftKids(t, p, q, t');
    } else if x == q {
      SplitRightKids(t, p, q, t');
    } else {
      SplitOtherKids(t, p, q, t', x);
    }
  }

  /** A split leaves a tree in which only the parent has yet to learn of the new page. */
  lemma SplitPage(t: Tree, p: int, q: int, t': Tree)
    requires TreeOk(t, p, NO_PAGE, NO_PAGE, NO_PAGE) && SplitTo(t, p, q, t')
    ensures TreeOk(t', NO_PAGE, p, q, NO_PAGE)
  {
    hide NodeOk, KidsOk, UpOk, SizeOk, AllNodesOk, AllSizesOk, RootHighest, SplitTo;
    SplitRoot(t, p, q, t');
    SplitNodes(t, p, q, t');
    assert AllKidsOk(t'.pages, t'.g, p, q, NO_PAGE) by {
      NodesShaped(t');
      forall x | x in t'.pages && !t'.pages[x].isLeaf ensures KidsOk(t'.pages, t'.g, x, p, q, NO_PAGE) {
        SplitKids(t, p, q, t', x);
      }
    }
    forall x | x in t'.pages ensures UpOk(t'.pages, t'.g, t.root, p, q, x) {
      SplitUp(t, p, q, t', x);
    }
  }

  lemma SplitRoot(t: Tree, p: int, q: int, t': Tree)
    requires TreeOk(t, p, NO_PAGE, NO_PAGE, NO_PAGE) && SplitTo(t, p, q, t')
    ensures t'.g.Keys == t'.pages.Keys && t'.root in t'.g && RootHighest(t'.g, t'.root)
    ensures 4 <= t'.max == t.max && t'.root == t.root && t'.zero == t.zero && NO_PAGE !in t'.pages
    ensures p in t'.pages && q in t'.pages && p != q && q != t.root && p != NO_PAGE && q != NO_PAGE
  {
    hide AllNodesOk, AllSizesOk, AllKidsOk, AllUpOk, RightKid;
  }

  lemma NodesShaped(t: Tree)
    requires t.g.Keys == t.pages.Keys && AllNodesOk(t.pages, t.g, t.max, t.zero, NO_PAGE)
    ensures forall p :: p in t.pages ==> |t.pages[p].keys| == |t.pages[p].rids| && t.pages[p].num <= |t.pages[p].keys|
  {
  }
}
