/** The index: an object over node pages whose operations search and insert. */
module IxIndex {
  import opened Wrappers
  import opened IxNode
  import opened IxTree
  import opened IxLeaves
  import opened IxClash

  /** The map after one insertion: the first entry for a key stays. */
  function FirstWins(m: map<Key, Rid>, k: Key, r: Rid): map<Key, Rid> {
    if k in m then m else m[k := r]
  }

  /** Some stored key is no longer found by a search. */
  ghost predicate Lost(pages: Pages, root: int, height: nat, m: map<Key, Rid>) {
    exists z :: z in m && Find(pages, root, z, height) == None
  }

  /** The keys of `m` are the upper half of those of the full page `n`. */
  ghost predicate UpperHalf(n: Node, m: Node) {
    && m.num == |n.keys| - |n.keys| / 2 && m.num <= |m.keys|
    && forall j :: 0 <= j < m.num ==> m.keys[j] == n.keys[|n.keys| / 2 + j]
  }

  ghost predicate NumberedBelow(pages: Pages, n: int) {
    LEAF_HEADER_PAGE < n && forall p :: p in pages ==> 0 <= p < n
  }

  /** Pages with the first `n` children in `rids` pointing up to `q`. */
  function SetParents(pages: Pages, rids: seq<Rid>, n: nat, q: int): (r: Pages)
    requires n <= |rids|
    ensures r.Keys == pages.Keys
  {
    map x | x in pages :: if exists j :: 0 <= j < n && rids[j].pageNo == x then pages[x].(parent := q) else pages[x]
  }

  /** The child page of an inner node for a key. */
  method InternalLookup(n: Node, k: Key) returns (c: int)
    requires Descends(n, k)
    ensures c == ChildFor(n, k)
  {
    var i := UpperBoundLinear(n, k);
    i := i - 1;
    c := n.rids[i].pageNo;
  }

  /** The page that takes the upper half of `n`. */
  function RightHalf(n: Node, max: nat, zero: Key): (r: Node)
    requires Shaped(n, max) && n.num == max && 4 <= max
    ensures Shaped(r, max) && r.parent == n.parent && r.isLeaf == n.isLeaf && r.num == max - max / 2
    ensures forall j :: 0 <= j < r.num ==> r.keys[j] == n.keys[max / 2 + j] && r.rids[j] == n.rids[max / 2 + j]
    ensures forall j :: r.num <= j < max ==> r.keys[j] == zero
  {
    var blank := BlankNode(max, zero).(num := 0, parent := n.parent, isLeaf := n.isLeaf);
    var r := InsertPairs(blank, 0, n.keys[max / 2..max], n.rids[max / 2..max]);
    assert forall j :: 0 <= j < r.num ==> r.keys[j] == r.keys[..r.num][j] && r.rids[j] == r.rids[..r.num][j];
    assert forall j :: r.num <= j < max ==> r.keys[j] == r.keys[r.num..][j - r.num];
    r
  }

  lemma RightHalfIs(n: Node, max: nat, zero: Key)
    requires Shaped(n, max) && n.num == max && 4 <= max
    ensures RightHalf(n, max, zero) ==
            InsertPairs(BlankNode(max, zero).(num := 0, parent := n.parent, isLeaf := n.isLeaf), 0,
                        n.keys[max / 2..max], n.rids[max / 2..max])
  {
  }

  /** The positions of the two halves of a split page. */
  ghost function SplitInfos(g: Infos, p: int, q: int, sep: Key): Infos
    requires p in g
  {
    g[p := g[p].(hi := At(sep))][q := g[p].(lo := At(sep))]
  }

  lemma LeafSplitTo(t: Tree, p: int, q: int, t': Tree)
    requires 4 <= t.max && t.g.Keys == t.pages.Keys && p in t.pages && q !in t.pages && q != NO_PAGE
    requires Shaped(t.pages[p], t.max) && t.pages[p].num == t.max && t.pages[p].isLeaf
    requires var n := t.pages[p];
             t' == Tree(t.pages[q := RightHalf(n, t.max, t.zero).(prevLeaf := p, nextLeaf := n.nextLeaf)]
                               [p := n.(num := t.max / 2, nextLeaf := q)],
                        SplitInfos(t.g, p, q, n.keys[t.max / 2]), t.root, t.max, t.zero)
    ensures SplitTo(t, p, q, t')
  {
    hide RightHalf;
  }

  lemma InnerSplitTo(t: Tree, p: int, q: int, t': Tree)
    requires 4 <= t.max && t.g.Keys == t.pages.Keys && p in t.pages && q !in t.pages && q != NO_PAGE
    requires Shaped(t.pages[p], t.max) && t.pages[p].num == t.max && !t.pages[p].isLeaf
    requires forall j :: 0 <= j < t.max ==> t.pages[p].rids[j].pageNo != p && t.pages[p].rids[j].pageNo in t.pages
    requires var n := t.pages[p]; var r := RightHalf(n, t.max, t.zero);
             t' == Tree(SetParents(t.pages[q := r][p := n.(num := t.max / 2)], r.rids, r.num, q),
                        SplitInfos(t.g, p, q, n.keys[t.max / 2]), t.root, t.max, t.zero)
    ensures SplitTo(t, p, q, t')
  {
    hide RightHalf;
    var n, mid := t.pages[p], t.max / 2;
    var r := RightHalf(n, t.max, t.zero);
    forall x | x in t.pages && x != p
      ensures t'.pages[x] == if RightKid(n, mid, x) then t.pages[x].(parent := q) else t.pages[x]
    {
      if RightKid(n, mid, x) {
        var j :| mid <= j < n.num && n.rids[j].pageNo == x;
        assert r.rids[j - mid].pageNo == x;
      }
    }
  }

  lemma LeafSplitDone(t: Tree, p: int, q: int, t': Tree, leaves: seq<int>, first: int, last: int, m: map<Key, Rid>)
      returns (leaves': seq<int>)
    requires IndexOk(t, leaves, first, last, m, p, NO_PAGE, NO_PAGE, NO_PAGE) && p in t.pages && q !in t.pages
             && q != NO_PAGE
    requires Shaped(t.pages[p], t.max) && t.pages[p].num == t.max && t.pages[p].isLeaf && 4 <= t.max
             && t.g.Keys == t.pages.Keys
    requires var n := t.pages[p];
             t' == Tree(t.pages[q := RightHalf(n, t.max, t.zero).(prevLeaf := p, nextLeaf := n.nextLeaf)]
                               [p := n.(num := t.max / 2, nextLeaf := q)],
                        SplitInfos(t.g, p, q, n.keys[t.max / 2]), t.root, t.max, t.zero)
    ensures SplitTo(t, p, q, t')
    ensures IndexOk(t', leaves', first, if last == p then q else last, m, NO_PAGE, p, q, NO_PAGE)
  {
    hide TreeOk, ContentsOk, RightHalf, SplitTo, NodeOk;
    LeafSplitTo(t, p, q, t');
    SplitPage(t, p, q, t');
    assert NodeOk(t.pages[p], t.g[p], t.max, t.zero, t.max) by { FullNode(t, p); }
    SplitContents(t, m, p, q, t');
    var i :| 0 <= i < |leaves| && leaves[i] == p;
    leaves' := leaves[..i+1] + [q] + leaves[i+1..];
    assert t'.pages[q].nextLeaf == t.pages[p].nextLeaf && t'.pages[p].nextLeaf == q;
    SplitChain(t, leaves, first, last, p, q, i, t', leaves');
  }

  lemma FullNode(t: Tree, p: int)
    requires TreeOk(t, p, NO_PAGE, NO_PAGE, NO_PAGE) && p in t.pages
    ensures NodeOk(t.pages[p], t.g[p], t.max, t.zero, t.max)
  {
    assert NodeOk(t.pages[p], t.g[p], t.max, t.zero, if p == p then t.max else t.max - 1);
  }

  lemma InnerSplitDone(t: Tree, p: int, q: int, t': Tree, leaves: seq<int>, first: int, last: int, m: map<Key, Rid>)
    requires IndexOk(t, leaves, first, last, m, p, NO_PAGE, NO_PAGE, NO_PAGE) && p in t.pages && q !in t.pages
             && q != NO_PAGE
    requires Shaped(t.pages[p], t.max) && t.pages[p].num == t.max && !t.pages[p].isLeaf && 4 <= t.max
             && t.g.Keys == t.pages.Keys
    requires forall j :: 0 <= j < t.max ==> t.pages[p].rids[j].pageNo != p && t.pages[p].rids[j].pageNo in t.pages
    requires var n := t.pages[p]; var r := RightHalf(n, t.max, t.zero);
             t' == Tree(SetParents(t.pages[q := r][p := n.(num := t.max / 2)], r.rids, r.num, q),
                        SplitInfos(t.g, p, q, n.keys[t.max / 2]), t.root, t.max, t.zero)
    ensures SplitTo(t, p, q, t')
    ensures IndexOk(t', leaves, first, last, m, NO_PAGE, p, q, NO_PAGE)
  {
    hide TreeOk, ContentsOk, ChainOk, RightHalf, SetParents;
    InnerSplitTo(t, p, q, t');
    SplitPage(t, p, q, t');
    LeavesFrame(t, t', leaves, first, last, m);
  }

  class IxIndexHandle {
    const max: nat
    const zero: Key
    var pages: Pages
    var numPages: int
    var root: int
    var firstLeaf: int
    var lastLeaf: int
    ghost var g: Infos
    ghost var leaves: seq<int>
    ghost var contents: map<Key, Rid>

    ghost function Shape(): Tree
      reads this
    {
      Tree(pages, g, root, max, zero)
    }

    ghost predicate Holding(over: int, l: int, r: int, low: int)
      reads this
    {
      IndexOk(Shape(), leaves, firstLeaf, lastLeaf, contents, over, l, r, low) && NumberedBelow(pages, numPages)
    }

    ghost predicate Valid()
      reads this
    {
      Holding(NO_PAGE, NO_PAGE, NO_PAGE, NO_PAGE)
    }

    ghost function Height(): nat
      reads this
      requires root in g
    {
      g[root].level
    }

    /** A fresh index: one empty leaf, linked to the leaf header page on both sides. */
    constructor (order: nat, zero: Key)
      requires 2 < order
      ensures Valid() && contents == map[] && max == order + 1 && this.zero == zero && lastLeaf == root
    {
      max := order + 1;
      this.zero := zero;
      var blank := BlankNode(order + 1, zero);
      pages := map[INIT_ROOT_PAGE := blank.(parent := NO_PAGE, isLeaf := true,
                                            prevLeaf := LEAF_HEADER_PAGE, nextLeaf := LEAF_HEADER_PAGE)];
      numPages := INIT_NUM_PAGES;
      root, firstLeaf, lastLeaf := INIT_ROOT_PAGE, INIT_ROOT_PAGE, INIT_ROOT_PAGE;
      g := map[INIT_ROOT_PAGE := Info(0, NegInf, PosInf)];
      leaves := [INIT_ROOT_PAGE];
      contents := map[];
    }

    lemma RootSpans(k: Key)
      requires Valid()
      ensures root in g && Within(k, g[root])
    {
      assert UpOk(pages, g, root, NO_PAGE, NO_PAGE, root);
    }

    lemma DescendTo(p: int, k: Key)
      requires Valid() && p in pages && p in g && !pages[p].isLeaf && Within(k, g[p])
      ensures Descends(pages[p], k)
      ensures var c := ChildFor(pages[p], k);
              c in pages && c in g && Within(k, g[c]) && g[c].level < g[p].level
              && LeafFor(pages, c, k, g[c].level) == LeafFor(pages, p, k, g[p].level)
    {
      hide ChainOk, ContentsOk, AllNodesOk, AllSizesOk, AllKidsOk, AllUpOk;
      DescendStep(Shape(), NO_PAGE, NO_PAGE, p, k);
      LeafForStep(pages, p, k, g[p].level);
    }

    method FindLeafPage(k: Key) returns (p: int)
      requires Valid()
      ensures p in pages && pages[p].isLeaf && Within(k, g[p])
      ensures p == LeafFor(pages, root, k, Height())
    {
      p := root;
      RootSpans(k);
      while !pages[p].isLeaf
        invariant p in pages && p in g && root in g && Within(k, g[p])
        invariant LeafFor(pages, p, k, g[p].level) == LeafFor(pages, root, k, Height())
        decreases g[p].level
      {
        DescendTo(p, k);
        p := InternalLookup(pages[p], k);
      }
    }

    /** The value stored under a key, if any. */
    method GetValue(k: Key) returns (v: Option<Rid>)
      requires Valid()
      ensures v == Get(contents, k)
    {
      var p := FindLeafPage(k);
      LeafSays(p, k);
      var i := LowerBoundLinear(pages[p], k);
      if i == pages[p].num || pages[p].num == 0 {
        return None;
      }
      if pages[p].keys[i] == k { return Some(pages[p].rids[i]); } else { return None; }
    }

    lemma LeafSays(p: int, k: Key)
      requires Valid() && p in pages && pages[p].isLeaf && Within(k, g[p])
      ensures var n := pages[p]; var i := LowerBound(n.keys[..n.num], k);
              NodeOk(n, g[p], max, zero, max - 1) && LeafHolds(n, g[p], contents)
              && (k in contents <==> i < n.num && n.keys[i] == k) && (k in contents ==> contents[k] == n.rids[i])
    {
      assert NodeOk(pages[p], g[p], max, zero, if p == NO_PAGE then max else max - 1);
      LeafAnswer(pages[p], g[p], max, zero, max - 1, contents, k);
    }

    /** Whether a key is stored, by scanning the leaf it belongs to. */
    method IsKeyExist(k: Key) returns (b: bool)
      requires Valid()
      ensures b <==> k in contents
    {
      var p := FindLeafPage(k);
      LeafSays(p, k);
      var i := 0;
      while i < pages[p].num
        invariant 0 <= i <= pages[p].num
        invariant forall j :: 0 <= j < i ==> pages[p].keys[j] != k
      {
        if pages[p].keys[i] == k { return true; }
        i := i + 1;
      }
      return false;
    }

    /** Where a scan starts: at the least stored key, if there is one. */
    method LeafBegin() returns (iid: Iid)
      requires Valid()
      ensures iid == Iid(firstLeaf, 0) && firstLeaf in pages && firstLeaf in g && pages[firstLeaf].isLeaf
              && g[firstLeaf].lo == NegInf
      ensures forall k :: k in contents ==>
                var n := pages[iid.pageNo]; 0 < n.num <= |n.keys| && n.keys[0] in contents && n.keys[0] <= k
    {
      iid := Iid(firstLeaf, 0);
      forall k | k in contents
        ensures var n := pages[iid.pageNo]; 0 < n.num <= |n.keys| && n.keys[0] in contents && n.keys[0] <= k
      {
        LeastEntry(Shape(), leaves, firstLeaf, lastLeaf, contents, k);
      }
    }

    /** Where a scan ends: right behind the greatest stored key, if there is one. */
    method LeafEnd() returns (iid: Iid)
      requires Valid()
      ensures lastLeaf in pages && lastLeaf in g && iid == Iid(lastLeaf, pages[lastLeaf].num) && pages[lastLeaf].isLeaf
              && g[lastLeaf].hi == PosInf
      ensures forall k :: k in contents ==>
                var n := pages[iid.pageNo];
                0 < iid.slotNo <= |n.keys| && n.keys[iid.slotNo-1] in contents && k <= n.keys[iid.slotNo-1]
    {
      iid := Iid(lastLeaf, pages[lastLeaf].num);
      forall k | k in contents
        ensures var n := pages[iid.pageNo];
                0 < iid.slotNo <= |n.keys| && n.keys[iid.slotNo-1] in contents && k <= n.keys[iid.slotNo-1]
      {
        GreatestEntry(Shape(), leaves, firstLeaf, lastLeaf, contents, k);
      }
    }

    /** Insertion of one pair into page `p`, with the duplicate test on the slot found. */
    method InsertIntoNode(p: int, k: Key, r: Rid)
      requires p in pages && |pages[p].keys| == |pages[p].rids| && pages[p].num < |pages[p].keys|
      modifies this`pages
      ensures pages == old(pages)[p := NodeInsert(old(pages)[p], k, r)]
    {
      var i := LowerBoundLinear(pages[p], k);
      if pages[p].num != 0 && pages[p].keys[i] == k {
        pages := pages[p := pages[p]];
      } else {
        pages := pages[p := InsertPairs(pages[p], i, [k], [r])];
      }
    }

    /** The slot of child `c` in page `y`. */
    method FindChild(y: int, c: int) returns (i: nat)
      requires y in pages && pages[y].num <= |pages[y].rids|
      requires exists j :: 0 <= j < pages[y].num && pages[y].rids[j].pageNo == c
      ensures i < pages[y].num && pages[y].rids[i].pageNo == c
      ensures forall j :: 0 <= j < i ==> pages[y].rids[j].pageNo != c
    {
      i := 0;
      while pages[y].rids[i].pageNo != c
        invariant i < pages[y].num
        invariant forall j :: 0 <= j < i ==> pages[y].rids[j].pageNo != c
        decreases pages[y].num - i
      {
        assert exists j :: i < j < pages[y].num && pages[y].rids[j].pageNo == c;
        i := i + 1;
      }
    }

    /** Carries a new first key of page `p` up the tree until a parent already records it. */
    method MaintainParent(p: int)
      requires Holding(p, NO_PAGE, NO_PAGE, p) && p in pages && pages[p].isLeaf
      modifies this`pages
      ensures Holding(p, NO_PAGE, NO_PAGE, NO_PAGE) && pages.Keys == old(pages.Keys)
      ensures forall z :: z in pages ==> LoweredFirst(old(pages)[z], pages[z])
      ensures pages[p] == old(pages)[p]
    {
      hide TreeOk, ChainOk, ContentsOk;
      var curr := p;
      assert p in g && root in g && g[p].level <= g[root].level by { TopLevel(p, p); }
      while pages[curr].parent != NO_PAGE
        invariant Holding(p, NO_PAGE, NO_PAGE, curr) && curr in pages && pages.Keys == old(pages.Keys)
        invariant forall z :: z in pages ==> LoweredFirst(old(pages)[z], pages[z])
        invariant pages[p] == old(pages)[p] && p in g && curr in g && root in g
                  && g[p].level <= g[curr].level <= g[root].level
        decreases g[root].level - g[curr].level
      {
        LowSlot(p, curr);
        var y := pages[curr].parent;
        var rank := FindChild(y, curr);
        if pages[y].keys[rank] == pages[curr].keys[0] {
          LowDone(p, curr, rank);
          return;
        }
        TellParent(p, curr, y, rank);
        curr := y;
      }
      LowAtRoot(p, curr);
    }

    lemma TopLevel(p: int, low: int)
      requires Holding(p, NO_PAGE, NO_PAGE, low) && p in pages
      ensures p in g && root in g && g[p].level <= g[root].level
    {
    }

    lemma LowAtRoot(over: int, c: int)
      requires Holding(over, NO_PAGE, NO_PAGE, c) && c in pages && pages[c].parent == NO_PAGE
      ensures Holding(over, NO_PAGE, NO_PAGE, NO_PAGE)
    {
      if c != root { SlotOfKid(Shape(), over, c, c); }
      LowResolved(Shape(), over, c);
    }

    lemma LowSlot(over: int, c: int)
      requires Holding(over, NO_PAGE, NO_PAGE, c) && c in pages && pages[c].parent != NO_PAGE
      ensures c != root && c in g && root in g
      ensures var y := pages[c].parent;
              && y in pages && y in g && !pages[y].isLeaf && g[y].level == g[c].level + 1 <= g[root].level && y != c
              && pages[y].num <= |pages[y].rids| == |pages[y].keys| && 0 < |pages[c].keys|
              && (exists i :: 0 <= i < pages[y].num && pages[y].rids[i].pageNo == c)
              && (forall i :: 0 <= i < pages[y].num && pages[y].rids[i].pageNo == c ==>
                    pages[y].keys[i] == pages[c].keys[0] || (i == 0 && pages[c].keys[0] < pages[y].keys[0]))
    {
      assert UpOk(pages, g, root, NO_PAGE, NO_PAGE, root);
      SlotOfKid(Shape(), over, c, c);
      assert NodeOk(pages[c], g[c], max, zero, if c == over then max else max - 1);
      var y := pages[c].parent;
      assert NodeOk(pages[y], g[y], max, zero, if y == over then max else max - 1);
    }

    lemma LowDone(over: int, c: int, rank: nat)
      requires Holding(over, NO_PAGE, NO_PAGE, c) && c in pages && pages[c].parent in pages
      requires var n := pages[pages[c].parent];
               rank < n.num <= |n.keys| == |n.rids| && 0 < |pages[c].keys| && n.keys[rank] == pages[c].keys[0]
               && n.rids[rank].pageNo == c && forall j :: 0 <= j < rank ==> n.rids[j].pageNo != c
      ensures Holding(over, NO_PAGE, NO_PAGE, NO_PAGE)
    {
      LowResolved(Shape(), over, c);
    }

    /** One step of the upkeep: the parent's slot for `c` takes the first key of `c`. */
    method TellParent(ghost over: int, c: int, y: int, rank: nat)
      requires Holding(over, NO_PAGE, NO_PAGE, c) && c in pages && c != root && y == pages[c].parent && over in pages
      requires y in pages && !pages[y].isLeaf && rank < pages[y].num <= |pages[y].keys| == |pages[y].rids|
               && 0 < |pages[c].keys|
      requires rank == 0 && pages[y].rids[0].pageNo == c && pages[c].keys[0] < pages[y].keys[0] && y != c
               && pages[over].isLeaf
      modifies this`pages
      ensures Holding(over, NO_PAGE, NO_PAGE, y) && pages.Keys == old(pages.Keys)
      ensures forall z :: z in pages && z != y ==> pages[z] == old(pages)[z]
      ensures LoweredFirst(old(pages)[y], pages[y])
    {
      hide TreeOk, ChainOk, ContentsOk;
      ghost var t := Shape();
      pages := pages[y := pages[y].(keys := pages[y].keys[rank := pages[c].keys[0]])];
      RaiseLow(t, over, c, y, Shape());
      LeavesFrame(t, Shape(), leaves, firstLeaf, lastLeaf, contents);
    }

    /** A new blank page. Its number is not in use, and no page number is used twice later on either. */
    method CreateNode() returns (q: int)
      requires NumberedBelow(pages, numPages)
      modifies this`pages, this`numPages
      ensures q !in old(pages) && q != NO_PAGE && q == old(numPages) && numPages == old(numPages) + 1
      ensures pages == old(pages)[q := BlankNode(max, zero)] && NumberedBelow(pages, numPages)
    {
      q := numPages;
      numPages := numPages + 1;
      pages := pages[q := BlankNode(max, zero)];
    }

    /** Points every child of page `q` up to it. */
    method MaintainChildren(q: int)
      requires q in pages && !pages[q].isLeaf && pages[q].num <= |pages[q].rids|
      requires forall j :: 0 <= j < pages[q].num ==> pages[q].rids[j].pageNo in pages && pages[q].rids[j].pageNo != q
      modifies this`pages
      ensures pages == SetParents(old(pages), old(pages)[q].rids, old(pages)[q].num, q)
    {
      var i := 0;
      assert pages == SetParents(pages, pages[q].rids, 0, q);
      while i < pages[q].num
        invariant q in pages && pages[q] == old(pages)[q] && 0 <= i <= pages[q].num
        invariant pages == SetParents(old(pages), old(pages)[q].rids, i, q)
      {
        var c := pages[q].rids[i].pageNo;
        pages := pages[c := pages[c].(parent := q)];
        i := i + 1;
      }
    }

    lemma FullPage(p: int)
      requires Holding(p, NO_PAGE, NO_PAGE, NO_PAGE) && p in pages && pages[p].num == max
      ensures 4 <= max && g.Keys == pages.Keys && Shaped(pages[p], max) && numPages !in pages && numPages != NO_PAGE
      ensures !pages[p].isLeaf ==>
                forall j :: 0 <= j < max ==> pages[p].rids[j].pageNo != p && pages[p].rids[j].pageNo in pages
    {
      assert NodeOk(pages[p], g[p], max, zero, if p == p then max else max - 1);
      if !pages[p].isLeaf {
        assert KidsOk(pages, g, p, NO_PAGE, NO_PAGE, NO_PAGE);
        forall j | 0 <= j < max ensures pages[p].rids[j].pageNo != p && pages[p].rids[j].pageNo in pages {
          assert KidOk(pages, g, p, j, NO_PAGE, NO_PAGE, NO_PAGE);
        }
      }
    }

    /** Creates the right sibling of the full page `p` and moves the upper half of the pairs there. */
    method MoveUpperHalf(p: int) returns (q: int)
      requires 4 <= max && p in pages && Shaped(pages[p], max) && pages[p].num == max && NumberedBelow(pages, numPages)
      modifies this`pages, this`numPages
      ensures q == old(numPages) && numPages == old(numPages) + 1
      ensures pages == old(pages)[q := RightHalf(old(pages)[p], max, zero)][p := old(pages)[p].(num := max / 2)]
    {
      hide InsertPairs, RightHalf, BlankNode;
      var n, mid := pages[p], pages[p].num / 2;
      q := CreateNode();
      pages := pages[q := pages[q].(num := 0, parent := n.parent, isLeaf := n.isLeaf)];
      RightHalfIs(n, max, zero);
      pages := pages[q := InsertPairs(pages[q], 0, n.keys[mid..n.num], n.rids[mid..n.num])];
      pages := pages[p := pages[p].(num := mid)];
    }

    /** Splits the full page `p`; the new right page waits to be entered in the parent. */
    method Split(p: int) returns (q: int)
      requires Holding(p, NO_PAGE, NO_PAGE, NO_PAGE) && p in pages && pages[p].num == max
      modifies this`pages, this`numPages, this`lastLeaf, this`g, this`leaves
      ensures Holding(NO_PAGE, p, q, NO_PAGE) && q == old(numPages) && SplitTo(old(Shape()), p, q, Shape())
      ensures lastLeaf == if old(pages)[p].isLeaf && old(lastLeaf) == p then q else old(lastLeaf)
    {
      hide IndexOk, SplitTo, SetParents, RightHalf, SplitInfos;
      ghost var t := Shape();
      FullPage(p);
      q := MoveUpperHalf(p);
      g := SplitInfos(g, p, q, t.pages[p].keys[max / 2]);
      if pages[q].isLeaf {
        pages := pages[q := pages[q].(prevLeaf := p, nextLeaf := pages[p].nextLeaf)];
        pages := pages[p := pages[p].(nextLeaf := q)];
        assert pages == t.pages[q := RightHalf(t.pages[p], max, zero).(prevLeaf := p, nextLeaf := t.pages[p].nextLeaf)]
                               [p := t.pages[p].(num := max / 2, nextLeaf := q)];
        leaves := LeafSplitDone(t, p, q, Shape(), leaves, firstLeaf, lastLeaf, contents);
        if lastLeaf == p { lastLeaf := q; }
      } else {
        MaintainChildren(q);
        InnerSplitDone(t, p, q, Shape(), leaves, firstLeaf, lastLeaf, contents);
      }
    }

    /** Puts a new root over the halves of the old one. */
    method NewRoot(l: int, r: int)
      requires Holding(NO_PAGE, l, r, NO_PAGE) && r != NO_PAGE && l == root && max / 2 <= pages[l].num
      modifies this`pages, this`numPages, this`root, this`g
      ensures Valid() && r in pages && pages[r] == old(pages)[r].(parent := root) && r != root
    {
      hide IndexOk, InsertPairs, BlankNode, Rooted;
      ghost var t := Shape();
      PendingPages(l, r);
      var q := CreateNode();
      var n := pages[q].(num := 0, parent := NO_PAGE, isLeaf := false);
      n := InsertPairs(n, 0, [pages[l].keys[0]], [Rid(l, -1)]);
      n := InsertPairs(n, 1, [pages[r].keys[0]], [Rid(r, -1)]);
      pages := pages[q := n];
      pages := pages[l := pages[l].(parent := q)];
      pages := pages[r := pages[r].(parent := q)];
      root := q;
      g := g[q := Info(g[l].level + 1, NegInf, PosInf)];
      RootPairs(BlankNode(max, zero).(num := 0, parent := NO_PAGE, isLeaf := false), zero,
                t.pages[l].keys[0], Rid(l, -1), t.pages[r].keys[0], Rid(r, -1), n);
      RootPages(t, l, r, q, n, Shape());
      RootDone(t, l, r, q, Shape(), leaves, firstLeaf, lastLeaf, contents);
    }

    lemma PendingPages(l: int, r: int)
      requires Holding(NO_PAGE, l, r, NO_PAGE) && r != NO_PAGE
      ensures g.Keys == pages.Keys && l in pages && r in pages && l != r && root in g && 4 <= max && numPages !in pages
              && numPages != NO_PAGE
      ensures Shaped(pages[l], max) && Shaped(pages[r], max) && 0 < pages[r].num < max
      ensures l == root <==> pages[l].parent == NO_PAGE
    {
      assert NodeOk(pages[l], g[l], max, zero, if l == NO_PAGE then max else max - 1);
      assert NodeOk(pages[r], g[r], max, zero, if r == NO_PAGE then max else max - 1);
      assert UpOk(pages, g, root, l, r, r) && UpOk(pages, g, root, l, r, l);
    }

    /** Enters the waiting page `r` in the parent of `l`, unless a slot clash gets in the way. */
    method EnterInParent(l: int, r: int) returns (y: int)
      requires Holding(NO_PAGE, l, r, NO_PAGE) && r != NO_PAGE && l != root
      modifies this`pages
      ensures y == old(pages)[l].parent && y in old(pages) && y in pages && y in g && l in g
              && g[y].level == g[l].level + 1
      ensures !old(pages)[y].isLeaf && pages[y].isLeaf == old(pages)[y].isLeaf
      ensures 4 <= max && Shaped(old(pages)[y], max) && old(pages)[y].num < max && 0 < |old(pages)[r].keys|
              && 0 < old(pages)[y].num
      ensures var sep := old(pages)[r].keys[0]; var n := old(pages)[y];
              && n.keys[0] < sep && Within(sep, g[y])
              && if SlotClash(n, sep) then pages == old(pages) else
                   && Holding(y, NO_PAGE, NO_PAGE, NO_PAGE) && OnePage(old(Shape()), y, Shape())
                   && pages[y].num == n.num + 1
                   && PairAdded(n, LowerBound(n.keys[..n.num], sep), sep, Rid(r, -1), pages[y])
    {
      hide IndexOk, InsertPairs, EnterReady;
      ghost var t := Shape();
      PendingPages(l, r);
      y := pages[r].parent;
      ghost var i := EnterFacts(l, r);
      InsertIntoNode(y, pages[r].keys[0], Rid(r, -1));
      if !SlotClash(t.pages[y], t.pages[r].keys[0]) {
        InsertPairSlots(t.pages[y], i + 1, t.pages[r].keys[0], Rid(r, -1));
        EnterDone(t, l, r, y, i, Shape(), leaves, firstLeaf, lastLeaf, contents);
      } else {
        assert pages == t.pages;
      }
    }

    lemma EnterFacts(l: int, r: int) returns (i: nat)
      requires Holding(NO_PAGE, l, r, NO_PAGE) && r != NO_PAGE && l != root
      ensures l in pages && r in pages && EnterReady(Shape(), l, r, pages[l].parent, i)
              && pages[r].parent == pages[l].parent
      ensures var y := pages[l].parent;
              && y in pages && y in g && l in g && Shaped(pages[y], max) && 0 < pages[y].num < max && i < pages[y].num
              && LowerBound(pages[y].keys[..pages[y].num], pages[r].keys[0]) == i + 1
              && pages[y].keys[0] < pages[r].keys[0] && g[y].level == g[l].level + 1 && !pages[y].isLeaf
              && Within(pages[r].keys[0], g[y])
              && (i + 1 < pages[y].num ==> pages[r].keys[0] < pages[y].keys[i + 1])
    {
      i := SeparatorSlot(Shape(), l, r);
      var y := pages[l].parent;
      assert NodeOk(pages[y], g[y], max, zero, if y == NO_PAGE then max else max - 1);
    }

    /** Enters the waiting page `r` in the tree, splitting the parents that fill up. */
    method InsertIntoParent(l: int, r: int, ghost fuel: nat)
      requires Holding(NO_PAGE, l, r, NO_PAGE) && r != NO_PAGE && max / 2 <= pages[l].num && 0 < |pages[r].keys|
      requires g[root].level <= g[l].level + fuel
      modifies this`pages, this`numPages, this`root, this`lastLeaf, this`g, this`leaves
      ensures root in g
      ensures if old(l != root && EnterClash(pages, pages[l].parent, pages[r].keys[0], fuel))
              then Lost(pages, root, Height(), contents) else Valid()
      ensures lastLeaf == old(lastLeaf)
      ensures old(l == root) ==> r in pages && pages[r] == old(pages)[r].(parent := root) && r != root
      decreases fuel
    {
      hide IndexOk, EnterClash, Find, SlotClash, PairAdded, OnePage, SplitTo, NumberedBelow, Within;
      ghost var t0 := Shape();
      PendingPages(l, r);
      if pages[l].parent == NO_PAGE {
        NewRoot(l, r);
        assert root in g by { PlainFacts(); }
      } else {
        var y := EnterInParent(l, r);
        ghost var t1, sep := Shape(), t0.pages[r].keys[0];
        if pages[y].num == max {
          InnerNotLast(t0, l, r, y, leaves, firstLeaf, lastLeaf, contents);
          var z := Split(y);
          SplitGoesOn(t0, l, r, y, sep, t1, z, Shape(), old(leaves), leaves, firstLeaf, lastLeaf, contents, fuel);
          InsertIntoParent(y, z, fuel - 1);
          lastLeaf := if y == lastLeaf then z else lastLeaf;
        } else {
          EnterEnds(t0, l, r, y, sep, fuel);
          if SlotClash(t0.pages[y], sep) {
            ClashLoses(t0, l, r, leaves, firstLeaf, lastLeaf, contents);
          } else {
            assert Valid() by { NotFull(y); }
            PlainFacts();
          }
        }
      }
    }

    lemma NotFull(y: int)
      requires Holding(y, NO_PAGE, NO_PAGE, NO_PAGE) && y in pages && pages[y].num < max
      ensures Valid()
    {
      hide AllKidsOk, AllUpOk, AllSizesOk, ChainOk, ContentsOk;
      forall p | p in pages ensures NodeOk(pages[p], g[p], max, zero, if p == NO_PAGE then max else max - 1) {
        assert NodeOk(pages[p], g[p], max, zero, if p == y then max else max - 1);
      }
    }

    /** Inserts the pair into its leaf and brings the separators above up to date. */
    method AddToLeaf(p: int, k: Key, r: Rid)
      requires Valid() && p in pages && pages[p].isLeaf && Within(k, g[p])
      modifies this`pages, this`contents
      ensures Holding(p, NO_PAGE, NO_PAGE, NO_PAGE) && pages.Keys == old(pages.Keys)
      ensures Shaped(old(pages)[p], max) && old(pages)[p].num < max && pages[p] == NodeInsert(old(pages)[p], k, r)
              && pages[p].isLeaf
      ensures forall z :: z in pages && z != p ==> LoweredFirst(old(pages)[z], pages[z])
      ensures contents == if SlotClash(old(pages)[p], k) then old(contents) else FirstWins(old(contents), k, r)
      ensures k in old(contents) || SlotClash(old(pages)[p], k) <==> pages[p].num == old(pages)[p].num
      ensures k in old(contents) <==> k in old(pages)[p].keys[..old(pages)[p].num]
      ensures k in old(contents) || SlotClash(old(pages)[p], k) || pages[p].num == old(pages)[p].num + 1
    {
      hide IndexOk, NodeInsert, SlotClash;
      ghost var t := Shape();
      ghost var n := pages[p];
      LeafCase(p, k, r);
      InsertIntoNode(p, k, r);
      if k !in contents && !SlotClash(n, k) {
        LeafAddDone(t, p, k, r, Shape(), leaves, firstLeaf, lastLeaf, contents);
        contents := contents[k := r];
      } else {
        assert pages == t.pages;
        assert Holding(p, NO_PAGE, NO_PAGE, p) by { Loosen(p); }
      }
      MaintainParent(p);
    }

    lemma LoosenKids(p: int, y: int)
      requires Valid() && p in pages && y in pages && !pages[y].isLeaf
      ensures y in g && |pages[y].keys| == |pages[y].rids| && pages[y].num <= |pages[y].keys|
      ensures KidsOk(pages, g, y, NO_PAGE, NO_PAGE, p)
    {
      hide ChainOk, ContentsOk, AllNodesOk, AllSizesOk, AllKidsOk, AllUpOk, RootHighest;
      OkAt(Shape(), NO_PAGE, NO_PAGE, NO_PAGE, NO_PAGE, y);
      forall i | 0 <= i < pages[y].num ensures KidOk(pages, g, y, i, NO_PAGE, NO_PAGE, p) {
        KidAt(Shape(), NO_PAGE, NO_PAGE, NO_PAGE, NO_PAGE, y, i);
      }
    }

    lemma Loosen(p: int)
      requires Valid() && p in pages
      ensures Holding(p, NO_PAGE, NO_PAGE, p)
    {
      hide ChainOk, ContentsOk, AllSizesOk, AllUpOk, KidsOk, RootHighest;
      forall y | y in pages ensures NodeOk(pages[y], g[y], max, zero, if y == p then max else max - 1) {
        assert NodeOk(pages[y], g[y], max, zero, if y == NO_PAGE then max else max - 1);
      }
      forall y | y in pages && !pages[y].isLeaf ensures KidsOk(pages, g, y, NO_PAGE, NO_PAGE, p) { LoosenKids(p, y); }
    }

    /** What the leaf's slots say about the key before the insertion. */
    lemma LeafCase(p: int, k: Key, r: Rid)
      requires Valid() && p in pages && pages[p].isLeaf && Within(k, g[p])
      ensures Shaped(pages[p], max) && pages[p].num < max
      ensures k in contents <==> k in pages[p].keys[..pages[p].num]
      ensures var n := pages[p]; var pos := LowerBound(n.keys[..n.num], k);
              if k in contents || SlotClash(n, k) then NodeInsert(n, k, r) == n
              else NodeInsert(n, k, r) == InsertPairs(n, pos, [k], [r]) && (pos < n.num ==> k < n.keys[pos])
                   && (0 < pos ==> n.keys[pos-1] < k) && NodeInsert(n, k, r).num == n.num + 1
    {
      hide TreeOk, ChainOk, InsertPairs;
      var n := pages[p];
      LeafSays(p, k);
      var pos := LowerBound(n.keys[..n.num], k);
      assert 0 < pos ==> n.keys[..n.num][pos-1] < k;
      assert pos < n.num ==> k <= n.keys[..n.num][pos];
      assert k in contents ==> n.keys[..n.num][pos] == k;
    }

    /** Inserts a pair. The index then answers every search as the first-insert-wins map, and is
        again a valid B+ tree, exactly when the insertion meets no slot clash. A clash in the leaf
        drops the pair. */
    method InsertEntry(k: Key, r: Rid) returns (p: int)
      requires Valid()
      modifies this
      ensures root in g
      ensures p == old(LeafFor(pages, root, k, Height()))
      ensures !old(InsertClash(pages, root, k, Height())) ==> Valid() && contents == FirstWins(old(contents), k, r)
      ensures (forall z :: Find(pages, root, z, Height()) == Get(FirstWins(old(contents), k, r), z)) <==>
              !old(InsertClash(pages, root, k, Height()))
      ensures old(LeafClash(pages, root, k, Height())) ==> Valid() && contents == old(contents)
      ensures old(InsertClash(pages, root, k, Height())) ==> Lost(pages, root, Height(), FirstWins(old(contents), k, r))
      ensures p in old(pages) && Shaped(old(pages)[p], max) && old(pages)[p].num < max
      ensures old(pages)[p].num + 1 < max ==>
                root == old(root) && g == old(g) && lastLeaf == old(lastLeaf) && p in pages
                  && pages[p] == NodeInsert(old(pages)[p], k, r)
      ensures p == old(root) == old(lastLeaf) && NodeInsert(old(pages)[p], k, r).num == max ==>
                lastLeaf in pages && lastLeaf != root && UpperHalf(NodeInsert(old(pages)[p], k, r), pages[lastLeaf])
    {
      hide IndexOk, EnterClash, InsertClash, LeafClash, SlotClash, NodeInsert, Find, LeafFor, SplitTo, LoweredFirst,
           NumberedBelow;
      ghost var t0 := Shape();
      PlainFacts();
      p := FindLeafPage(k);
      LeafClashAt(t0, p, k);
      AddToLeaf(p, k, r);
      ghost var t1 := Shape();
      if pages[p].num == max {
        var q := Split(p);
        SplitUpperHalf(t1, p, q, Shape());
        LeafGoesOn(t0, p, k, r, t1, q, Shape(), old(leaves), firstLeaf, old(lastLeaf), old(contents));
        InsertIntoParent(p, q, t0.g[t0.root].level);
        lastLeaf := if p == lastLeaf then q else lastLeaf;
        if old(InsertClash(pages, root, k, Height())) {
          ghost var z :| z in contents && Find(pages, root, z, Height()) == None;
          assert z in FirstWins(old(contents), k, r);
          assert Find(pages, root, z, Height()) != Get(FirstWins(old(contents), k, r), z);
        } else {
          Answers();
        }
      } else {
        assert Valid() by { NotFull(p); }
        LeafEnds(t0, p, k, t1);
        Answers();
        PlainFacts();
        assert SlotClash(t0.pages[p], k) ==>
                 k in FirstWins(old(contents), k, r) && Find(pages, root, k, Height()) == None;
        assert SlotClash(t0.pages[p], k) ==> Find(pages, root, k, Height()) != Get(FirstWins(old(contents), k, r), k);
      }
    }

    lemma NoClash(k: Key)
      requires Valid() && Harmless(contents, zero, k)
      ensures root in g && !InsertClash(pages, root, k, Height())
    {
      InsertNoClash(Shape(), contents, k);
    }

    lemma DropsZero(k: Key)
      requires Valid() && k in contents && forall z :: z in contents ==> z < zero
      ensures root in g && LeafClash(pages, root, zero, Height())
    {
      BelowZeroClash(Shape(), leaves, firstLeaf, lastLeaf, contents, k);
    }

    /** The number of levels above the leaves. */
    method Depth() returns (h: nat)
      requires Valid()
      ensures root in g && h == Height()
    {
      hide ChainOk, ContentsOk, AllNodesOk, AllSizesOk, AllKidsOk, AllUpOk;
      h := 0;
      var p := root;
      DepthFacts(p);
      while !pages[p].isLeaf
        invariant p in pages && p in g && root in g && g[p].level + h == Height()
        invariant if pages[p].isLeaf then g[p].level == 0 else 0 < |pages[p].rids| && 0 < pages[p].num
        decreases g[p].level
      {
        KidAt(Shape(), NO_PAGE, NO_PAGE, NO_PAGE, NO_PAGE, p, 0);
        p := pages[p].rids[0].pageNo;
        h := h + 1;
        DepthFacts(p);
      }
    }

    lemma DepthFacts(p: int)
      requires Valid() && p in pages
      ensures p in g && |pages[p].rids| == |pages[p].keys| && pages[p].num <= |pages[p].keys|
      ensures if pages[p].isLeaf then g[p].level == 0 else 0 < |pages[p].rids| && 0 < pages[p].num
    {
      OkAt(Shape(), NO_PAGE, NO_PAGE, NO_PAGE, NO_PAGE, p);
    }

    /** The test that tells before an insertion whether it will go wrong. */
    method MeetsClash(k: Key) returns (b: bool)
      requires Valid()
      ensures root in g && b == InsertClash(pages, root, k, Height())
    {
      var h := Depth();
      return InsertClash(pages, root, k, h);
    }

    /** A valid index answers every search as its stored map. */
    lemma Answers()
      requires Valid()
      ensures root in g && forall z :: Find(pages, root, z, Height()) == Get(contents, z)
    {
      forall z ensures Find(pages, root, z, Height()) == Get(contents, z) {
        RootSpans(z);
        FindExact(Shape(), contents, root, z);
      }
    }

    lemma PlainFacts()
      requires Valid()
      ensures root in g
    {
    }

    ghost function Now(): Snapshot
      reads this
      requires root in g
    {
      Snapshot(pages, root, Height())
    }

    lemma SaysContents()
      requires Valid()
      ensures root in g && Says(Now(), contents)
    {
      Answers();
    }
  }

  lemma InnerNotLast(t: Tree, l: int, r: int, y: int, leaves: seq<int>, first: int, last: int, m: map<Key, Rid>)
    requires IndexOk(t, leaves, first, last, m, NO_PAGE, l, r, NO_PAGE) && y in t.pages && !t.pages[y].isLeaf
    ensures y != last && t.g.Keys == t.pages.Keys && t.root in t.g
            && (r != NO_PAGE ==> l in t.g && r in t.g && t.g[r].level == t.g[l].level)
    ensures t.g[y].level <= t.g[t.root].level
  {
    if r != NO_PAGE { assert UpOk(t.pages, t.g, t.root, l, r, r); }
  }

  lemma EnterEnds(t: Tree, l: int, r: int, y: int, sep: Key, fuel: nat)
    requires y in t.pages && t.pages[y].num < |t.pages[y].keys|
    requires t.pages[y].num + 1 < |t.pages[y].keys| || SlotClash(t.pages[y], sep)
    ensures EnterClash(t.pages, y, sep, fuel) <==> SlotClash(t.pages[y], sep)
  {
  }

  lemma ClashLoses(t: Tree, l: int, r: int, leaves: seq<int>, first: int, last: int, m: map<Key, Rid>)
    requires IndexOk(t, leaves, first, last, m, NO_PAGE, l, r, NO_PAGE) && r != NO_PAGE
    ensures t.root in t.g && Lost(t.pages, t.root, t.g[t.root].level, m)
  {
    hide Find, AllNodesOk, AllSizesOk, AllKidsOk, AllUpOk, ContentsOk, ChainOk;
    SeparatorLost(t, m, l, r);
  }

  lemma SplitGoesOn(t0: Tree, l: int, r: int, y: int, sep: Key, t1: Tree, z: int, t2: Tree,
                    leaves0: seq<int>, leaves: seq<int>, first: int, last: int, m: map<Key, Rid>, fuel: nat)
    requires IndexOk(t0, leaves0, first, last, m, NO_PAGE, l, r, NO_PAGE) && r != NO_PAGE
    requires y in t0.pages && !t0.pages[y].isLeaf && t0.g[y].level == t0.g[l].level + 1
    requires t0.pages[y].keys[0] < sep && Within(sep, t0.g[y]) && !SlotClash(t0.pages[y], sep)
    requires IndexOk(t1, leaves0, first, last, m, y, NO_PAGE, NO_PAGE, NO_PAGE) && OnePage(t0, y, t1)
             && SplitTo(t1, y, z, t2)
    requires PairAdded(t0.pages[y], LowerBound(t0.pages[y].keys[..t0.pages[y].num], sep), sep, Rid(r, -1), t1.pages[y])
    requires t0.g[t0.root].level <= t0.g[l].level + fuel
    ensures fuel > 0 && z != NO_PAGE && t2.max / 2 <= t2.pages[y].num && 0 < |t2.pages[z].keys|
    ensures y in t2.g && t2.root in t2.g && t2.g[t2.root].level <= t2.g[y].level + fuel - 1
    ensures EnterClash(t0.pages, y, sep, fuel) <==>
            y != t2.root && EnterClash(t2.pages, t2.pages[y].parent, t2.pages[z].keys[0], fuel - 1)
  {
    hide AllNodesOk, AllSizesOk, AllKidsOk, AllUpOk, ContentsOk, ChainOk, EnterClash, PairAdded;
    InnerNotLast(t0, l, r, y, leaves0, first, last, m);
    CascadeStep(t0, l, r, y, sep, t1, z, t2, fuel);
  }

  lemma LeafAddDone(t: Tree, p: int, k: Key, r: Rid, t': Tree, leaves: seq<int>, first: int, last: int,
                    m: map<Key, Rid>)
    requires IndexOk(t, leaves, first, last, m, NO_PAGE, NO_PAGE, NO_PAGE, NO_PAGE)
    requires p in t.pages && t.pages[p].isLeaf && Within(k, t.g[p]) && k !in m && Shaped(t.pages[p], t.max)
             && t.pages[p].num < t.max
    requires var n := t.pages[p]; var pos := LowerBound(n.keys[..n.num], k);
             (pos < n.num ==> k < n.keys[pos]) && (0 < pos ==> n.keys[pos-1] < k)
             && t' == t.(pages := t.pages[p := InsertPairs(n, pos, [k], [r])])
    ensures IndexOk(t', leaves, first, last, m[k := r], p, NO_PAGE, NO_PAGE, p)
  {
    hide AllNodesOk, AllSizesOk, AllKidsOk, AllUpOk, ContentsOk, ChainOk, InsertPairs, LowerBound;
    var n := t.pages[p];
    var pos := LowerBound(n.keys[..n.num], k);
    InsertPairSlots(n, pos, k, r);
    LeafAdd(t, p, pos, k, r, t');
    LeafAddContents(t, leaves, first, last, m, p, pos, k, r, t');
  }

  /** The condition for a leaf split, read off the pages before the insertion. */
  lemma LeafGoesOn(t0: Tree, p: int, k: Key, r: Rid, t1: Tree, q: int, t2: Tree,
                   leaves0: seq<int>, first: int, last: int, m: map<Key, Rid>)
    requires IndexOk(t0, leaves0, first, last, m, NO_PAGE, NO_PAGE, NO_PAGE, NO_PAGE)
    requires p == LeafFor(t0.pages, t0.root, k, t0.g[t0.root].level) && p in t0.pages && t0.pages[p].isLeaf
             && Within(k, t0.g[p])
    requires Shaped(t0.pages[p], t0.max) && t0.pages[p].num < t0.max && !SlotClash(t0.pages[p], k)
             && k !in t0.pages[p].keys[..t0.pages[p].num]
    requires t1.g == t0.g && t1.root == t0.root && t1.max == t0.max && t1.pages.Keys == t0.pages.Keys
    requires t1.pages[p] == NodeInsert(t0.pages[p], k, r) && t1.pages[p].num == t0.max == t0.pages[p].num + 1
    requires forall z :: z in t1.pages && z != p ==> LoweredFirst(t0.pages[z], t1.pages[z])
    requires SplitTo(t1, p, q, t2)
    ensures p != q && q != NO_PAGE && t2.max / 2 <= t2.pages[p].num && 0 < |t2.pages[q].keys|
    ensures p in t2.g && t2.root in t2.g && t2.g[t2.root].level <= t2.g[p].level + t0.g[t0.root].level
    ensures InsertClash(t0.pages, t0.root, k, t0.g[t0.root].level) <==>
            p != t2.root && EnterClash(t2.pages, t2.pages[p].parent, t2.pages[q].keys[0], t0.g[t0.root].level)
  {
    hide AllNodesOk, AllSizesOk, AllKidsOk, AllUpOk, NodeOk, MidKey, ContentsOk, ChainOk, InsertPairs, EnterClash;
    var n, h := t0.pages[p], t0.g[t0.root].level;
    PageFacts(t0, NO_PAGE, NO_PAGE, NO_PAGE, p);
    if p != t0.root {
      var pos := LowerBound(n.keys[..n.num], k);
      InsertPairSlots(n, pos, k, r);
      MidKeyIs(n, k, r, t1.pages[p]);
      SplitFirstKey(t1, p, q, t2);
      ParentFirstKey(t0, NO_PAGE, NO_PAGE, NO_PAGE, p);
      MidKeyAbove(n, t0.g[p], t0.max, t0.zero, t0.max - 1, k);
      assert AboveSame(t0.pages, t0.g, t0.g[p].level + 1, t2.pages);
      EnterClashFrame(t0, NO_PAGE, NO_PAGE, NO_PAGE, t2.pages, n.parent, MidKey(n, k), h);
    }
  }

  lemma SplitUpperHalf(t: Tree, p: int, q: int, t': Tree)
    requires SplitTo(t, p, q, t')
    ensures UpperHalf(t.pages[p], t'.pages[q])
  {
  }

  lemma LeafClashAt(t: Tree, p: int, k: Key)
    requires t.root in t.g && p == LeafFor(t.pages, t.root, k, t.g[t.root].level)
    ensures LeafClash(t.pages, t.root, k, t.g[t.root].level) ==>
              p in t.pages && t.pages[p].num < |t.pages[p].keys| && SlotClash(t.pages[p], k)
  {
  }

  lemma LeafEnds(t0: Tree, p: int, k: Key, t1: Tree)
    requires t0.root in t0.g && p == LeafFor(t0.pages, t0.root, k, t0.g[t0.root].level) && p in t0.pages
             && p in t1.pages
    requires Shaped(t0.pages[p], t0.max) && t0.pages[p].num < t0.max && t1.pages[p].num != t0.max
    requires k in t0.pages[p].keys[..t0.pages[p].num] || SlotClash(t0.pages[p], k)
             || t1.pages[p].num == t0.pages[p].num + 1
    ensures InsertClash(t0.pages, t0.root, k, t0.g[t0.root].level) <==> SlotClash(t0.pages[p], k)
    ensures SlotClash(t0.pages[p], k) ==> k !in t0.pages[p].keys[..t0.pages[p].num]
  {
    hide LeafFor, EnterClash;
    if SlotClash(t0.pages[p], k) {
      assert forall j :: 0 <= j < t0.pages[p].num ==> t0.pages[p].keys[..t0.pages[p].num][j] < k;
    }
  }

  lemma EnterDone(t: Tree, l: int, r: int, y: int, i: nat, t': Tree, leaves: seq<int>, first: int, last: int,
                  m: map<Key, Rid>)
    requires IndexOk(t, leaves, first, last, m, NO_PAGE, l, r, NO_PAGE) && EnterReady(t, l, r, y, i)
             && Entered(t, y, i, r, t')
    ensures IndexOk(t', leaves, first, last, m, y, NO_PAGE, NO_PAGE, NO_PAGE)
  {
    hide ChainOk, ContentsOk, AllNodesOk, AllSizesOk, AllKidsOk, AllUpOk;
    EnterSibling(t, l, r, y, i, t');
    LeavesFrame(t, t', leaves, first, last, m);
  }

  lemma RootPairs(b: Node, zero: Key, k0: Key, r0: Rid, k1: Key, r1: Rid, n: Node)
    requires b.num == 0 && 4 <= |b.keys| == |b.rids| && forall i :: 0 <= i < |b.keys| ==> b.keys[i] == zero
    requires n == InsertPairs(InsertPairs(b, 0, [k0], [r0]), 1, [k1], [r1])
    ensures Shaped(n, |b.keys|) && n.num == 2 && n.keys[0] == k0 && n.keys[1] == k1 && n.rids[0] == r0
            && n.rids[1] == r1
    ensures n.parent == b.parent && n.isLeaf == b.isLeaf && forall i :: 2 <= i < |b.keys| ==> n.keys[i] == zero
  {
    hide InsertPairs;
    InsertPairSlots(b, 0, k0, r0);
    InsertPairSlots(InsertPairs(b, 0, [k0], [r0]), 1, k1, r1);
  }

  lemma RootPages(t: Tree, l: int, r: int, q: int, n: Node, t': Tree)
    requires l in t.pages && r in t.pages && l in t.g && l != r && q !in t.pages && q != NO_PAGE && 4 <= t.max
    requires 0 < |t.pages[l].keys| && 0 < |t.pages[r].keys| && Shaped(n, t.max) && n.num == 2 && n.parent == NO_PAGE
             && !n.isLeaf
    requires n.keys[0] == t.pages[l].keys[0] && n.keys[1] == t.pages[r].keys[0] && n.rids[0] == Rid(l, -1)
             && n.rids[1] == Rid(r, -1)
    requires forall i :: 2 <= i < t.max ==> n.keys[i] == t.zero
    requires t'.pages == t.pages[q := n][l := t.pages[l].(parent := q)][r := t.pages[r].(parent := q)]
    requires t' == Tree(t'.pages, t.g[q := Info(t.g[l].level + 1, NegInf, PosInf)], q, t.max, t.zero)
    ensures Rooted(t, l, r, q, t')
  {
  }

  lemma RootDone(t: Tree, l: int, r: int, q: int, t': Tree, leaves: seq<int>, first: int, last: int, m: map<Key, Rid>)
    requires IndexOk(t, leaves, first, last, m, NO_PAGE, l, r, NO_PAGE) && l == t.root && r != NO_PAGE
             && Rooted(t, l, r, q, t')
    requires t.max / 2 <= t.pages[l].num && t'.pages.Keys == t.pages.Keys + {q}
    ensures IndexOk(t', leaves, first, last, m, NO_PAGE, NO_PAGE, NO_PAGE, NO_PAGE)
  {
    hide ChainOk, ContentsOk, AllNodesOk, AllSizesOk, AllKidsOk, AllUpOk;
    GrowRoot(t, l, r, q, t');
    LeavesFrame(t, t', leaves, first, last, m);
  }

  // ---------- whole runs ----------

  /** The map after a run of insertions. */
  function RunWins(m: map<Key, Rid>, es: seq<(Key, Rid)>): map<Key, Rid> {
    if es == [] then m else FirstWins(RunWins(m, es[..|es|-1]), es[|es|-1].0, es[|es|-1].1)
  }

  /** Step `i` is the first that gives key `k`. */
  ghost predicate FirstGiven(es: seq<(Key, Rid)>, k: Key, i: int) {
    0 <= i < |es| && es[i].0 == k && forall j :: 0 <= j < i ==> es[j].0 != k
  }

  /** From the empty map, a run leaves under each key the value of its first occurrence. */
  lemma {:induction false} RunWinsFirst(es: seq<(Key, Rid)>, k: Key)
    ensures k in RunWins(map[], es) <==> exists i :: 0 <= i < |es| && es[i].0 == k
    ensures forall i :: FirstGiven(es, k, i) ==> k in RunWins(map[], es) && RunWins(map[], es)[k] == es[i].1
  {
    if es != [] {
      var es', last := es[..|es|-1], es[|es|-1];
      RunWinsFirst(es', k);
      var m, m' := RunWins(map[], es), RunWins(map[], es');
      assert m == FirstWins(m', last.0, last.1);
      hide RunWins;
      if k in m' {
        var i :| 0 <= i < |es'| && es'[i].0 == k;
        assert es[i].0 == k;
      }
      forall i | FirstGiven(es, k, i) ensures k in m && m[k] == es[i].1 {
        if i < |es'| { assert FirstGiven(es', k, i); }
      }
    }
  }

  /** The pages of an index at one time. */
  datatype Snapshot = Snapshot(pages: Pages, root: int, height: nat)

  /** Every search answers as the map. */
  ghost predicate Says(s: Snapshot, m: map<Key, Rid>) {
    forall z :: Find(s.pages, s.root, z, s.height) == Get(m, z)
  }

  ghost predicate Clashes(s: Snapshot, k: Key) { InsertClash(s.pages, s.root, k, s.height) }

  /** Before each of the first `n` steps, and after them, every search answers as the run so far says; none clashes. */
  ghost predicate RightSoFar(before: seq<Snapshot>, es: seq<(Key, Rid)>, n: nat) {
    && |before| == n + 1 && n <= |es|
    && (forall i :: 0 <= i <= n ==> Says(before[i], RunWins(map[], es[..i])))
    && (forall i :: 0 <= i < n ==> !Clashes(before[i], es[i].0))
  }

  lemma RightStep(before: seq<Snapshot>, es: seq<(Key, Rid)>, n: nat, s: Snapshot)
    requires RightSoFar(before, es, n) && n < |es| && !Clashes(before[n], es[n].0) && Says(s, RunWins(map[], es[..n+1]))
    ensures RightSoFar(before + [s], es, n + 1)
  {
  }

  /** Every run of insertions from a fresh index, with the pages before each step. Up to the first step that meets a
      clash, number `n`, every search answers with the first value given for its key; after it some key given is not
      found. Without a clash the index ends valid. No run without the zero key meets a clash, and none without keys
      below the zero key. */
  method BuildIndex(order: nat, zero: Key, es: seq<(Key, Rid)>)
      returns (ix: IxIndexHandle, n: nat, ghost before: seq<Snapshot>)
    requires 2 < order
    ensures fresh(ix) && n <= |es| && ix.root in ix.g && RightSoFar(before, es, n)
    ensures n == |es| ==> ix.Valid() && ix.contents == RunWins(map[], es)
    ensures n < |es| ==> Clashes(before[n], es[n].0) && Lost(ix.pages, ix.root, ix.Height(), RunWins(map[], es[..n+1]))
    ensures (forall i :: 0 <= i < |es| ==> es[i].0 != zero) ==> n == |es|
    ensures (forall i :: 0 <= i < |es| ==> zero <= es[i].0) ==> n == |es|
  {
    hide IndexOk, InsertClash, Find, Lost, Says, IxIndexHandle.Valid, Harmless, LeafClash, NodeInsert, UpperHalf,
         LeafFor, Shaped;
    ix := new IxIndexHandle(order, zero);
    n := 0;
    assert es[..0] == [];
    ix.SaysContents();
    before := [ix.Now()];
    while n < |es|
      invariant 0 <= n <= |es| && fresh(ix) && ix.Valid() && ix.contents == RunWins(map[], es[..n]) && ix.zero == zero
      invariant RightSoFar(before, es, n) && ix.root in ix.g && before[n] == ix.Now()
    {
      assert es[..n+1][..n] == es[..n];
      RunHarmless(es, n, zero);
      var clash := ix.MeetsClash(es[n].0);
      if Harmless(ix.contents, zero, es[n].0) { ix.NoClash(es[n].0); }
      var p := ix.InsertEntry(es[n].0, es[n].1);
      if clash { return; }
      ix.SaysContents();
      RightStep(before, es, n, ix.Now());
      before := before + [ix.Now()];
      n := n + 1;
    }
    assert es[..n] == es;
  }

  /** While a run has no zero key, or no keys below it, its next key is harmless. */
  lemma RunHarmless(es: seq<(Key, Rid)>, n: nat, zero: Key)
    requires n < |es|
    ensures (forall i :: 0 <= i < |es| ==> es[i].0 != zero) || (forall i :: 0 <= i < |es| ==> zero <= es[i].0) ==>
              Harmless(RunWins(map[], es[..n]), zero, es[n].0)
  {
    forall z | z in RunWins(map[], es[..n]) ensures exists i :: 0 <= i < |es| && es[i].0 == z {
      RunWinsFirst(es[..n], z);
      var i :| 0 <= i < n && es[..n][i].0 == z;
      assert es[i].0 == z;
    }
  }

  /** In an index of any order: a key below the zero key, and then the zero key. The second insertion is dropped, and
      the zero key is not found. */
  method ClashRun(order: nat, zero: Key, k: Key, r: Rid, r': Rid) returns (ix: IxIndexHandle, v: Option<Rid>)
    requires 2 < order && k < zero
    ensures fresh(ix) && ix.Valid() && ix.contents == map[k := r] && v == None
    ensures RunWins(map[], [(k, r), (zero, r')]) == map[k := r, zero := r']
  {
    hide IndexOk, InsertClash, LeafClash, Find;
    ix := new IxIndexHandle(order, zero);
    ix.NoClash(k);
    var _ := ix.InsertEntry(k, r);
    ix.DropsZero(k);
    var _ := ix.InsertEntry(zero, r');
    v := ix.GetValue(zero);
    TwoSteps(k, r, zero, r');
  }

  lemma TwoSteps(k: Key, r: Rid, z: Key, r': Rid)
    requires k != z
    ensures RunWins(map[], [(k, r), (z, r')]) == map[k := r, z := r']
  {
    var none: seq<(Key, Rid)> := [];
    var one, two := [(k, r)], [(k, r), (z, r')];
    assert two[..|two|-1] == one && one[..|one|-1] == none && RunWins(map[], none) == map[];
    assert RunWins(map[], one) == map[k := r];
  }
}
