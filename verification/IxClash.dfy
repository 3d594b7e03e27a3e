/** When a left-over slot makes an insertion go wrong: the exact condition, read off the index before
    the call, why only the zero key can meet it, and what is lost when it is met. */
module IxClash {
  import opened Wrappers
  import opened IxNode
  import opened IxTree
  import opened IxLeaves

  /** The key that a page with one free slot hands to its parent once `k` has filled it. */
  function MidKey(n: Node, k: Key): Key
    requires 4 <= |n.keys| && n.num + 1 == |n.keys|
  {
    var pos := LowerBound(n.keys[..n.num], k);
    var mid := |n.keys| / 2;
    if mid < pos then n.keys[mid] else if mid == pos then k else n.keys[mid-1]
  }

  lemma MidKeyIs(n: Node, k: Key, r: Rid, m: Node)
    requires 4 <= |n.keys| && n.num + 1 == |n.keys| && PairAdded(n, LowerBound(n.keys[..n.num], k), k, r, m)
    ensures m.keys[|m.keys| / 2] == MidKey(n, k)
  {
  }

  /** Entering separator `sep` in page `y`, and the separators this sends further up, meets a slot
      clash somewhere. */
  predicate EnterClash(pages: Pages, y: int, sep: Key, fuel: nat)
    decreases fuel
  {
    y in pages && pages[y].num < |pages[y].keys| &&
    var n := pages[y];
    SlotClash(n, sep) ||
    (fuel > 0 && 4 <= |n.keys| && n.num + 1 == |n.keys| && n.parent != NO_PAGE &&
     EnterClash(pages, n.parent, MidKey(n, sep), fuel - 1))
  }

  /** Inserting `k` meets a slot clash, in its leaf or on the way up. */
  predicate InsertClash(pages: Pages, root: int, k: Key, height: nat) {
    var p := LeafFor(pages, root, k, height);
    p in pages && pages[p].num < |pages[p].keys| &&
    var n := pages[p];
    k !in n.keys[..n.num] &&
    (SlotClash(n, k) ||
     (4 <= |n.keys| && n.num + 1 == |n.keys| && n.parent != NO_PAGE
      && EnterClash(pages, n.parent, MidKey(n, k), height)))
  }

  /** Inserting `k` meets a slot clash in its leaf. */
  predicate LeafClash(pages: Pages, root: int, k: Key, height: nat) {
    var p := LeafFor(pages, root, k, height);
    p in pages && pages[p].num < |pages[p].keys| && SlotClash(pages[p], k)
  }

  // ---------- the condition does not depend on pages below, nor on first keys ----------

  ghost predicate LoweredFirst(n: Node, n': Node) {
    && n' == n.(keys := n'.keys) && |n'.keys| == |n.keys|
    && (forall j :: 1 <= j < |n.keys| ==> n'.keys[j] == n.keys[j])
    && (0 < |n.keys| ==> n'.keys[0] <= n.keys[0])
  }

  ghost predicate AboveSame(pages: Pages, g: Infos, level: int, pages': Pages) {
    forall z :: z in pages && z in g && g[z].level >= level ==> z in pages' && LoweredFirst(pages[z], pages'[z])
  }

  lemma ClashSlotFrame(n: Node, n': Node, sep: Key)
    requires LoweredFirst(n, n') && 1 <= n.num < |n.keys| && n.keys[0] < sep
    ensures LowerBound(n'.keys[..n.num], sep) == LowerBound(n.keys[..n.num], sep)
    ensures SlotClash(n', sep) == SlotClash(n, sep)
    ensures 4 <= |n.keys| && n.num + 1 == |n.keys| ==> MidKey(n', sep) == MidKey(n, sep)
  {
    var pos := LowerBound(n.keys[..n.num], sep);
    assert pos >= 1;
    LowerBoundUnique(n'.keys[..n.num], sep, pos);
  }

  lemma MidKeyAbove(n: Node, x: Info, max: nat, zero: Key, cap: int, k: Key)
    requires NodeOk(n, x, max, zero, cap) && 4 <= max && n.num + 1 == max && Within(k, x)
    ensures n.keys[0] < MidKey(n, k) && Within(MidKey(n, k), x)
            && (MidKey(n, k) == k || SlotIs(n, max / 2, MidKey(n, k)) || SlotIs(n, max / 2 - 1, MidKey(n, k)))
  {
    var pos := LowerBound(n.keys[..n.num], k);
    assert pos < n.num ==> n.keys[..n.num][pos] == n.keys[pos];
  }

  /** The parent of an inner page and its first key. */
  lemma ParentFirstKey(t: Tree, over: int, l: int, r: int, y: int)
    requires TreeOk(t, over, l, r, NO_PAGE) && y in t.pages && y != t.root
             && (r != NO_PAGE ==> t.g[y].level > t.g[r].level)
    ensures var z := t.pages[y].parent;
            z in t.pages && z != NO_PAGE && !t.pages[z].isLeaf && t.g[z].level == t.g[y].level + 1
              && 0 < t.pages[z].num <= |t.pages[z].keys|
            && 0 < t.pages[y].num <= |t.pages[y].keys| && t.pages[z].keys[0] <= t.pages[y].keys[0]
            && (forall k :: Within(k, t.g[y]) ==> Within(k, t.g[z]))
  {
    assert UpOk(t.pages, t.g, t.root, l, r, y);
    var z := t.pages[y].parent;
    var i :| IsKid(t.pages, z, i, y);
    if r != NO_PAGE { assert UpOk(t.pages, t.g, t.root, l, r, r); }
    assert KidsOk(t.pages, t.g, z, l, r, NO_PAGE) && KidOk(t.pages, t.g, z, i, l, r, NO_PAGE);
    assert NodeOk(t.pages[z], t.g[z], t.max, t.zero, if z == over then t.max else t.max - 1);
    assert Within(t.pages[z].keys[i], t.g[z]);
    assert i + 1 < t.pages[z].num ==> Within(t.pages[z].keys[i+1], t.g[z]);
  }

  lemma {:induction false} EnterClashFrame(t: Tree, over: int, l: int, r: int, pages': Pages, y: int, sep: Key,
                                           fuel: nat)
    requires TreeOk(t, over, l, r, NO_PAGE) && y in t.pages && !t.pages[y].isLeaf && y != over
    requires r != NO_PAGE ==> t.g[y].level > t.g[r].level
    requires over != NO_PAGE && over in t.g ==> t.g[y].level > t.g[over].level
    requires AboveSame(t.pages, t.g, t.g[y].level, pages') && t.pages[y].keys[0] < sep && Within(sep, t.g[y])
    ensures EnterClash(pages', y, sep, fuel) == EnterClash(t.pages, y, sep, fuel)
    decreases fuel
  {
    var n, n' := t.pages[y], pages'[y];
    assert NodeOk(n, t.g[y], t.max, t.zero, if y == over then t.max else t.max - 1) && SizeOk(n, y == t.root, t.max);
    ClashSlotFrame(n, n', sep);
    if fuel > 0 && n.num + 1 == |n.keys| && n.parent != NO_PAGE {
      assert UpOk(t.pages, t.g, t.root, l, r, t.root);
      ParentFirstKey(t, over, l, r, y);
      MidKeyAbove(n, t.g[y], t.max, t.zero, t.max - 1, sep);
      EnterClashFrame(t, over, l, r, pages', n.parent, MidKey(n, sep), fuel - 1);
    }
  }

  // ---------- only the zero key clashes ----------

  lemma ClashIsZero(n: Node, x: Info, max: nat, zero: Key, k: Key)
    requires NodeOk(n, x, max, zero, max - 1) && Within(k, x) && SlotClash(n, k)
    ensures k == zero
  {
  }

  /** Every key in the tree, separators included, is a key of the stored map. */
  lemma {:induction false} KeysStored(t: Tree, over: int, l: int, r: int, m: map<Key, Rid>, p: int, i: nat)
    requires TreeOk(t, over, l, r, NO_PAGE) && ContentsOk(t, m) && p in t.pages && i < t.pages[p].num
    ensures t.pages[p].keys[i] in m
    decreases t.g[p].level
  {
    assert NodeOk(t.pages[p], t.g[p], t.max, t.zero, if p == over then t.max else t.max - 1);
    if t.pages[p].isLeaf {
      assert LeafHolds(t.pages[p], t.g[p], m);
    } else {
      assert KidsOk(t.pages, t.g, p, l, r, NO_PAGE) && KidOk(t.pages, t.g, p, i, l, r, NO_PAGE);
      KeysStored(t, over, l, r, m, t.pages[p].rids[i].pageNo, 0);
    }
  }

  /** Neither the stored keys nor `k` can lead to a clash: the zero key is not among them, or no stored key is
      below it. */
  ghost predicate Harmless(m: map<Key, Rid>, zero: Key, k: Key) {
    (zero !in m && k != zero) || forall z :: z in m ==> zero <= z
  }

  lemma HarmlessNode(t: Tree, m: map<Key, Rid>, y: int, sep: Key)
    requires Settled(t) && ContentsOk(t, m) && Harmless(m, t.zero, sep) && y in t.pages && Within(sep, t.g[y])
    ensures t.pages[y].num < |t.pages[y].keys| && !SlotClash(t.pages[y], sep)
  {
    var n := t.pages[y];
    OkAt(t, NO_PAGE, NO_PAGE, NO_PAGE, NO_PAGE, y);
    if SlotClash(n, sep) {
      ClashIsZero(n, t.g[y], t.max, t.zero, sep);
      KeysStored(t, NO_PAGE, NO_PAGE, NO_PAGE, m, y, 0);
    }
  }

  lemma HarmlessUp(t: Tree, m: map<Key, Rid>, y: int, sep: Key)
    requires Settled(t) && ContentsOk(t, m) && Harmless(m, t.zero, sep) && y in t.pages && y != t.root
             && Within(sep, t.g[y])
    requires t.pages[y].num + 1 == t.max
    ensures var z := t.pages[y].parent; var up := MidKey(t.pages[y], sep);
            Harmless(m, t.zero, up) && z in t.pages && z in t.g && !t.pages[z].isLeaf && Within(up, t.g[z])
  {
    var n := t.pages[y];
    OkAt(t, NO_PAGE, NO_PAGE, NO_PAGE, NO_PAGE, y);
    ParentFirstKey(t, NO_PAGE, NO_PAGE, NO_PAGE, y);
    MidKeyAbove(n, t.g[y], t.max, t.zero, t.max - 1, sep);
    if MidKey(n, sep) != sep {
      KeysStored(t, NO_PAGE, NO_PAGE, NO_PAGE, m, y, t.max / 2 - 1);
      if t.max / 2 < n.num { KeysStored(t, NO_PAGE, NO_PAGE, NO_PAGE, m, y, t.max / 2); }
    }
  }

  lemma {:induction false} EnterNoClash(t: Tree, m: map<Key, Rid>, y: int, sep: Key, fuel: nat)
    requires Settled(t) && ContentsOk(t, m) && Harmless(m, t.zero, sep) && y in t.pages && Within(sep, t.g[y])
    ensures !EnterClash(t.pages, y, sep, fuel)
    decreases fuel
  {
    hide AllNodesOk, AllSizesOk, AllKidsOk, AllUpOk, ContentsOk, Harmless, SlotClash;
    var n := t.pages[y];
    HarmlessNode(t, m, y, sep);
    PageFacts(t, NO_PAGE, NO_PAGE, NO_PAGE, y);
    if fuel > 0 && n.num + 1 == |n.keys| && n.parent != NO_PAGE {
      HarmlessUp(t, m, y, sep);
      EnterNoClash(t, m, n.parent, MidKey(n, sep), fuel - 1);
    }
  }

  /** An index without the zero key inserts every other key without a clash, and an index without keys below the
      zero key inserts every key. */
  lemma InsertNoClash(t: Tree, m: map<Key, Rid>, k: Key)
    requires Settled(t) && ContentsOk(t, m) && Harmless(m, t.zero, k)
    ensures !InsertClash(t.pages, t.root, k, t.g[t.root].level)
  {
    hide AllNodesOk, AllSizesOk, AllKidsOk, ContentsOk, Harmless, SlotClash;
    OkAt(t, NO_PAGE, NO_PAGE, NO_PAGE, NO_PAGE, t.root);
    LeafForIs(t, NO_PAGE, NO_PAGE, t.root, k);
    var p := LeafFor(t.pages, t.root, k, t.g[t.root].level);
    var n := t.pages[p];
    HarmlessNode(t, m, p, k);
    PageFacts(t, NO_PAGE, NO_PAGE, NO_PAGE, p);
    if n.num + 1 == |n.keys| && n.parent != NO_PAGE {
      HarmlessUp(t, m, p, k);
      EnterNoClash(t, m, n.parent, MidKey(n, k), t.g[t.root].level);
    }
  }

  // ---------- what a clash loses ----------

  /** The slot through which page `z` sends the search for a key of child `x`. */
  lemma ChildForIs(t: Tree, l: int, r: int, z: int, i: nat, x: int, k: Key)
    requires TreeOk(t, NO_PAGE, l, r, NO_PAGE) && IsKid(t.pages, z, i, x) && x in t.g && (x == l ==> r in t.g)
    requires AtLeast(k, t.g[x].lo) && Below(k, SpanHi(t.g, x, l, r))
    ensures Descends(t.pages[z], k) && ChildFor(t.pages[z], k) == x
  {
    hide AllNodesOk, AllSizesOk, AllKidsOk, AllUpOk, RootHighest;
    var n := t.pages[z];
    OkAt(t, NO_PAGE, l, r, NO_PAGE, z);
    KidAt(t, NO_PAGE, l, r, NO_PAGE, z, i);
    UpperBoundUnique(n.keys[..n.num], k, i + 1);
  }

  /** The descent from the root for a key in the span of `x` passes through `x`. */
  lemma {:induction false} PassThrough(t: Tree, l: int, r: int, x: int, k: Key)
    requires TreeOk(t, NO_PAGE, l, r, NO_PAGE) && r != NO_PAGE && x in t.pages && x != r && t.g[x].level >= t.g[l].level
    requires AtLeast(k, t.g[x].lo) && Below(k, SpanHi(t.g, x, l, r))
    ensures LeafFor(t.pages, t.root, k, t.g[t.root].level) == LeafFor(t.pages, x, k, t.g[x].level)
    decreases t.g[t.root].level - t.g[x].level
  {
    if x != t.root {
      hide AllNodesOk, AllSizesOk, AllKidsOk, AllUpOk;
      OkAt(t, NO_PAGE, l, r, NO_PAGE, x);
      OkAt(t, NO_PAGE, l, r, NO_PAGE, r);
      var z := t.pages[x].parent;
      var i :| IsKid(t.pages, z, i, x);
      SpanWithin(t, l, r, z, i, x, k);
      ChildForIs(t, l, r, z, i, x, k);
      LeafForStep(t.pages, z, k, t.g[z].level);
      PassThrough(t, l, r, z, k);
    }
  }

  lemma SpanWithin(t: Tree, l: int, r: int, z: int, i: nat, x: int, k: Key)
    requires TreeOk(t, NO_PAGE, l, r, NO_PAGE) && IsKid(t.pages, z, i, x) && x in t.g && (x == l ==> r in t.g)
    requires AtLeast(k, t.g[x].lo) && Below(k, SpanHi(t.g, x, l, r))
    ensures Within(k, t.g[z]) && t.g[z].level == t.g[x].level + 1
  {
    var n := t.pages[z];
    assert NodeOk(n, t.g[z], t.max, t.zero, if z == NO_PAGE then t.max else t.max - 1);
    assert KidsOk(t.pages, t.g, z, l, r, NO_PAGE) && KidOk(t.pages, t.g, z, i, l, r, NO_PAGE);
    assert Within(n.keys[i], t.g[z]);
    assert i + 1 < n.num ==> Within(n.keys[i+1], t.g[z]);
  }

  lemma PastNode(n: Node, x: Info, max: nat, zero: Key, cap: int, k: Key)
    requires NodeOk(n, x, max, zero, cap) && !Below(k, x.hi)
    ensures LowerBound(n.keys[..n.num], k) == n.num
    ensures !n.isLeaf && 1 <= n.num ==> Descends(n, k) && ChildFor(n, k) == n.rids[n.num - 1].pageNo
  {
    assert forall j :: 0 <= j < n.num ==> Within(n.keys[j], x) && n.keys[..n.num][j] < k;
    LowerBoundUnique(n.keys[..n.num], k, n.num);
    if 1 <= n.num { UpperBoundUnique(n.keys[..n.num], k, n.num); }
  }

  lemma PastStep(t: Tree, l: int, r: int, x: int, k: Key)
    requires TreeOk(t, NO_PAGE, l, r, NO_PAGE) && r != NO_PAGE && x in t.pages && t.g[x].level <= t.g[l].level
    requires !Below(k, t.g[x].hi) && !t.pages[x].isLeaf
    ensures Descends(t.pages[x], k)
    ensures var c := ChildFor(t.pages[x], k); c in t.pages && t.g[c].level + 1 == t.g[x].level && t.g[c].hi == t.g[x].hi
  {
    var n := t.pages[x];
    assert NodeOk(n, t.g[x], t.max, t.zero, if x == NO_PAGE then t.max else t.max - 1) && SizeOk(n, x == t.root, t.max);
    PastNode(n, t.g[x], t.max, t.zero, t.max - 1, k);
    assert KidsOk(t.pages, t.g, x, l, r, NO_PAGE) && KidOk(t.pages, t.g, x, n.num - 1, l, r, NO_PAGE);
  }

  /** Below the split page, a search for a key past a page's interval stays past the interval. */
  lemma {:induction false} StaysPast(t: Tree, l: int, r: int, x: int, k: Key)
    requires TreeOk(t, NO_PAGE, l, r, NO_PAGE) && r != NO_PAGE && x in t.pages && t.g[x].level <= t.g[l].level
    requires !Below(k, t.g[x].hi)
    ensures var q := LeafFor(t.pages, x, k, t.g[x].level); q in t.pages && t.pages[q].isLeaf && !Below(k, t.g[q].hi)
    decreases t.g[x].level
  {
    hide AllNodesOk, AllSizesOk, AllKidsOk, AllUpOk, RootHighest;
    OkAt(t, NO_PAGE, l, r, NO_PAGE, x);
    if !t.pages[x].isLeaf {
      PastStep(t, l, r, x, k);
      LeafForStep(t.pages, x, k, t.g[x].level);
      StaysPast(t, l, r, ChildFor(t.pages[x], k), k);
    }
  }

  /** If the separator of a split is not entered in the parent, a search for it fails although it is
      stored. */
  lemma SeparatorLost(t: Tree, m: map<Key, Rid>, l: int, r: int)
    requires TreeOk(t, NO_PAGE, l, r, NO_PAGE) && ContentsOk(t, m) && r != NO_PAGE
    ensures 0 < |t.pages[r].keys| && t.pages[r].keys[0] in m
    ensures Find(t.pages, t.root, t.pages[r].keys[0], t.g[t.root].level) == None
  {
    assert UpOk(t.pages, t.g, t.root, l, r, r);
    assert NodeOk(t.pages[r], t.g[r], t.max, t.zero, if r == NO_PAGE then t.max else t.max - 1);
    assert NodeOk(t.pages[l], t.g[l], t.max, t.zero, if l == NO_PAGE then t.max else t.max - 1)
           && SizeOk(t.pages[l], l == t.root, t.max);
    KeysStored(t, NO_PAGE, l, r, m, r, 0);
    var sep := t.pages[r].keys[0];
    assert Within(sep, t.g[r]);
    var x := Inhabited(t, NO_PAGE, l, r, NO_PAGE, l);
    PassThrough(t, l, r, l, sep);
    StaysPast(t, l, r, l, sep);
    var q := LeafFor(t.pages, l, sep, t.g[l].level);
    PastNode(t.pages[q], t.g[q], t.max, t.zero, t.max - 1, sep);
  }

  // ---------- the condition one level up ----------

  lemma PageFacts(t: Tree, over: int, l: int, r: int, y: int)
    requires TreeOk(t, over, l, r, NO_PAGE) && y in t.pages && y != over
    ensures NodeOk(t.pages[y], t.g[y], t.max, t.zero, t.max - 1) && Shaped(t.pages[y], t.max)
    ensures y == t.root ==> t.pages[y].parent == NO_PAGE
  {
    assert NodeOk(t.pages[y], t.g[y], t.max, t.zero, if y == over then t.max else t.max - 1);
    assert UpOk(t.pages, t.g, t.root, l, r, t.root);
  }

  lemma SplitFirstKey(t: Tree, p: int, q: int, t': Tree)
    requires SplitTo(t, p, q, t')
    ensures 0 < |t'.pages[q].keys| && t'.pages[q].keys[0] == t.pages[p].keys[|t.pages[p].keys| / 2]
    ensures t'.pages[p].parent == t.pages[p].parent && t'.root == t.root && t.pages[p].num == |t.pages[p].keys|
  {
  }

  lemma EnterClashUp(pages: Pages, y: int, sep: Key, fuel: nat)
    requires y in pages && 4 <= |pages[y].keys| && pages[y].num + 1 == |pages[y].keys| && !SlotClash(pages[y], sep)
    ensures EnterClash(pages, y, sep, fuel) <==>
            fuel > 0 && pages[y].parent != NO_PAGE
              && EnterClash(pages, pages[y].parent, MidKey(pages[y], sep), fuel - 1)
  {
  }

  lemma AboveKept(t0: Tree, y: int, t1: Tree, z: int, t2: Tree)
    requires TreeOk(t1, y, NO_PAGE, NO_PAGE, NO_PAGE) && OnePage(t0, y, t1) && SplitTo(t1, y, z, t2)
    ensures AboveSame(t0.pages, t0.g, t1.g[y].level + 1, t2.pages)
  {
    forall w | w in t0.pages && w in t0.g && t0.g[w].level >= t1.g[y].level + 1
      ensures w in t2.pages && LoweredFirst(t0.pages[w], t2.pages[w])
    {
      if RightKid(t1.pages[y], t1.max / 2, w) {
        RightKidParent(t1, y, w);
      }
      assert t2.pages[w] == t0.pages[w];
    }
  }

  /** After the parent `y` took the separator and was split in turn, the condition for the rest of
      the way is the one the original pages determined. */
  lemma CascadeStep(t0: Tree, l: int, r: int, y: int, sep: Key, t1: Tree, z: int, t2: Tree, fuel: nat)
    requires TreeOk(t0, NO_PAGE, l, r, NO_PAGE) && r != NO_PAGE && y in t0.pages && !t0.pages[y].isLeaf
             && t0.g[y].level > t0.g[r].level
    requires t0.pages[y].keys[0] < sep && Within(sep, t0.g[y]) && !SlotClash(t0.pages[y], sep)
    requires TreeOk(t1, y, NO_PAGE, NO_PAGE, NO_PAGE) && OnePage(t0, y, t1) && SplitTo(t1, y, z, t2)
    requires PairAdded(t0.pages[y], LowerBound(t0.pages[y].keys[..t0.pages[y].num], sep), sep, Rid(r, -1), t1.pages[y])
    requires y != t0.root ==> fuel > 0
    ensures EnterClash(t0.pages, y, sep, fuel) <==>
            y != t2.root && EnterClash(t2.pages, t2.pages[y].parent, t2.pages[z].keys[0], fuel - 1)
  {
    hide AllNodesOk, AllSizesOk, AllKidsOk, AllUpOk, NodeOk, MidKey;
    var n := t0.pages[y];
    PageFacts(t0, NO_PAGE, l, r, y);
    if y != t0.root {
      MidKeyIs(n, sep, Rid(r, -1), t1.pages[y]);
      SplitFirstKey(t1, y, z, t2);
      ParentFirstKey(t0, NO_PAGE, l, r, y);
      MidKeyAbove(n, t0.g[y], t0.max, t0.zero, t0.max - 1, sep);
      AboveKept(t0, y, t1, z, t2);
      assert n.parent == t1.pages[y].parent;
      EnterClashUp(t0.pages, y, sep, fuel);
      EnterClashFrame(t0, NO_PAGE, l, r, t2.pages, n.parent, MidKey(n, sep), fuel - 1);
    }
  }

  // ---------- indexes that meet the condition ----------

  /** Inserting the zero key clashes whenever it belongs behind the last key of the last leaf: the next slot there has
      never held a key and reads as zero. */
  lemma RightmostClash(t: Tree, p: int)
    requires Settled(t) && p == LeafFor(t.pages, t.root, t.zero, t.g[t.root].level) && p in t.pages
             && t.g[p].hi == PosInf
    requires 0 < t.pages[p].num && forall i :: 0 <= i < t.pages[p].num ==>
               i < |t.pages[p].keys| && t.pages[p].keys[i] < t.zero
    ensures LeafClash(t.pages, t.root, t.zero, t.g[t.root].level)
            && InsertClash(t.pages, t.root, t.zero, t.g[t.root].level)
  {
    var n := t.pages[p];
    OkAt(t, NO_PAGE, NO_PAGE, NO_PAGE, NO_PAGE, p);
    assert forall i :: 0 <= i < n.num ==> n.keys[..n.num][i] == n.keys[i];
    LowerBoundUnique(n.keys[..n.num], t.zero, n.num);
  }

  /** This is so in every index that holds keys, all of them below the zero key. */
  lemma BelowZeroClash(t: Tree, leaves: seq<int>, first: int, last: int, m: map<Key, Rid>, k: Key)
    requires Settled(t) && ChainOk(t, leaves, first, last) && ContentsOk(t, m) && k in m
             && forall z :: z in m ==> z < t.zero
    ensures LeafClash(t.pages, t.root, t.zero, t.g[t.root].level)
            && InsertClash(t.pages, t.root, t.zero, t.g[t.root].level)
  {
    hide AllNodesOk, AllSizesOk, AllKidsOk, AllUpOk, ContentsOk, LeafFor, InsertClash, LeafClash;
    OkAt(t, NO_PAGE, NO_PAGE, NO_PAGE, NO_PAGE, t.root);
    LeafForIs(t, NO_PAGE, NO_PAGE, t.root, t.zero);
    var p, e := LeafFor(t.pages, t.root, t.zero, t.g[t.root].level), |leaves| - 1;
    var i :| 0 <= i < |leaves| && leaves[i] == p;
    GreatestEntry(t, leaves, first, last, m, k);
    var n := t.pages[last];
    LeafFacts(t, leaves, first, last, m, e, n.num - 1);
    if i < e { IntervalsOrdered(t, leaves, first, last, NO_PAGE, NO_PAGE, NO_PAGE, NO_PAGE, i, e, n.keys[n.num-1]); }
    forall j | 0 <= j < n.num ensures n.keys[j] < t.zero { LeafFacts(t, leaves, first, last, m, e, j); }
    RightmostClash(t, p);
  }

  /** A clash above the leaves: `k` fills the last leaf so that the zero key is its middle one, and is to be entered in
      the parent, behind all keys there. */
  lemma SeparatorClash(t: Tree, p: int, k: Key)
    requires Settled(t) && p == LeafFor(t.pages, t.root, k, t.g[t.root].level) && p in t.pages && t.g[p].hi == PosInf
             && p != t.root
    requires Within(k, t.g[p]) && k != t.zero && t.pages[p].num + 1 == t.max == |t.pages[p].keys|
    requires k !in t.pages[p].keys[..t.pages[p].num] && MidKey(t.pages[p], k) == t.zero
    ensures InsertClash(t.pages, t.root, k, t.g[t.root].level) && !LeafClash(t.pages, t.root, k, t.g[t.root].level)
  {
    hide AllNodesOk, AllSizesOk, AllKidsOk, AllUpOk, MidKey, LeafFor;
    var n := t.pages[p];
    OkAt(t, NO_PAGE, NO_PAGE, NO_PAGE, NO_PAGE, p);
    assert !SlotClash(n, k);
    MidKeyAbove(n, t.g[p], t.max, t.zero, t.max - 1, k);
    var y := n.parent;
    var i :| IsKid(t.pages, y, i, p);
    KidAt(t, NO_PAGE, NO_PAGE, NO_PAGE, NO_PAGE, y, i);
    OkAt(t, NO_PAGE, NO_PAGE, NO_PAGE, NO_PAGE, y);
    LastSlotClash(t.pages[y], t.g[y], t.max, t.zero, i);
  }

  lemma LastSlotClash(n: Node, x: Info, max: nat, zero: Key, i: nat)
    requires NodeOk(n, x, max, zero, max - 1) && x.hi == PosInf && i + 1 == n.num && n.keys[i] < zero
    ensures SlotClash(n, zero)
  {
    assert forall j :: 0 <= j < n.num ==> n.keys[..n.num][j] == n.keys[j];
    LowerBoundUnique(n.keys[..n.num], zero, n.num);
  }
}
