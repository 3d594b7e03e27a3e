/** Scanning the leaf chain from end to end, and whole runs of insertions. */
module IxChainScan {
  import opened Wrappers
  import opened IxNode
  import opened IxTree
  import opened IxLeaves
  import opened IxClash
  import opened IxIndex

  /** The entries of a leaf, in slot order. */
  function Pairs(n: Node): (s: seq<(Key, Rid)>)
    requires n.num <= |n.keys| && n.num <= |n.rids|
  {
    seq(n.num, j requires 0 <= j < n.num => (n.keys[j], n.rids[j]))
  }

  ghost predicate Readable(pages: Pages, leaves: seq<int>) {
    forall i :: 0 <= i < |leaves| ==>
      leaves[i] in pages && pages[leaves[i]].num <= |pages[leaves[i]].keys|
        && pages[leaves[i]].num <= |pages[leaves[i]].rids|
  }

  /** The entries of a run of leaves, in chain order. */
  ghost function Entries(pages: Pages, leaves: seq<int>): seq<(Key, Rid)>
    requires Readable(pages, leaves)
  {
    if leaves == [] then []
    else Entries(pages, leaves[..|leaves|-1]) + Pairs(pages[leaves[|leaves|-1]])
  }

  ghost predicate KeysAscend(s: seq<(Key, Rid)>) {
    forall i, j :: 0 <= i < j < |s| ==> s[i].0 < s[j].0
  }

  ghost predicate AllBelow(s: seq<(Key, Rid)>, hi: Bound) {
    forall i :: 0 <= i < |s| ==> Below(s[i].0, hi)
  }

  lemma PairsOk(n: Node, x: Info, max: nat, zero: Key, cap: int)
    requires NodeOk(n, x, max, zero, cap)
    ensures KeysAscend(Pairs(n)) && AllBelow(Pairs(n), x.hi)
            && forall i :: 0 <= i < |Pairs(n)| ==> AtLeast(Pairs(n)[i].0, x.lo)
  {
    assert forall i :: 0 <= i < n.num ==> Within(n.keys[i], x);
  }

  lemma LeafNode(t: Tree, leaves: seq<int>, first: int, last: int, i: nat)
    requires Settled(t) && ChainOk(t, leaves, first, last) && i < |leaves|
    ensures leaves[i] in t.pages && NodeOk(t.pages[leaves[i]], t.g[leaves[i]], t.max, t.zero, t.max - 1)
  {
    assert NodeOk(t.pages[leaves[i]], t.g[leaves[i]], t.max, t.zero, if leaves[i] == NO_PAGE then t.max else t.max - 1);
  }

  lemma ChainReadable(t: Tree, leaves: seq<int>, first: int, last: int)
    requires Settled(t) && ChainOk(t, leaves, first, last)
    ensures Readable(t.pages, leaves)
  {
    forall i | 0 <= i < |leaves|
      ensures leaves[i] in t.pages && t.pages[leaves[i]].num <= |t.pages[leaves[i]].keys|
              && t.pages[leaves[i]].num <= |t.pages[leaves[i]].rids|
    {
      LeafNode(t, leaves, first, last, i);
    }
  }

  /** The chain read from left to right is in strictly ascending key order. */
  lemma {:induction false} EntriesAscend(t: Tree, leaves: seq<int>, first: int, last: int, n: nat)
    requires Settled(t) && ChainOk(t, leaves, first, last) && n <= |leaves| && Readable(t.pages, leaves)
    ensures KeysAscend(Entries(t.pages, leaves[..n]))
    ensures 0 < n ==> AllBelow(Entries(t.pages, leaves[..n]), t.g[leaves[n-1]].hi)
  {
    hide AllNodesOk, AllSizesOk, AllKidsOk, AllUpOk;
    if n > 0 {
      EntriesAscend(t, leaves, first, last, n - 1);
      var p := leaves[n-1];
      assert leaves[..n][..n-1] == leaves[..n-1];
      LeafNode(t, leaves, first, last, n - 1);
      PairsOk(t.pages[p], t.g[p], t.max, t.zero, t.max - 1);
      var x := Inhabited(t, NO_PAGE, NO_PAGE, NO_PAGE, NO_PAGE, p);
      AppendAscends(Entries(t.pages, leaves[..n-1]), Pairs(t.pages[p]), t.g[p], x, n == 1);
      assert n > 1 ==> t.g[leaves[n-2]].hi == t.g[leaves[n-2+1]].lo;
    }
  }

  lemma AppendAscends(a: seq<(Key, Rid)>, b: seq<(Key, Rid)>, x: Info, k: Key, alone: bool)
    requires KeysAscend(a) && KeysAscend(b) && Within(k, x)
    requires if alone then a == [] else AllBelow(a, x.lo)
    requires AllBelow(b, x.hi) && forall i :: 0 <= i < |b| ==> AtLeast(b[i].0, x.lo)
    ensures KeysAscend(a + b) && AllBelow(a + b, x.hi)
  {
  }

  lemma {:induction false} EntryAt(pages: Pages, leaves: seq<int>, n: nat, i: nat, j: nat)
    requires Readable(pages, leaves) && i < n <= |leaves| && j < pages[leaves[i]].num
    ensures Pairs(pages[leaves[i]])[j] in Entries(pages, leaves[..n])
  {
    assert leaves[..n][..n-1] == leaves[..n-1];
    if i + 1 < n { EntryAt(pages, leaves, n - 1, i, j); }
  }

  lemma {:induction false} EntryFrom(pages: Pages, leaves: seq<int>, n: nat, e: (Key, Rid)) returns (i: nat, j: nat)
    requires Readable(pages, leaves) && n <= |leaves| && e in Entries(pages, leaves[..n])
    ensures i < n && j < pages[leaves[i]].num && e == Pairs(pages[leaves[i]])[j]
  {
    assert leaves[..n][..n-1] == leaves[..n-1];
    if e in Pairs(pages[leaves[n-1]]) {
      i := n - 1;
      j :| 0 <= j < |Pairs(pages[leaves[i]])| && Pairs(pages[leaves[i]])[j] == e;
    } else {
      i, j := EntryFrom(pages, leaves, n - 1, e);
    }
  }

  /** The chain holds exactly the entries of the stored map. */
  lemma EntriesExact(t: Tree, leaves: seq<int>, first: int, last: int, m: map<Key, Rid>, e: (Key, Rid))
    requires IndexOk(t, leaves, first, last, m, NO_PAGE, NO_PAGE, NO_PAGE, NO_PAGE) && Readable(t.pages, leaves)
    ensures e in Entries(t.pages, leaves) <==> e.0 in m && m[e.0] == e.1
  {
    hide AllNodesOk, AllSizesOk, AllKidsOk, AllUpOk, RootHighest, Entries;
    assert leaves[..|leaves|] == leaves;
    if e in Entries(t.pages, leaves) {
      var i, j := EntryFrom(t.pages, leaves, |leaves|, e);
      assert LeafHolds(t.pages[leaves[i]], t.g[leaves[i]], m);
    } else if e.0 in m && m[e.0] == e.1 {
      var i := CoveringLeaf(t, leaves, first, last, e.0);
      var n := t.pages[leaves[i]];
      assert LeafHolds(n, t.g[leaves[i]], m);
      var j :| SlotIs(n, j, e.0);
      EntryAt(t.pages, leaves, |leaves|, i, j);
    }
  }

  /** A cursor over the leaf chain. */
  class IxScan {
    const ih: IxIndexHandle
    var iid: Iid
    const end: Iid

    constructor (ih: IxIndexHandle, lower: Iid, upper: Iid)
      ensures this.ih == ih && iid == lower && end == upper
    {
      this.ih, iid, end := ih, lower, upper;
    }

    predicate IsEnd()
      reads this
    {
      iid == end
    }

    /** The cursor is at slot `j` of leaf `i` of the chain. */
    ghost predicate At(i: int, j: int)
      reads this, ih
    {
      0 <= i < |ih.leaves| && iid == Iid(ih.leaves[i], j)
    }

    /** Advances by one slot, moving on to the next leaf after the last slot of a leaf. */
    method Next(ghost i: int, ghost j: int)
      requires ih.Valid() && At(i, j) && ih.leaves[i] in ih.pages && 0 <= j < ih.pages[ih.leaves[i]].num
      modifies this
      ensures if j + 1 == ih.pages[ih.leaves[i]].num && i + 1 < |ih.leaves| then At(i + 1, 0) else At(i, j + 1)
    {
      hide TreeOk, ContentsOk, IxIndexHandle.Height;
      ghost var last := |ih.leaves| - 1;
      assert ih.lastLeaf == ih.leaves[last];
      var node := ih.pages[iid.pageNo];
      iid := iid.(slotNo := iid.slotNo + 1);
      if iid.pageNo != ih.lastLeaf && iid.slotNo == node.num {
        iid := Iid(node.nextLeaf, 0);
      }
    }

    /** The entry under the cursor. */
    method Entry() returns (e: (Key, Rid))
      requires iid.pageNo in ih.pages
      requires var n := ih.pages[iid.pageNo]; 0 <= iid.slotNo < n.num <= |n.keys| && n.num <= |n.rids|
      ensures e == Pairs(ih.pages[iid.pageNo])[iid.slotNo]
    {
      var n := ih.pages[iid.pageNo];
      e := (n.keys[iid.slotNo], n.rids[iid.slotNo]);
    }
  }

  lemma ScanFacts(t: Tree, leaves: seq<int>, first: int, last: int)
    requires Settled(t) && ChainOk(t, leaves, first, last)
    ensures 0 < |leaves| && first == leaves[0] && last == leaves[|leaves|-1] && last in t.pages
    ensures Readable(t.pages, leaves) && forall i, j :: 0 <= i < j < |leaves| ==> leaves[i] != leaves[j]
    ensures 1 < |leaves| ==> forall i :: 0 <= i < |leaves| ==> 0 < t.pages[leaves[i]].num
  {
    ChainReadable(t, leaves, first, last);
    if 1 < |leaves| {
      forall i | 0 <= i < |leaves| ensures 0 < t.pages[leaves[i]].num { LeavesFilled(t, leaves, first, last, i); }
    }
  }

  lemma EntriesNone(pages: Pages)
    ensures Entries(pages, []) == []
  {
  }

  lemma ScanStep(pages: Pages, leaves: seq<int>, i: nat, j: nat, e: (Key, Rid))
    requires Readable(pages, leaves) && i < |leaves| && j < pages[leaves[i]].num && e == Pairs(pages[leaves[i]])[j]
    ensures |Pairs(pages[leaves[i]])| == pages[leaves[i]].num
    ensures Pairs(pages[leaves[i]])[..j] + [e] == Pairs(pages[leaves[i]])[..j+1]
    ensures j + 1 == pages[leaves[i]].num ==>
              Entries(pages, leaves[..i]) + Pairs(pages[leaves[i]])[..j+1] == Entries(pages, leaves[..i+1])
  {
    assert leaves[..i+1][..i] == leaves[..i];
  }

  lemma ScanDone(t: Tree, leaves: seq<int>, first: int, last: int, m: map<Key, Rid>, out: seq<(Key, Rid)>)
    requires IndexOk(t, leaves, first, last, m, NO_PAGE, NO_PAGE, NO_PAGE, NO_PAGE) && Readable(t.pages, leaves)
             && 0 < |leaves|
    requires var n := t.pages[leaves[|leaves|-1]]; out == Entries(t.pages, leaves[..|leaves|-1]) + Pairs(n)[..n.num]
    ensures KeysAscend(out) && forall e :: e in out <==> e.0 in m && m[e.0] == e.1
  {
    hide TreeOk, ChainOk, ContentsOk;
    var n := t.pages[leaves[|leaves|-1]];
    assert Pairs(n)[..n.num] == Pairs(n) && leaves[..|leaves|] == leaves;
    EntriesAscend(t, leaves, first, last, |leaves|);
    forall e ensures e in out <==> e.0 in m && m[e.0] == e.1 { EntriesExact(t, leaves, first, last, m, e); }
  }

  /** A scan from the first to the last position ends, and yields every stored entry once, in
      strictly ascending key order. */
  method ScanAll(ih: IxIndexHandle) returns (out: seq<(Key, Rid)>)
    requires ih.Valid()
    ensures KeysAscend(out)
    ensures forall e :: e in out <==> e.0 in ih.contents && ih.contents[e.0] == e.1
  {
    hide TreeOk, ChainOk, ContentsOk, NumberedBelow, Entries, Pairs;
    ghost var t, leaves := ih.Shape(), ih.leaves;
    ScanFacts(t, leaves, ih.firstLeaf, ih.lastLeaf);
    var lower := ih.LeafBegin();
    var upper := ih.LeafEnd();
    var scan := new IxScan(ih, lower, upper);
    ghost var i, j := 0, 0;
    out := [];
    assert leaves[..0] == [] && Entries(t.pages, []) == [] by { EntriesNone(t.pages); }
    assert Pairs(t.pages[leaves[0]])[..0] == [];
    while !scan.IsEnd()
      invariant scan.ih == ih && scan.end == upper && scan.At(i, j) && 0 <= j <= |Pairs(t.pages[leaves[i]])|
      invariant j <= t.pages[leaves[i]].num && (j == t.pages[leaves[i]].num ==> i == |leaves| - 1)
      invariant out == Entries(t.pages, leaves[..i]) + Pairs(t.pages[leaves[i]])[..j]
      decreases |leaves| - i, t.pages[leaves[i]].num - j
    {
      assert j < t.pages[leaves[i]].num;
      var e := scan.Entry();
      out := out + [e];
      scan.Next(i, j);
      ScanStep(t.pages, leaves, i, j, e);
      if j + 1 == t.pages[leaves[i]].num && i + 1 < |leaves| {
        i, j := i + 1, 0;
      } else {
        j := j + 1;
      }
    }
    ScanDone(t, leaves, ih.firstLeaf, ih.lastLeaf, ih.contents, out);
  }
}
