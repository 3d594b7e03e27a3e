/** Index node pages: layout of one B+ tree node, the searches inside a node, and in-node insertion. */
module IxNode {

  /** A key is the rank of its column bytes under the index's total order, so `<` is the order and
      `==` is byte equality. */
  type Key = int

  datatype Rid = Rid(pageNo: int, slotNo: int)

  /** A position in the leaf chain. */
  datatype Iid = Iid(pageNo: int, slotNo: int)

  /** A node page. `keys` and `rids` are all the slots of the page; only the first `num` are in use,
      and the remaining ones keep whatever was written there last. */
  datatype Node = Node(parent: int, isLeaf: bool, prevLeaf: int, nextLeaf: int,
                       num: nat, keys: seq<Key>, rids: seq<Rid>)

  const NO_PAGE := -1
  const LEAF_HEADER_PAGE := 1
  const INIT_ROOT_PAGE := 2
  const INIT_NUM_PAGES := 3

  /** A page straight from the buffer pool: every byte zero, hence every key slot the zero key. */
  function BlankNode(max: nat, zero: Key): (n: Node)
    ensures n.num == 0 && |n.keys| == |n.rids| == max && forall i :: 0 <= i < max ==> n.keys[i] == zero
  {
    Node(0, false, 0, 0, 0, seq(max, _ => zero), seq(max, _ => Rid(0, 0)))
  }

  predicate Shaped(n: Node, max: nat) {
    |n.keys| == max && |n.rids| == max && n.num <= max
  }

  predicate Ascending(ks: seq<Key>) {
    forall i, j :: 0 <= i < j < |ks| ==> ks[i] < ks[j]
  }

  /** First position holding a key at least `k`. */
  function LowerBound(ks: seq<Key>, k: Key): (i: nat)
    ensures i <= |ks|
    ensures forall j :: 0 <= j < i ==> ks[j] < k
    ensures i < |ks| ==> k <= ks[i]
  {
    if ks == [] || k <= ks[0] then 0 else 1 + LowerBound(ks[1..], k)
  }

  /** First position from 1 on holding a key above `k`; 1 when there is no position 1. */
  function UpperBound(ks: seq<Key>, k: Key): (i: nat)
    ensures 1 <= i && (1 < i ==> i <= |ks|)
    ensures forall j :: 1 <= j < i ==> ks[j] <= k
    ensures i < |ks| ==> k < ks[i]
  {
    if |ks| <= 1 || k < ks[1] then 1 else 1 + UpperBound(ks[1..], k)
  }

  /** The sequential search of a node. */
  method LowerBoundLinear(n: Node, k: Key) returns (i: nat)
    requires n.num <= |n.keys|
    ensures i == LowerBound(n.keys[..n.num], k)
  {
    i := 0;
    while i < n.num
      invariant i <= n.num
      invariant forall j :: 0 <= j < i ==> n.keys[j] < k
    {
      if k <= n.keys[i] { break; }
      i := i + 1;
    }
    LowerBoundUnique(n.keys[..n.num], k, i);
  }

  lemma LowerBoundUnique(ks: seq<Key>, k: Key, i: nat)
    requires i <= |ks|
    requires forall j :: 0 <= j < i ==> ks[j] < k
    requires i < |ks| ==> k <= ks[i]
    ensures i == LowerBound(ks, k)
  {
  }

  lemma UpperBoundUnique(ks: seq<Key>, k: Key, i: nat)
    requires 1 <= i && (1 < i ==> i <= |ks|)
    requires forall j :: 1 <= j < i ==> ks[j] <= k
    requires i < |ks| ==> k < ks[i]
    ensures i == UpperBound(ks, k)
  {
  }

  /** The bisecting search finds the same slot as the sequential one on every ascending node. */
  method LowerBoundBinary(n: Node, k: Key) returns (left: nat)
    requires n.num <= |n.keys| && Ascending(n.keys[..n.num])
    ensures left == LowerBound(n.keys[..n.num], k)
  {
    var ks := n.keys[..n.num];
    left := 0;
    var right := n.num;
    while left < right
      invariant left <= right <= n.num
      invariant forall j :: 0 <= j < left ==> ks[j] < k
      invariant forall j :: right <= j < n.num ==> k <= ks[j]
    {
      var mid := left + (right - left) / 2;
      if ks[mid] < k { left := mid + 1; } else { right := mid; }
    }
    LowerBoundUnique(ks, k, left);
  }

  method UpperBoundLinear(n: Node, k: Key) returns (i: nat)
    requires n.num <= |n.keys|
    ensures i == UpperBound(n.keys[..n.num], k)
  {
    i := 1;
    while i < n.num
      invariant 1 <= i && (1 < i ==> i <= n.num)
      invariant forall j :: 1 <= j < i ==> n.keys[j] <= k
    {
      if k < n.keys[i] { break; }
      i := i + 1;
    }
    UpperBoundUnique(n.keys[..n.num], k, i);
  }

  method UpperBoundBinary(n: Node, k: Key) returns (left: nat)
    requires n.num <= |n.keys| && Ascending(n.keys[..n.num])
    ensures left == UpperBound(n.keys[..n.num], k)
  {
    var ks := n.keys[..n.num];
    left := 1;
    var right := n.num;
    while left < right
      invariant 1 <= left && (1 < left ==> left <= right) && right <= n.num
      invariant forall j :: 1 <= j < left ==> ks[j] <= k
      invariant forall j :: 1 <= j && right <= j < n.num ==> k < ks[j]
    {
      var mid := left + (right - left) / 2;
      if ks[mid] <= k { left := mid + 1; } else { right := mid; }
    }
    UpperBoundUnique(ks, k, left);
  }

  /** Opens a gap of `|ks|` slots at `pos` and fills it; slots past the new end keep their contents. */
  function InsertPairs(n: Node, pos: nat, ks: seq<Key>, rs: seq<Rid>): (m: Node)
    requires |n.keys| == |n.rids| && |ks| == |rs|
    requires pos <= n.num && n.num + |ks| <= |n.keys|
    ensures m.num == n.num + |ks| && |m.keys| == |m.rids| == |n.keys|
    ensures m.keys[..m.num] == n.keys[..pos] + ks + n.keys[pos..n.num]
    ensures m.rids[..m.num] == n.rids[..pos] + rs + n.rids[pos..n.num]
    ensures m.keys[m.num..] == n.keys[m.num..] && m.rids[m.num..] == n.rids[m.num..]
  {
    n.(num := n.num + |ks|,
       keys := n.keys[..pos] + ks + n.keys[pos..n.num] + n.keys[n.num + |ks|..],
       rids := n.rids[..pos] + rs + n.rids[pos..n.num] + n.rids[n.num + |ks|..])
  }

  /** `m` is `n` with one pair inserted at `pos`, slot by slot. */
  ghost predicate PairAdded(n: Node, pos: nat, k: Key, r: Rid, m: Node) {
    && |n.keys| == |n.rids| && pos <= n.num < |n.keys|
    && m.num == n.num + 1 && |m.keys| == |m.rids| == |n.keys|
    && m.parent == n.parent && m.isLeaf == n.isLeaf && m.prevLeaf == n.prevLeaf && m.nextLeaf == n.nextLeaf
    && (forall i :: 0 <= i < pos ==> m.keys[i] == n.keys[i] && m.rids[i] == n.rids[i])
    && m.keys[pos] == k && m.rids[pos] == r
    && (forall i :: pos < i < m.num ==> m.keys[i] == n.keys[i-1] && m.rids[i] == n.rids[i-1])
    && (forall i :: m.num <= i < |m.keys| ==> m.keys[i] == n.keys[i] && m.rids[i] == n.rids[i])
  }

  lemma InsertPairSlots(n: Node, pos: nat, k: Key, r: Rid)
    requires |n.keys| == |n.rids| && pos <= n.num < |n.keys|
    ensures PairAdded(n, pos, k, r, InsertPairs(n, pos, [k], [r]))
  {
  }

  /** True when the slot just past the last key happens to hold `k`: the duplicate test of a node
      insertion then mistakes a left-over slot for an entry. */
  predicate SlotClash(n: Node, k: Key)
    requires n.num < |n.keys|
  {
    n.num != 0 && LowerBound(n.keys[..n.num], k) == n.num && n.keys[n.num] == k
  }

  /** Insertion of one pair by key, with the duplicate test exactly as the node performs it: the slot
      found by the search is compared whether or not it is in use. */
  function NodeInsert(n: Node, k: Key, r: Rid): (m: Node)
    requires |n.keys| == |n.rids| && n.num < |n.keys|
  {
    var pos := LowerBound(n.keys[..n.num], k);
    if n.num != 0 && n.keys[pos] == k then n else InsertPairs(n, pos, [k], [r])
  }

  lemma InsertKeepsAscending(ks: seq<Key>, k: Key)
    requires Ascending(ks) && k !in ks
    ensures var pos := LowerBound(ks, k); Ascending(ks[..pos] + [k] + ks[pos..])
  {
    var pos := LowerBound(ks, k);
    assert pos < |ks| ==> ks[pos] in ks;
  }

  /** A node insertion adds the key, in order, exactly when the key is absent and no slot clash
      occurs; otherwise it leaves the node as it was. */
  lemma NodeInsertExact(n: Node, k: Key, r: Rid)
    requires |n.keys| == |n.rids| && n.num < |n.keys| && Ascending(n.keys[..n.num])
    ensures NodeInsert(n, k, r).num == n.num <==> k in n.keys[..n.num] || SlotClash(n, k)
    ensures NodeInsert(n, k, r).num == n.num ==> NodeInsert(n, k, r) == n
    ensures NodeInsert(n, k, r).num != n.num ==>
              var m := NodeInsert(n, k, r);
              m.num == n.num + 1 && k in m.keys[..m.num] && Ascending(m.keys[..m.num])
              && forall x :: x in m.keys[..m.num] <==> x == k || x in n.keys[..n.num]
  {
    var ks := n.keys[..n.num];
    var pos := LowerBound(ks, k);
    var m := NodeInsert(n, k, r);
    if k in ks {
      assert ks[pos] == k;
    } else if !SlotClash(n, k) {
      assert m == InsertPairs(n, pos, [k], [r]);
      assert m.keys[..m.num] == ks[..pos] + [k] + ks[pos..];
      InsertKeepsAscending(ks, k);
      assert ks == ks[..pos] + ks[pos..];
    }
  }

  /** The family is not empty: with one key below zero in a fresh page of any size, the zero key is dropped. */
  lemma SlotClashExists(max: nat, zero: Key, k: Key, r: Rid, r': Rid)
    requires 2 <= max && k < zero
    ensures var n := InsertPairs(BlankNode(max, zero), 0, [k], [r]);
            SlotClash(n, zero) && zero !in n.keys[..n.num] && NodeInsert(n, zero, r') == n
  {
    var n := InsertPairs(BlankNode(max, zero), 0, [k], [r]);
    InsertPairSlots(BlankNode(max, zero), 0, k, r);
    assert n.keys[..n.num] == [k];
    LowerBoundUnique([k], zero, 1);
  }
}
