/** The replacer: which frames may be evicted, least recently released last. */
module LruReplacer {
  import opened Wrappers

  ghost predicate Distinct<T>(s: seq<T>) {
    forall i, j :: 0 <= i < j < |s| ==> s[i] != s[j]
  }

  // ---------- the list as a value ----------

  /** The list without `f`. */
  function Without(s: seq<nat>, f: nat): (r: seq<nat>)
    ensures forall x :: x in r <==> x in s && x != f
  {
    if s == [] then [] else (if s[0] == f then [] else [s[0]]) + Without(s[1..], f)
  }

  /** Making a frame evictable: newcomers go to the front, others stay where they are. */
  function Released(s: seq<nat>, f: nat): seq<nat> {
    if f in s then s else [f] + s
  }

  lemma {:induction false} WithoutDistinct(s: seq<nat>, f: nat)
    requires Distinct(s)
    ensures Distinct(Without(s, f))
  {
    if s != [] {
      WithoutDistinct(s[1..], f);
      var t := Without(s[1..], f);
      if s[0] != f {
        assert s[0] !in s[1..];
        forall i, j | 0 <= i < j < |[s[0]] + t| ensures ([s[0]] + t)[i] != ([s[0]] + t)[j] {
          if i == 0 { assert ([s[0]] + t)[j] == t[j-1] && t[j-1] in t; }
        }
      }
    }
  }

  // ---------- the list with its index of positions ----------

  /** A list node; its number stands for its address. */
  datatype ListNode = ListNode(id: nat, frame: nat)

  ghost function FramesOf(list: seq<ListNode>): (fs: seq<nat>)
    ensures |fs| == |list| && forall i :: 0 <= i < |list| ==> fs[i] == list[i].frame
  {
    seq(|list|, i requires 0 <= i < |list| => list[i].frame)
  }

  ghost predicate NodeAt(list: seq<ListNode>, i: int, f: nat) {
    0 <= i < |list| && list[i].frame == f
  }

  /** No two nodes have the same number or frame. */
  ghost predicate NodesApart(list: seq<ListNode>) {
    forall i, j :: 0 <= i < j < |list| ==> list[i].id != list[j].id && list[i].frame != list[j].frame
  }

  /** The index leads from the frame of every node to the node. */
  ghost predicate Indexed(list: seq<ListNode>, hash: map<nat, nat>, nextId: nat) {
    forall i :: 0 <= i < |list| ==> list[i].id < nextId && list[i].frame in hash && hash[list[i].frame] == list[i].id
  }

  /** The index has listed frames only. */
  ghost predicate Listed(list: seq<ListNode>, hash: map<nat, nat>) {
    forall f :: f in hash ==> exists i :: NodeAt(list, i, f)
  }

  /** The index maps exactly the listed frames, each to its only node. */
  ghost predicate ListOk(list: seq<ListNode>, hash: map<nat, nat>, nextId: nat) {
    NodesApart(list) && Indexed(list, hash, nextId) && Listed(list, hash)
  }

  ghost predicate Cut(list: seq<ListNode>, i: nat, list': seq<ListNode>) {
    && i < |list| && |list'| == |list| - 1
    && (forall j :: 0 <= j < |list'| ==> list'[j] == list[Skip(i, j)])
  }

  /** The old position of the node at position `j` after node `i` is cut out. */
  function Skip(i: int, j: int): int { if j < i then j else j + 1 }

  lemma CutIndexed(list: seq<ListNode>, hash: map<nat, nat>, nextId: nat, i: nat, list': seq<ListNode>, hash': map<nat,
                   nat>)
    requires NodesApart(list) && Indexed(list, hash, nextId) && Cut(list, i, list') && hash' == hash - {list[i].frame}
    ensures NodesApart(list') && Indexed(list', hash', nextId)
  {
    forall j | 0 <= j < |list'|
      ensures list'[j].id < nextId && list'[j].frame in hash' && hash'[list'[j].frame] == list'[j].id
    {
      var k := Skip(i, j);
      assert list'[j] == list[k] && list[k].frame != list[i].frame;
    }
  }

  lemma CutListed(list: seq<ListNode>, hash: map<nat, nat>, i: nat, list': seq<ListNode>, hash': map<nat, nat>)
    requires Listed(list, hash) && Cut(list, i, list') && hash' == hash - {list[i].frame}
    ensures Listed(list', hash')
  {
    forall f | f in hash' ensures exists j :: NodeAt(list', j, f) {
      var k :| NodeAt(list, k, f);
      var j := if k < i then k else k - 1;
      assert list'[j] == list[Skip(i, j)];
      assert NodeAt(list', j, f);
    }
  }

  /** Cutting one node out of the list and its frame out of the index. */
  lemma CutOk(list: seq<ListNode>, hash: map<nat, nat>, nextId: nat, i: nat)
    requires ListOk(list, hash, nextId) && i < |list|
    ensures ListOk(list[..i] + list[i+1..], hash - {list[i].frame}, nextId)
  {
    hide NodesApart, Indexed, Listed;
    var list', hash' := list[..i] + list[i+1..], hash - {list[i].frame};
    assert Cut(list, i, list');
    CutIndexed(list, hash, nextId, i, list', hash');
    CutListed(list, hash, i, list', hash');
  }

  lemma PushListed(list: seq<ListNode>, hash: map<nat, nat>, id: nat, f: nat)
    requires Listed(list, hash)
    ensures Listed([ListNode(id, f)] + list, hash[f := id])
  {
    var list', hash' := [ListNode(id, f)] + list, hash[f := id];
    forall x | x in hash' ensures exists i :: NodeAt(list', i, x) {
      if x == f { assert NodeAt(list', 0, f); } else { var k :| NodeAt(list, k, x); assert NodeAt(list', k + 1, x); }
    }
  }

  lemma PushIndexed(list: seq<ListNode>, hash: map<nat, nat>, nextId: nat, f: nat)
    requires NodesApart(list) && Indexed(list, hash, nextId) && f !in hash
    ensures NodesApart([ListNode(nextId, f)] + list)
            && Indexed([ListNode(nextId, f)] + list, hash[f := nextId], nextId + 1)
  {
    var list' := [ListNode(nextId, f)] + list;
    forall i, j | 0 <= i < j < |list'| ensures list'[i].id != list'[j].id && list'[i].frame != list'[j].frame {
      assert list'[j] == list[j-1];
      if i > 0 { assert list'[i] == list[i-1]; }
    }
    forall i | 0 <= i < |list'|
      ensures list'[i].id < nextId + 1 && list'[i].frame in hash[f := nextId]
              && hash[f := nextId][list'[i].frame] == list'[i].id
    {
      if i > 0 { assert list'[i] == list[i-1]; }
    }
  }

  lemma PushOk(list: seq<ListNode>, hash: map<nat, nat>, nextId: nat, f: nat)
    requires ListOk(list, hash, nextId) && f !in hash
    ensures ListOk([ListNode(nextId, f)] + list, hash[f := nextId], nextId + 1)
    ensures f !in FramesOf(list) && FramesOf([ListNode(nextId, f)] + list) == [f] + FramesOf(list)
  {
    assert f !in FramesOf(list);
    hide NodesApart, Indexed, Listed;
    PushIndexed(list, hash, nextId, f);
    PushListed(list, hash, nextId, f);
  }

  /** The node that the index has for a frame. */
  lemma Lookup(list: seq<ListNode>, hash: map<nat, nat>, nextId: nat, f: nat) returns (k: nat)
    requires ListOk(list, hash, nextId) && f in hash
    ensures k < |list| && list[k] == ListNode(hash[f], f) && f in FramesOf(list)
    ensures forall i :: 0 <= i < |list| && list[i].id == hash[f] ==> i == k
  {
    k :| NodeAt(list, k, f);
    assert FramesOf(list)[k] == f;
  }

  lemma FramesApart(list: seq<ListNode>, hash: map<nat, nat>, nextId: nat)
    requires ListOk(list, hash, nextId)
    ensures Distinct(FramesOf(list))
  {
  }

  lemma CutFrames(list: seq<ListNode>, i: nat)
    requires i < |list| && Distinct(FramesOf(list))
    ensures FramesOf(list[..i] + list[i+1..]) == Without(FramesOf(list), list[i].frame)
  {
    var fs := FramesOf(list);
    assert FramesOf(list[..i] + list[i+1..]) == fs[..i] + fs[i+1..];
    CutIsWithout(fs, i, list[i].frame);
  }

  class LRUReplacer {
    var list: seq<ListNode>
    var hash: map<nat, nat>
    var nextId: nat

    ghost predicate Valid()
      reads this
    {
      ListOk(list, hash, nextId)
    }

    ghost function Frames(): seq<nat>
      reads this
    {
      FramesOf(list)
    }

    /** No frame is listed twice, and the index knows exactly the listed frames. */
    lemma FramesDistinct()
      requires Valid()
      ensures Distinct(Frames()) && forall f :: f in hash <==> f in Frames()
    {
      FramesApart(list, hash, nextId);
      forall f ensures f in hash <==> f in Frames() {
        if f in hash { var k := Lookup(list, hash, nextId, f); } else { PushOk(list, hash, nextId, f); }
      }
    }

    constructor ()
      ensures Valid() && Frames() == []
    {
      list, hash, nextId := [], map[], 0;
    }

    /** Takes the frame at the back of the list, if there is one. */
    method Victim() returns (f: Option<nat>)
      requires Valid()
      modifies this
      ensures Valid()
      ensures if old(Frames()) == [] then f == None && Frames() == []
              else f == Some(old(Frames())[|old(Frames())|-1]) && Frames() == old(Frames())[..|old(Frames())|-1]
    {
      hide ListOk;
      if list == [] { return None; }
      var n := |list| - 1;
      var x := list[n].frame;
      CutOk(list, hash, nextId, n);
      assert list[..n] + list[n+1..] == list[..n];
      assert FramesOf(list[..n]) == FramesOf(list)[..n];
      hash := hash - {x};
      list := list[..n];
      return Some(x);
    }

    /** Removes the list node with the given number. */
    method Erase(id: nat) returns (i: nat)
      requires exists k :: 0 <= k < |list| && list[k].id == id
      modifies this`list
      ensures i < |old(list)| && old(list)[i].id == id && list == old(list)[..i] + old(list)[i+1..]
    {
      i := 0;
      while list[i].id != id
        invariant 0 <= i < |list| && list == old(list) && forall k :: 0 <= k < i ==> list[k].id != id
        decreases |list| - i
      {
        assert exists k :: i < k < |list| && list[k].id == id;
        i := i + 1;
      }
      list := list[..i] + list[i+1..];
    }

    /** Takes a frame out of the list. */
    method Pin(f: nat)
      requires Valid()
      modifies this
      ensures Valid() && Frames() == Without(old(Frames()), f)
    {
      hide ListOk, Without;
      if f in hash {
        ghost var k := Lookup(list, hash, nextId, f);
        CutOk(list, hash, nextId, k);
        FramesApart(list, hash, nextId);
        CutFrames(list, k);
        var _ := Erase(hash[f]);
        hash := hash - {f};
      } else {
        PushOk(list, hash, nextId, f);
        AbsentWithout(Frames(), f);
      }
    }

    /** Puts a frame at the front of the list unless it is listed. */
    method Unpin(f: nat)
      requires Valid()
      modifies this
      ensures Valid() && Frames() == Released(old(Frames()), f)
    {
      hide ListOk;
      if f !in hash {
        PushOk(list, hash, nextId, f);
        list := [ListNode(nextId, f)] + list;
        hash := hash[f := nextId];
        nextId := nextId + 1;
      } else {
        ghost var k := Lookup(list, hash, nextId, f);
      }
    }
  }

  lemma {:induction false} CutIsWithout(s: seq<nat>, i: nat, f: nat)
    requires Distinct(s) && i < |s| && s[i] == f
    ensures Without(s, f) == s[..i] + s[i+1..]
  {
    if i == 0 {
      AbsentWithout(s[1..], f);
    } else {
      CutIsWithout(s[1..], i - 1, f);
      assert s[..i] + s[i+1..] == [s[0]] + (s[1..][..i-1] + s[1..][i..]);
    }
  }

  lemma {:induction false} AbsentWithout(s: seq<nat>, f: nat)
    requires f !in s
    ensures Without(s, f) == s
  {
    if s != [] { AbsentWithout(s[1..], f); }
  }

  // ---------- runs ----------

  datatype LruOp = PinOp(f: nat) | UnpinOp(f: nat) | VictimOp

  function LruStep(s: seq<nat>, op: LruOp): seq<nat> {
    match op
    case PinOp(f) => Without(s, f)
    case UnpinOp(f) => Released(s, f)
    case VictimOp => if s == [] then s else s[..|s|-1]
  }

  /** The list after a run of calls. */
  function LruRun(ops: seq<LruOp>): seq<nat> {
    if ops == [] then [] else LruStep(LruRun(ops[..|ops|-1]), ops[|ops|-1])
  }

  /** Frame `f` has been evictable without interruption since just after call number `n`. */
  ghost predicate EvictableSince(ops: seq<LruOp>, f: nat, n: nat) {
    && n <= |ops| && (forall j :: n <= j <= |ops| ==> f in LruRun(ops[..j]))
    && (0 < n ==> f !in LruRun(ops[..n-1]))
  }

  ghost predicate Before(s: seq<nat>, a: nat, b: nat) {
    exists i, j :: 0 <= i < j < |s| && s[i] == a && s[j] == b
  }

  lemma {:induction false} BeforeWithout(s: seq<nat>, f: nat, a: nat, b: nat)
    requires Before(Without(s, f), a, b)
    ensures Before(s, a, b)
  {
    var t := Without(s, f);
    var i, j :| 0 <= i < j < |t| && t[i] == a && t[j] == b;
    var t' := Without(s[1..], f);
    if s[0] != f && i == 0 {
      assert t[j] == t'[j-1] && b in t' && b in s[1..];
      var k :| 0 <= k < |s[1..]| && s[1..][k] == b;
      assert s[0] == a && s[k+1] == b;
    } else {
      var d := if s[0] == f then 0 else 1;
      assert t'[i-d] == a && t'[j-d] == b;
      BeforeWithout(s[1..], f, a, b);
      var x, y :| 0 <= x < y < |s[1..]| && s[1..][x] == a && s[1..][y] == b;
      assert s[x+1] == a && s[y+1] == b;
    }
  }

  lemma SinceEarlier(ops: seq<LruOp>, f: nat, n: nat)
    requires ops != [] && EvictableSince(ops, f, n) && f in LruRun(ops[..|ops|-1])
    ensures n < |ops| && EvictableSince(ops[..|ops|-1], f, n)
  {
    var ops' := ops[..|ops|-1];
    forall j | n <= j <= |ops'| ensures f in LruRun(ops'[..j]) { assert ops'[..j] == ops[..j]; }
    if 0 < n < |ops| { assert ops'[..n-1] == ops[..n-1]; }
  }

  /** Frames further back have been evictable for longer. */
  lemma {:induction false} BackIsOlder(ops: seq<LruOp>, a: nat, b: nat, na: nat, nb: nat)
    requires Before(LruRun(ops), a, b) && a != b && EvictableSince(ops, a, na) && EvictableSince(ops, b, nb)
    ensures nb < na
    decreases |ops|
  {
    var ops', op := ops[..|ops|-1], ops[|ops|-1];
    var s := LruRun(ops');
    if a in s && b in s {
      SinceEarlier(ops, a, na);
      SinceEarlier(ops, b, nb);
      StepKeepsOrder(s, op, a, b);
      BackIsOlder(ops', a, b, na, nb);
    } else {
      assert ops[..|ops|] == ops;
      assert op.UnpinOp?;
      var i, j :| 0 <= i < j < |LruRun(ops)| && LruRun(ops)[i] == a && LruRun(ops)[j] == b;
      assert b == s[j-1];
      SinceEarlier(ops, b, nb);
    }
  }

  lemma StepKeepsOrder(s: seq<nat>, op: LruOp, a: nat, b: nat)
    requires Before(LruStep(s, op), a, b) && a in s && b in s
    ensures Before(s, a, b)
  {
    var t := LruStep(s, op);
    if op.PinOp? {
      BeforeWithout(s, op.f, a, b);
    } else {
      var i, j :| 0 <= i < j < |t| && t[i] == a && t[j] == b;
      var d := if op.UnpinOp? && op.f !in s then 1 else 0;
      assert s[i-d] == a && s[j-d] == b;
    }
  }

  /** Every listed frame became evictable at some call. */
  lemma {:induction false} SinceExists(ops: seq<LruOp>, f: nat) returns (n: nat)
    requires f in LruRun(ops)
    ensures EvictableSince(ops, f, n)
  {
    var ops' := ops[..|ops|-1];
    assert ops[..|ops|] == ops;
    if f in LruRun(ops') {
      n := SinceExists(ops', f);
      forall j | n <= j <= |ops| ensures f in LruRun(ops[..j]) {
        if j <= |ops'| { assert ops[..j] == ops'[..j]; }
      }
      if 0 < n { assert ops[..n-1] == ops'[..n-1]; }
    } else {
      n := |ops|;
    }
  }

  /** After every run of calls, the frame that an eviction takes has been evictable longest. */
  lemma VictimIsOldest(ops: seq<LruOp>, v: nat, g: nat, nv: nat, ng: nat)
    requires var s := LruRun(ops); s != [] && v == s[|s|-1] && g in s && g != v
    requires EvictableSince(ops, v, nv) && EvictableSince(ops, g, ng)
    ensures nv < ng
  {
    var s := LruRun(ops);
    var i :| 0 <= i < |s| && s[i] == g;
    assert Before(s, g, v);
    BackIsOlder(ops, g, v, ng, nv);
  }
}
