/** An index over keys of bytes: each stands in the tree as its rank. */
module IxKeyIndex {
  import opened Wrappers
  import opened Memory
  import opened Values
  import opened IxKeys
  import opened IxNode
  import opened IxTree
  import opened IxLeaves
  import opened IxIndex

  type Entries = seq<(seq<Byte>, Rid)>

  predicate KeysFit(es: Entries, cols: seq<ColMeta>) {
    forall i :: 0 <= i < |es| ==> |es[i].0| == KeyLen(cols)
  }

  function Ranks(es: Entries, cols: seq<ColMeta>): (rs: seq<(Key, Rid)>)
    requires KeysFit(es, cols)
    ensures |rs| == |es|
  {
    seq(|es|, i requires 0 <= i < |es| => (Rank(es[i].0, cols), es[i].1))
  }

  /** The value first given for a key. */
  function FirstValue(es: Entries, key: seq<Byte>): Option<Rid> {
    if es == [] then None else if es[0].0 == key then Some(es[0].1) else FirstValue(es[1..], key)
  }

  lemma {:induction false} FirstValueAt(es: Entries, key: seq<Byte>) returns (i: nat)
    ensures i <= |es| && forall j :: 0 <= j < i ==> es[j].0 != key
    ensures FirstValue(es, key) == if i < |es| then Some(es[i].1) else None
    ensures i < |es| ==> es[i].0 == key
  {
    if es == [] || es[0].0 == key {
      i := 0;
    } else {
      var k := FirstValueAt(es[1..], key);
      i := k + 1;
      assert forall j :: 1 <= j < |es| ==> es[j] == es[1..][j-1];
    }
  }

  /** A run over the ranks leaves under the rank of a key the value first given for the key. */
  lemma RanksFirst(es: Entries, cols: seq<ColMeta>, key: seq<Byte>)
    requires KeysFit(es, cols) && |key| == KeyLen(cols)
    ensures Get(RunWins(map[], Ranks(es, cols)), Rank(key, cols)) == FirstValue(es, key)
  {
    hide Rank, RunWins, FirstValue;
    var rs, k := Ranks(es, cols), Rank(key, cols);
    forall j | 0 <= j < |es| ensures rs[j].0 == k <==> es[j].0 == key { RankOrder(es[j].0, key, cols); }
    RunWinsFirst(rs, k);
    var i := FirstValueAt(es, key);
    if i < |es| { assert FirstGiven(rs, k, i); }
  }

  /** A key that is lost from a run over the ranks is one that was given. */
  lemma LostGiven(es: Entries, cols: seq<ColMeta>, pages: Pages, root: int, height: nat)
    requires KeysFit(es, cols) && Lost(pages, root, height, RunWins(map[], Ranks(es, cols)))
    ensures exists i :: 0 <= i < |es| && Find(pages, root, Rank(es[i].0, cols), height) == None
  {
    hide Rank, RunWins, Find;
    var z :| z in RunWins(map[], Ranks(es, cols)) && Find(pages, root, z, height) == None;
    RunWinsFirst(Ranks(es, cols), z);
    var i :| 0 <= i < |es| && Ranks(es, cols)[i].0 == z;
    assert Find(pages, root, Rank(es[i].0, cols), height) == None;
  }

  /** Every run of insertions of keys. Unless a clash is met at step `n`, the index answers every search with the value
      first given for the key; after a clash some key given is not found. No clash is met without the key of zero bytes,
      and none at all in an index whose columns hold no negative numbers. */
  method BuildKeyIndex(order: nat, cols: seq<ColMeta>, es: Entries) returns (ix: IxIndexHandle, n: nat)
    requires 2 < order && KeysFit(es, cols)
    ensures n <= |es| && ix.root in ix.g && (n == |es| ==> ix.Valid())
    ensures n == |es| ==>
              forall key: seq<Byte> :: |key| == KeyLen(cols) ==>
                  Get(ix.contents, Rank(key, cols)) == FirstValue(es, key)
    ensures n < |es| ==> exists i :: 0 <= i <= n && Find(ix.pages, ix.root, Rank(es[i].0, cols), ix.Height()) == None
    ensures (forall i :: 0 <= i < |es| ==> es[i].0 != Zeros(KeyLen(cols))) ==> n == |es|
    ensures (forall i :: 0 <= i < |cols| ==> !Negative(cols[i])) ==> n == |es|
  {
    hide Rank, RunWins, FirstValue, IxIndexHandle.Valid, IxIndexHandle.Height, Find, Lost;
    var rs := Ranks(es, cols);
    var zero := Rank(Zeros(KeyLen(cols)), cols);
    forall i | 0 <= i < |es|
      ensures rs[i].0 == zero <==> es[i].0 == Zeros(KeyLen(cols))
    {
      RankOrder(es[i].0, Zeros(KeyLen(cols)), cols);
    }
    ZeroLeastIff(cols);
    ghost var before;
    ix, n, before := BuildIndex(order, zero, rs);
    if n == |es| {
      forall key: seq<Byte> | |key| == KeyLen(cols) ensures Get(ix.contents, Rank(key, cols)) == FirstValue(es, key) {
        RanksFirst(es, cols, key);
      }
    } else {
      assert Ranks(es[..n+1], cols) == rs[..n+1];
      LostGiven(es[..n+1], cols, ix.pages, ix.root, ix.Height());
    }
  }
}
