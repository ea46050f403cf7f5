/** Growing a file: the spare link, the new size and the new block references. */
module NsfsGrow {
  import opened NsfsTypes
  import opened NsfsTree
  import opened NsfsFit
  import opened NsfsDir
  import opened NsfsBlocks

  /** Fills slots from a to b with one block number. */
  function FillSlots(refs: seq<nat>, from: nat, to: nat, block: nat): (r: seq<nat>)
    ensures |r| == |refs|
    ensures forall k :: 0 <= k < |refs| ==> r[k] == if from <= k < to then block else refs[k]
  {
    seq(|refs|, k requires 0 <= k < |refs| => if from <= k < to then block else refs[k])
  }

  /** The head of a file grown to size. Its references are looked up one after the other
      without storing the entry in between, so that all of them name the same block. */
  function GrownHead(e: Entry, size: nat, block: nat): (r: Entry)
    ensures |r.refs| == |e.refs|
  {
    e.(size := size, refs := FillSlots(e.refs, NeededBlocks(e.size), NeededBlocks(size), block))
  }

  /** The table after growing file n. */
  function Grown(t: Table, n: nat, size: nat, block: nat): (r: Option<Table>)
    requires n < |t| && t[n].next < |t|
    ensures r.Some? ==> |r.value| == |t|
  {
    Fit(t, n, GrownHead(t[n], size, block))
  }

  /** A file of the tree may grow to this size. */
  ghost predicate Growable(t: Table, det: set<nat>, n: nat, size: nat) {
    && Tree(t, det) && IsHead(t, n) && t[n].file
    && t[n].size < size <= SFS_ENTRYREFS * BLOCK_SIZE
  }

  lemma NeededMonotone(a: nat, b: nat)
    requires a <= b
    ensures NeededBlocks(a) <= NeededBlocks(b)
  {
  }

  lemma GrownHeadOk(t: Table, det: set<nat>, n: nat, size: nat, block: nat)
    requires Growable(t, det, n, size) && FirstDataBlock(|t|) <= block
    ensures EntryOk(t, n) && RefCount(t[n]) == NeededBlocks(t[n].size)
    ensures RefCount(GrownHead(t[n], size, block)) == NeededBlocks(size) > 0
    ensures HeadOk(|t|, GrownHead(t[n], size, block)) && Replaces(t, n, GrownHead(t[n], size, block))
  {
    assert EntryOk(t, n) && HeadOk(|t|, t[n]) && t[n].file && !t[n].dir && |t[n].refs| == SFS_ENTRYREFS;
    hide Tree, EntryOk, IsHead;
    NeededMonotone(t[n].size, size);
    RefCountBounds(t[n]);
    assert NeededBlocks(size) > 0 && Lo16(size) == size;
  }

  /** Growing keeps the tree. */
  lemma GrownTree(t: Table, det: set<nat>, n: nat, size: nat, block: nat)
    requires Growable(t, det, n, size) && FirstDataBlock(|t|) <= block
    ensures EntryOk(t, n)
    ensures match Grown(t, n, size, block)
            case None => true
            case Some(t') =>
              && Tree(t', det) && Respare(t, t', n)
              && t'[n] == GrownHead(t[n], size, block).(next := t'[n].next)
  {
    GrownHeadOk(t, det, n, size, block);
    var e := GrownHead(t[n], size, block);
    FitRespares(t, n, e, det);
    if Fit(t, n, e).Some? {
      RespareTree(t, Fit(t, n, e).value, n, det, det);
    }
  }

  /** After growing, no block is owned twice exactly when at most one block was added. */
  lemma GrownOwned(t: Table, det: set<nat>, n: nat, size: nat, block: nat, hi: nat)
    requires Growable(t, det, n, size) && FirstDataBlock(|t|) <= block && Owned(t, hi)
    requires NeededBlocks(t[n].size) < NeededBlocks(size) ==> block < hi && !Busy(t, block)
    ensures EntryOk(t, n)
    ensures match Grown(t, n, size, block)
            case None => true
            case Some(t') => Owned(t', hi) <==> NeededBlocks(size) - NeededBlocks(t[n].size) <= 1
  {
    GrownTree(t, det, n, size, block);
    NeededMonotone(t[n].size, size);
    if Grown(t, n, size, block).Some? {
      var t' := Grown(t, n, size, block).value;
      forall i: nat, a: nat
        ensures NewRef(t, t', n, NeededBlocks(t[n].size), NeededBlocks(size), block, i, a)
      {
        GrownLiveRef(t, t', det, n, size, block, i, a);
      }
      assert IsHead(t, n);
      hide Growable, Tree, Respare, Fit, HeadOk, IsHead, NewRef, GrownHead, Owned;
      OwnedIff(t, t', n, NeededBlocks(t[n].size), NeededBlocks(size), block, hi);
    }
  }

  /** Reference a of head i in t' is live if it was in t, where it is not block, or if it is
      one of the new ones of n, which all name block. */
  ghost predicate NewRef(t: Table, t': Table, n: nat, cur: nat, fin: nat, block: nat, i: nat, a: nat) {
    && |t'| == |t|
    && (LiveRef(t', i, a) <==> LiveRef(t, i, a) || (i == n && cur <= a < fin))
    && (LiveRef(t, i, a) ==> a < |t'[i].refs| && t'[i].refs[a] == t[i].refs[a] && (cur < fin ==> t[i].refs[a] != block))
    && (i == n && cur <= a < fin ==> LiveRef(t', i, a) && t'[i].refs[a] == block)
    && (i == n && LiveRef(t, i, a) ==> a < cur)
  }

  lemma OwnedIff(t: Table, t': Table, n: nat, cur: nat, fin: nat, block: nat, hi: nat)
    requires Owned(t, hi) && cur <= fin && (cur < fin ==> block < hi)
    requires forall i: nat, a: nat :: NewRef(t, t', n, cur, fin, block, i, a)
    ensures Owned(t', hi) <==> fin - cur <= 1
  {
    if fin - cur > 1 {
      assert NewRef(t, t', n, cur, fin, block, n, cur) && NewRef(t, t', n, cur, fin, block, n, cur + 1);
      assert LiveRef(t', n, cur) && LiveRef(t', n, cur + 1);
    } else {
      forall i: nat, a: nat | LiveRef(t', i, a) ensures t'[i].refs[a] < hi {
        assert NewRef(t, t', n, cur, fin, block, i, a);
      }
      forall i: nat, a: nat, j: nat, b: nat
        | LiveRef(t', i, a) && LiveRef(t', j, b) && t'[i].refs[a] == t'[j].refs[b]
        ensures i == j && a == b
      {
        assert NewRef(t, t', n, cur, fin, block, i, a) && NewRef(t, t', n, cur, fin, block, j, b);
      }
    }
  }

  lemma GrownLiveRef(t: Table, t': Table, det: set<nat>, n: nat, size: nat, block: nat, i: nat, a: nat)
    requires Growable(t, det, n, size) && FirstDataBlock(|t|) <= block
    requires NeededBlocks(t[n].size) < NeededBlocks(size) ==> !Busy(t, block)
    requires Respare(t, t', n) && t'[n] == GrownHead(t[n], size, block).(next := t'[n].next)
    ensures NewRef(t, t', n, NeededBlocks(t[n].size), NeededBlocks(size), block, i, a)
  {
    RespareHeads(t, t', n, det);
    GrownHeadOk(t, det, n, size, block);
    if LiveRef(t, i, a) {
      assert EntryOk(t, i) && EntryOk(t, n);
      BusyIsLive(t, det, block);
    }
    if i < |t| {
      assert EntryOk(t, i) && EntryOk(t, n);
    }
  }
}
