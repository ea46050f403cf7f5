/** Closed forms of the chain operations for heads with at most one link. */
module NsfsFit {
  import opened NsfsTypes
  import opened NsfsChain
  import opened NsfsTree

  /** The chain of a head. */
  function ChainOf(t: Table, h: nat): seq<nat>
    requires h < |t|
  {
    if t[h].next == 0 then [h] else [h, t[h].next]
  }

  /** Puts e in place of head h and keeps one spare link exactly when e has references: the
      link it has, or a copy of the old head in the lowest free entry. */
  function Fit(t: Table, h: nat, e: Entry): (r: Option<Table>)
    requires h < |t| && t[h].next < |t|
    ensures r.Some? ==> |r.value| == |t|
  {
    var q := t[h].next;
    var left := SizeAfter(e, e.size);
    if RefCount(e) == 0 then
      Some(if q == 0 then t[h := e.(next := 0)] else t[h := e.(next := 0)][q := Zero()])
    else if q != 0 then
      Some(t[h := e.(next := q)][q := t[q].(size := left)])
    else
      var f := FirstFree(t);
      if f == |t| then None else
      Some(t[h := e.(next := f)][f := Link(t[h], h).(size := left)])
  }

  lemma ChainLinked(t: Table, h: nat, det: set<nat>)
    requires Tree(t, det) && IsHead(t, h)
    ensures Linked(t, ChainOf(t, h))
  {
    assert EntryOk(t, h);
    assert Shaped(t) by {
      forall i | 0 <= i < |t| ensures EntryShaped(t, t[i]) {
        assert EntryOk(t, i);
      }
    }
  }

  /** Changing references does not unlink a chain. */
  lemma ReplaceRefsLinked(t: Table, c: seq<nat>, h: nat, refs: seq<nat>)
    requires Linked(t, c) && h < |t| && |refs| == SFS_ENTRYREFS
    ensures Linked(t[h := t[h].(refs := refs)], c)
  {
    var t' := t[h := t[h].(refs := refs)];
    forall i | 0 <= i < |t| ensures EntryShaped(t', t'[i]) {
      assert EntryShaped(t, t[i]);
    }
  }

  /** set_entry_size on a chain of one or two. */
  lemma SetSizesShort(t: Table, c: seq<nat>, size: nat)
    requires InTable(t, c) && 1 <= |c| <= 2
    ensures SetSizes(t, c, 0, size) ==
            var t1 := t[c[0] := t[c[0]].(size := size)];
            if |c| == 1 then t1 else t1[c[1] := t1[c[1]].(size := SizeAfter(t[c[0]], size))]
  {
    var t1 := t[c[0] := t[c[0]].(size := size)];
    var left := SizeAfter(t[c[0]], size);
    assert SetSizes(t, c, 0, size) == SetSizes(t1, c, 1, left);
    if |c| == 2 {
      var t2 := t1[c[1] := t1[c[1]].(size := left)];
      assert SetSizes(t1, c, 1, left) == SetSizes(t2, c, 2, SizeAfter(t1[c[1]], left));
    }
  }

  /** What set_entry_refcount and set_entry_size make of head h once its references are
      those of e. */
  ghost function Refit(t: Table, h: nat, e: Entry, rc: nat): (r: Option<Table>)
    requires h < |t| && Linked(t[h := e.(size := t[h].size)], ChainOf(t, h))
  {
    match Resize(t[h := e.(size := t[h].size)], ChainOf(t, h), rc)
    case None => None
    case Some((t2, c2)) => if InTable(t2, c2) then Some(SetSizes(t2, c2, 0, e.size)) else None
  }

  lemma LinkedUsed(t: Table, c: seq<nat>)
    requires Linked(t, c)
    ensures 0 < |c| && c[0] < |t| && Used(t[c[0]]) && Shaped(t) && IsChain(t, c)
  {
  }

  lemma ResizeNone(t: Table, c: seq<nat>)
    requires Linked(t, c) && t[c[0]].refs == Zeros(SFS_ENTRYREFS)
    ensures Resize(t, c, 0) == Some((ZeroOut(t[c[0] := t[c[0]].(next := 0)], Tail(c, 1)), [c[0]]))
  {
    assert ClearFrom(t[c[0]].refs, 0) == t[c[0]].refs;
    assert c[..1] == [c[0]];
  }

  lemma FitsEmpty(t: Table, h: nat, e: Entry)
    requires h < |t| && Linked(t[h := e.(size := t[h].size)], ChainOf(t, h))
    requires e == t[h].(refs := e.refs, size := e.size) && e.refs == Zeros(SFS_ENTRYREFS)
    requires e.size == 0 && RefCount(e) == 0
    ensures Refit(t, h, e, 0) == Fit(t, h, e)
  {
    hide Linked, IsChain, Resize, ClearFrom;
    var t1, c := t[h := e.(size := t[h].size)], ChainOf(t, h);
    LinkedUsed(t1, c);
    ResizeNone(t1, c);
    var t2 := ZeroOut(t1[h := t1[h].(next := 0)], Tail(c, 1));
    SetSizesShort(t2, [h], 0);
    assert SetSizes(t2, [h], 0, 0) == Fit(t, h, e).value;
  }

  /** A chain of two with an empty spare link already fits 1 to 120 references. */
  lemma ResizeKept(t: Table, c: seq<nat>, rc: nat)
    requires Linked(t, c) && |c| == 2 && t[c[1]].refs == Zeros(SFS_ENTRYREFS)
    requires 0 < rc <= SFS_ENTRYREFS
    ensures Resize(t, c, rc) == Some((t, c))
  {
    var q, from := c[1], rc % SFS_ENTRYREFS;
    NextLink(t, c, 1);
    assert q < |t| && Distinct(c);
    hide Linked, IsChain;
    assert Links(rc) == 1 && c[..2] == c;
    assert EndAt(t, q, from) == t by {
      assert ClearFrom(t[q].refs, from) == t[q].refs;
    }
    assert ZeroOut(t, Tail(c, 2)) == t;
  }

  lemma FitsKept(t: Table, h: nat, e: Entry, rc: nat)
    requires h < |t| && Linked(t[h := e.(size := t[h].size)], ChainOf(t, h))
    requires e == t[h].(refs := e.refs, size := e.size) && RefCount(e) == rc && 0 < rc <= SFS_ENTRYREFS
    requires t[h].next != 0 && t[h].next != h && t[h].next < |t| && t[t[h].next].refs == Zeros(SFS_ENTRYREFS)
    ensures Refit(t, h, e, rc) == Fit(t, h, e)
  {
    var t1, c := t[h := e.(size := t[h].size)], ChainOf(t, h);
    var q, left := t[h].next, SizeAfter(e, e.size);
    assert InTable(t1, c) && c == [h, q];
    ResizeKept(t1, c, rc);
    assert Refit(t, h, e, rc) == Some(SetSizes(t1, c, 0, e.size));
    assert Fit(t, h, e) == Some(t[h := e.(next := q)][q := t[q].(size := left)]);
    hide *;
    SetSizesShort(t1, c, e.size);
    assert t1[h := t1[h].(size := e.size)] == t[h := e.(next := q)];
  }

  lemma ResizeTaken(t: Table, h: nat, rc: nat)
    requires Linked(t, [h]) && 0 < rc <= SFS_ENTRYREFS
    ensures h < |t|
    ensures var f := FirstFree(t);
            Resize(t, [h], rc) == if f == |t| then None else Some((Append(t, h, f), [h, f]))
  {
    var f := FirstFree(t);
    assert Links(rc) == 1 && [h][0] == h;
    if f < |t| {
      var t2 := Append(t, h, f);
      assert Grow(t2, f, 0) == Some((t2, [])) && [f] + [] == [f] && [h] + [f] == [h, f];
      assert Grow(t, h, 1) == Some((t2, [f]));
    }
  }

  lemma FitsTaken(t: Table, h: nat, e: Entry, rc: nat)
    requires h < |t| && Linked(t[h := e.(size := t[h].size)], ChainOf(t, h))
    requires e == t[h].(refs := e.refs, size := e.size) && RefCount(e) == rc && 0 < rc <= SFS_ENTRYREFS
    requires t[h].next == 0
    ensures Refit(t, h, e, rc) == Fit(t, h, e)
  {
    hide Linked, IsChain, Zeros, RefCount, Resize;
    var t1, c := t[h := e.(size := t[h].size)], ChainOf(t, h);
    LinkedUsed(t1, c);
    ResizeTaken(t1, h, rc);
    FirstFreeSame(t, t1);
    var f := FirstFree(t);
    if f < |t| {
      var t2 := Append(t1, h, f);
      SetSizesShort(t2, [h, f], e.size);
      assert Link(t1[h], h) == Link(t[h], h);
      assert SetSizes(t2, [h, f], 0, e.size) == Fit(t, h, e).value;
    }
  }

  lemma FirstFreeSame(t: Table, t': Table)
    requires |t| == |t'| && forall i :: 0 <= i < |t| ==> (Used(t[i]) <==> Used(t'[i]))
    ensures FirstFree(t) == FirstFree(t')
  {
  }

  /** set_entry_refcount followed by set_entry_size on a head of t whose references have
      become those of e. */
  lemma Refits(t: Table, h: nat, e: Entry, det: set<nat>)
    requires Tree(t, det) && IsHead(t, h)
    requires e == t[h].(refs := e.refs, size := e.size) && SizeOk(e) && |e.refs| == SFS_ENTRYREFS
    ensures Linked(t[h := e.(size := t[h].size)], ChainOf(t, h))
    ensures Refit(t, h, e, RefCount(e)) == Fit(t, h, e)
  {
    assert EntryOk(t, h);
    ChainLinked(t, h, det);
    ReplaceRefsLinked(t, ChainOf(t, h), h, e.refs);
    assert e.(size := t[h].size) == t[h].(refs := e.refs);
    RefCountBounds(e);
    hide Tree, Linked, Refit, Fit, ClearedFrom;
    if RefCount(e) == 0 {
      assert e.refs == Zeros(SFS_ENTRYREFS);
      FitsEmpty(t, h, e);
    } else if t[h].next != 0 {
      FitsKept(t, h, e, RefCount(e));
    } else {
      FitsTaken(t, h, e, RefCount(e));
    }
  }

  lemma RefCountBounds(e: Entry)
    requires SizeOk(e) && Used(e) && !(e.dir && e.file) && |e.refs| == SFS_ENTRYREFS
    ensures RefCount(e) <= SFS_ENTRYREFS
    ensures RefCount(e) == if e.dir then e.size else NeededBlocks(e.size)
    ensures RefCount(e) == 0 ==> e.size == 0 && e.refs == Zeros(SFS_ENTRYREFS)
  {
    assert RefCount(e) == 0 ==> e.refs == Zeros(SFS_ENTRYREFS);
  }
}
