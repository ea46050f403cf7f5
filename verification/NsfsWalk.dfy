/** The walk of set_entry_refcount along a chain, step by step, and what it amounts to. */
module NsfsWalk {
  import opened NsfsTypes
  import opened NsfsChain

  /** Between t0 and t1 the entries of chain c from position p up to j were zeroed. */
  ghost predicate Dropping(t0: Table, t1: Table, t: Table, c: seq<nat>, p: nat, j: nat) {
    && |t0| == |t1| == |t| && InTable(t, c) && Distinct(c)
    && (forall k :: j <= k < |c| ==> t1[c[k]] == t[c[k]])
    && (forall k :: p <= k < j && k < |c| ==> t1[c[k]] == Zero())
    && (forall i :: 0 <= i < |t| && i !in Tail(c, p) ==> t1[i] == t0[i])
  }

  lemma DropStep(t0: Table, t1: Table, t: Table, c: seq<nat>, p: nat, j: nat)
    requires IsChain(t, c) && p <= j < |c| && Dropping(t0, t1, t, c, p, j)
    ensures c[j] < |t1| && Dropping(t0, t1[c[j] := Zero()], t, c, p, j + 1)
    ensures t1[c[j]].next == (if j + 1 < |c| then c[j + 1] else 0)
    ensures t1[c[j]].next == 0 <==> j + 1 == |c|
  {
    NextLink(t, c, j);
  }

  lemma DropEnds(t0: Table, t1: Table, t: Table, c: seq<nat>, p: nat)
    requires p <= |c| && Dropping(t0, t1, t, c, p, |c|)
    ensures t1 == ZeroOut(t0, Tail(c, p))
  {
  }

  lemma ReachFails(t: Table, c: seq<nat>, refcount: nat)
    requires Linked(t, c)
    ensures Reach(t, c[0], Links(refcount)).None? <==> Resize(t, c, refcount).None?
  {
    ReachResize(t, c, refcount);
  }

  /** The resizing is complete when the walk ends on an entry without a next one. */
  lemma ResizeEnds(t: Table, c: seq<nat>, refcount: nat, reached: Table, n: nat)
    requires Linked(t, c) && n < |reached| && reached[n].next == 0 && |reached[n].refs| == SFS_ENTRYREFS
    requires Reach(t, c[0], Links(refcount)) == Some((reached, n))
    ensures Resize(t, c, refcount).Some?
    ensures Resize(t, c, refcount).value.0
            == reached[n := reached[n].(refs := ClearFrom(reached[n].refs, refcount % SFS_ENTRYREFS))]
  {
    ReachResize(t, c, refcount);
    var m, from := Links(refcount), refcount % SFS_ENTRYREFS;
    if m < |c| {
      NoLinksLeft(t, c, m, from);
    } else {
      assert ClearFrom(reached[n].refs, from) == reached[n].refs;
      assert reached[n := reached[n]] == reached;
    }
  }

  lemma NoLinksLeft(t: Table, c: seq<nat>, m: nat, from: nat)
    requires Linked(t, c) && m < |c| && t[c[m]].next == 0 && from < SFS_ENTRYREFS
    ensures ZeroOut(EndAt(t, c[m], from), Tail(c, m + 1))
            == t[c[m] := t[c[m]].(refs := ClearFrom(t[c[m]].refs, from))]
  {
    NextLink(t, c, m);
    assert Tail(c, m + 1) == {};
  }

  /** Otherwise the walk ended inside the chain, and the links after it go. */
  lemma ResizeCuts(t: Table, c: seq<nat>, refcount: nat, reached: Table, n: nat)
    requires Linked(t, c) && n < |reached| && reached[n].next != 0
    requires Reach(t, c[0], Links(refcount)) == Some((reached, n))
    ensures var m, from := Links(refcount), refcount % SFS_ENTRYREFS;
            && reached == t && IsChain(t, c) && 0 < m + 1 < |c| && c[m + 1] == t[n].next
            && Distinct(c) && |t[n].refs| == SFS_ENTRYREFS
            && Dropping(EndAt(t, n, from), EndAt(t, n, from), t, c, m + 1, m + 1)
            && Resize(t, c, refcount).Some?
            && Resize(t, c, refcount).value.0 == ZeroOut(EndAt(t, n, from), Tail(c, m + 1))
  {
    ReachResize(t, c, refcount);
    NextLink(t, c, Links(refcount));
  }

  /** The entry reached by following m links from entry n, appending links at the end of
      the chain, and the table by then. */
  ghost function Reach(t: Table, n: nat, m: nat): (r: Option<(Table, nat)>)
    requires n < |t| && Shaped(t)
    decreases m
  {
    assert EntryShaped(t, t[n]);
    if m == 0 then Some((t, n)) else
    if t[n].next != 0 then Reach(t, t[n].next, m - 1) else
    var f := FirstFree(t);
    if f == |t| then None else
    AppendShaped(t, n, f);
    Reach(Append(t, n, f), f, m - 1)
  }

  lemma AppendShaped(t: Table, n: nat, f: nat)
    requires n < |t| && f < |t| && Shaped(t)
    ensures Shaped(Append(t, n, f))
  {
    var t' := Append(t, n, f);
    assert forall i :: 0 <= i < |t| ==> EntryShaped(t, t[i]);
    assert forall i :: 0 <= i < |t| ==> EntryShaped(t', t'[i]);
  }

  lemma {:induction false} ReachWalks(t: Table, c: seq<nat>, k: nat, m: nat)
    requires Linked(t, c) && k < |c|
    ensures k + m < |c| ==> Reach(t, c[k], m) == Some((t, c[k + m]))
    ensures k + m >= |c| ==> Reach(t, c[k], m) == Reach(t, c[|c| - 1], k + m + 1 - |c|)
    decreases m
  {
    if m > 0 && k < |c| - 1 {
      assert t[c[k]].next == c[k + 1];
      ReachWalks(t, c, k + 1, m - 1);
    }
  }

  lemma {:induction false} ReachGrows(t: Table, last: nat, m: nat)
    requires last < |t| && Shaped(t) && Used(t[0]) && (m == 0 || t[last].next == 0)
    ensures match Grow(t, last, m)
            case None => Reach(t, last, m).None?
            case Some(g) => Reach(t, last, m) == Some((g.0, if m == 0 then last else g.1[m - 1]))
    decreases m
  {
    if m > 0 && FirstFree(t) < |t| {
      var f := FirstFree(t);
      AppendShaped(t, last, f);
      ReachGrows(Append(t, last, f), f, m - 1);
    }
  }

  /** Where the walk of set_entry_refcount ends. */
  lemma ReachResize(t: Table, c: seq<nat>, refcount: nat)
    requires Linked(t, c)
    ensures var m, reach := Links(refcount), Reach(t, c[0], Links(refcount));
            if m < |c| then reach == Some((t, c[m]))
            else match Resize(t, c, refcount)
                 case None => reach.None?
                 case Some(r) => reach == Some((r.0, r.1[m])) && r.0[r.1[m]].refs == Zeros(SFS_ENTRYREFS)
                                 && r.0[r.1[m]].next == 0
  {
    hide Reach, Grow, ZeroOut, EndAt, LinkedBack, Distinct, Zeros, Links;
    var m := Links(refcount);
    ReachWalks(t, c, 0, m);
    if m >= |c| {
      ReachGrows(t, c[|c| - 1], m + 1 - |c|);
      if Resize(t, c, refcount).Some? {
        GrowFresh(t, c[|c| - 1], m + 1 - |c|);
        ResizeLinked(t, c, refcount);
      }
    }
  }
}
