/** Subtrees: the entries whose chain of parent fields passes through a given entry. */
module NsfsSubtree {
  import opened NsfsTypes
  import opened NsfsTree

  ghost function DepthOf(t: Table): seq<nat>
    requires Acyclic(t)
  {
    var d :| Deep(t, d);
    d
  }

  /** Following parent fields from entry i leads to entry x. */
  ghost predicate Under(t: Table, i: nat, x: nat)
    requires Acyclic(t) && i < |t|
    decreases DepthOf(t)[i]
  {
    i == x || (i != 0 && Used(t[i]) && Under(t, t[i].parent, x))
  }

  /** Head x, all heads below it, and their links. */
  ghost function Sub(t: Table, x: nat): (s: set<nat>)
    requires Acyclic(t)
    ensures forall i: nat :: i in s <==> i < |t| && Used(t[i]) && Under(t, i, x)
  {
    set i: nat | i < |t| && Used(t[i]) && Under(t, i, x)
  }

  lemma {:induction false} UnderDepth(t: Table, i: nat, x: nat)
    requires Acyclic(t) && i < |t| && Under(t, i, x)
    ensures x < |t| && DepthOf(t)[x] <= DepthOf(t)[i]
    ensures i != x ==> DepthOf(t)[x] < DepthOf(t)[i]
    decreases DepthOf(t)[i]
  {
    if i != x {
      UnderDepth(t, t[i].parent, x);
    }
  }

  lemma {:induction false} UnderTrans(t: Table, i: nat, j: nat, k: nat)
    requires Acyclic(t) && i < |t| && j < |t| && Under(t, i, j) && Under(t, j, k)
    ensures Under(t, i, k)
    decreases DepthOf(t)[i]
  {
    if i != j {
      UnderTrans(t, t[i].parent, j, k);
    }
  }

  /** Everything below n but n itself is below an entry whose parent is n. */
  lemma {:induction false} UnderVia(t: Table, i: nat, n: nat) returns (c: nat)
    requires Acyclic(t) && i < |t| && i != n && Under(t, i, n)
    ensures 0 < c < |t| && Used(t[c]) && t[c].parent == n && Under(t, i, c)
    decreases DepthOf(t)[i]
  {
    if t[i].parent == n {
      c := i;
    } else {
      c := UnderVia(t, t[i].parent, n);
    }
  }

  /** The subtrees of two entries with the same parent have nothing in common. */
  lemma {:induction false} SiblingsApart(t: Table, i: nat, a: nat, b: nat)
    requires Acyclic(t) && i < |t| && 0 < a < |t| && 0 < b < |t| && a != b
    requires Used(t[a]) && Used(t[b]) && t[a].parent == t[b].parent
    ensures !(Under(t, i, a) && Under(t, i, b))
    decreases DepthOf(t)[i]
  {
    if Under(t, i, a) && Under(t, i, b) {
      if i == a {
        assert Under(t, t[a].parent, b);
        UnderDepth(t, t[a].parent, b);
      } else if i == b {
        assert Under(t, t[b].parent, a);
        UnderDepth(t, t[b].parent, a);
      } else {
        SiblingsApart(t, t[i].parent, a, b);
      }
    }
  }

  /** A subtree is the same in two tables that agree on its entries' kinds and parents, if no
      other entry of the second table hangs below it. */
  ghost predicate SameBelow(t: Table, t': Table, x: nat)
    requires Acyclic(t)
  {
    && |t| == |t'| && x in Sub(t, x)
    && (forall i :: i in Sub(t, x) ==> Used(t'[i]) && t'[i].parent == t[i].parent)
    && (forall i :: 0 < i < |t| && Used(t'[i]) && i !in Sub(t, x) ==> t'[i].parent !in Sub(t, x))
    && 0 !in Sub(t, x)
  }

  lemma SubSame(t: Table, t': Table, x: nat)
    requires Acyclic(t) && Acyclic(t') && SameBelow(t, t', x)
    ensures Sub(t', x) == Sub(t, x)
  {
    forall i: nat
      ensures i in Sub(t, x) <==> i in Sub(t', x)
    {
      if i in Sub(t, x) {
        SubStays(t, t', x, i);
      }
      if i in Sub(t', x) {
        SubCame(t, t', x, i);
      }
    }
  }

  lemma {:induction false} SubStays(t: Table, t': Table, x: nat, i: nat)
    requires Acyclic(t) && Acyclic(t') && SameBelow(t, t', x) && i in Sub(t, x)
    ensures Under(t', i, x)
    decreases DepthOf(t)[i]
  {
    if i != x {
      var p := t[i].parent;
      assert Under(t, p, x);
      SubStays(t, t', x, p);
    }
  }

  lemma {:induction false} SubCame(t: Table, t': Table, x: nat, i: nat)
    requires Acyclic(t) && Acyclic(t') && SameBelow(t, t', x)
    requires i < |t'| && Used(t'[i]) && Under(t', i, x)
    ensures i in Sub(t, x)
    decreases DepthOf(t')[i]
  {
    if i != x {
      var p := t'[i].parent;
      assert Under(t', p, x);
      if p == x || Used(t'[p]) {
        SubCame(t, t', x, p);
      }
    }
  }
}
