/** What deleting an entry does to the table: the subtree goes, the parent loses one item. */
module NsfsDelete {
  import opened NsfsTypes
  import opened NsfsChain
  import opened NsfsTree
  import opened NsfsFit
  import opened NsfsDir
  import opened NsfsSubtree

  /** x is a head in its parent's list, and nothing below it has been taken from its list. */
  ghost predicate Deletable(t: Table, det: set<nat>, x: nat) {
    && Tree(t, det) && Acyclic(t)
    && IsHead(t, x) && x != 0 && x !in det
    && det !! Sub(t, x)
  }

  /** The table after deleting head x with everything below it. */
  ghost function Deleted(t: Table, det: set<nat>, x: nat): (r: Option<Table>)
    requires Deletable(t, det, x)
    ensures r.Some? ==> |r.value| == |t|
  {
    ParentLists(t, det, x);
    match Detached(t, t[x].parent, x)
    case None => None
    case Some(t1) => Some(ZeroOut(t1, Sub(t, x)))
  }

  lemma ParentLists(t: Table, det: set<nat>, x: nat)
    requires Tree(t, det) && IsHead(t, x) && x != 0 && x !in det
    ensures EntryOk(t, x) && IsDir(t, t[x].parent)
    ensures EntryOk(t, t[x].parent) && HeadOk(|t|, t[t[x].parent])
    ensures x in Items(t[t[x].parent])
  {
    assert EntryOk(t, x);
    assert EntryOk(t, t[x].parent) && ListOk(t, det, t[x].parent);
    assert IsChild(t, x, t[x].parent);
  }

  /** The parent of x is not below x. */
  lemma ParentAbove(t: Table, x: nat)
    requires Acyclic(t) && 0 < x < |t| && Used(t[x])
    ensures t[x].parent < |t| && !Under(t, t[x].parent, x)
  {
    if Under(t, t[x].parent, x) {
      UnderDepth(t, t[x].parent, x);
    }
  }

  lemma RootAbove(t: Table, x: nat)
    requires Acyclic(t) && 0 < x && 0 < |t|
    ensures 0 !in Sub(t, x)
  {
  }

  /** Changing a head outside the subtree of x, and its link, does not change the subtree. */
  lemma RespareSub(t: Table, t': Table, h: nat, det: set<nat>, x: nat)
    requires Tree(t, det) && Acyclic(t) && Acyclic(t') && Respare(t, t', h)
    requires IsHead(t, x) && x != 0 && !Under(t, h, x)
    ensures Sub(t', x) == Sub(t, x)
    ensures forall i :: i in Sub(t, x) ==> t'[i] == t[i]
  {
    forall i | i in Sub(t, x)
      ensures t'[i] == t[i]
    {
      assert EntryOk(t, i) && EntryOk(t, h);
      assert i == x || Under(t, t[i].parent, x);
    }
    RootAbove(t, x);
    forall i | 0 < i < |t| && Used(t'[i]) && i !in Sub(t, x)
      ensures t'[i].parent !in Sub(t, x)
    {
      assert EntryOk(t, i) && EntryOk(t, h);
      if Used(t[i]) && t'[i].parent == t[i].parent {
        assert Under(t, i, x) <==> i == x || Under(t, t[i].parent, x);
      }
    }
    SubSame(t, t', x);
  }

  /** Taking x from its parent's list leaves the subtree of x alone. */
  lemma DetachSub(t: Table, det: set<nat>, x: nat)
    requires Deletable(t, det, x)
    ensures EntryOk(t, x) && EntryOk(t, t[x].parent) && HeadOk(|t|, t[t[x].parent]) && x in Items(t[t[x].parent])
    ensures match Detached(t, t[x].parent, x)
            case None => true
            case Some(t1) => && Tree(t1, det + {x}) && Acyclic(t1) && IsHead(t1, x) && Respare(t, t1, t[x].parent)
                             && Sub(t1, x) == Sub(t, x)
                             && forall i :: i in Sub(t, x) ==> t1[i] == t[i]
  {
    var p := t[x].parent;
    ParentLists(t, det, x);
    DetachTree(t, p, x, det);
    if Detached(t, p, x).Some? {
      var t1 := Detached(t, p, x).value;
      RespareAcyclic(t, t1, p, det);
      RespareHeads(t, t1, p, det);
      ParentAbove(t, x);
      RespareSub(t, t1, p, det, x);
    }
  }

  // ----- zeroing a subtree

  lemma ZeroAcyclic(t: Table, s: set<nat>)
    requires Acyclic(t)
    ensures Acyclic(ZeroOut(t, s))
  {
    var d :| Deep(t, d);
    assert Deep(ZeroOut(t, s), d);
  }

  lemma ZeroHead(t: Table, det: set<nat>, x: nat, i: nat)
    requires Tree(t, det) && Acyclic(t) && IsHead(t, x) && x != 0 && i < |t|
    ensures IsHead(ZeroOut(t, Sub(t, x)), i) <==> IsHead(t, i) && i !in Sub(t, x)
  {
    assert EntryOk(t, i);
    assert i != 0 ==> (Under(t, i, x) <==> i == x || (Used(t[i]) && Under(t, t[i].parent, x)));
    assert i in Sub(t, x) || i == 0 || !Used(t[i]) || t[i].parent !in Sub(t, x);
  }

  lemma ZeroEntry(t: Table, det: set<nat>, x: nat, i: nat)
    requires Tree(t, det) && Acyclic(t) && IsHead(t, x) && x != 0 && i < |t|
    ensures EntryOk(ZeroOut(t, Sub(t, x)), i)
  {
    var s := Sub(t, x);
    var t' := ZeroOut(t, s);
    RootAbove(t, x);
    assert EntryOk(t, i) && EntryOk(t, 0);
    if i !in s && Used(t[i]) {
      ZeroHead(t, det, x, i);
      var p := t[i].parent;
      assert i != 0 ==> (Under(t, i, x) <==> i == x || Under(t, p, x));
      if IsHead(t, i) {
        assert EntryOk(t, p);
        ZeroHead(t, det, x, p);
      }
      if t[i].next != 0 {
        var q := t[i].next;
        assert SpareOk(t, i, q);
        assert Under(t, q, x) <==> q == x || Under(t, i, x);
      }
    }
  }

  lemma ZeroList(t: Table, det: set<nat>, x: nat, d: nat)
    requires Tree(t, det) && Acyclic(t) && IsHead(t, x) && x != 0 && x in det
    requires d < |t| && IsDir(ZeroOut(t, Sub(t, x)), d)
    ensures ListOk(ZeroOut(t, Sub(t, x)), det - {x}, d)
  {
    var s := Sub(t, x);
    var t' := ZeroOut(t, s);
    ZeroHead(t, det, x, d);
    assert t'[d] == t[d] && ListOk(t, det, d);
    forall c: nat
      ensures IsChild(t', c, d) && c !in det - {x} <==> IsChild(t, c, d) && c !in det
    {
      if c < |t| {
        ZeroHead(t, det, x, c);
        assert c != 0 && Used(t[c]) ==> (Under(t, c, x) <==> c == x || Under(t, t[c].parent, x));
      }
    }
  }

  /** Zeroing the subtree of a detached head leaves a tree. */
  lemma ZeroTree(t: Table, det: set<nat>, x: nat)
    requires Tree(t, det) && Acyclic(t) && IsHead(t, x) && x != 0 && x in det
    ensures Tree(ZeroOut(t, Sub(t, x)), det - {x})
  {
    var t' := ZeroOut(t, Sub(t, x));
    RootAbove(t, x);
    forall i | 0 <= i < |t'| ensures EntryOk(t', i) {
      ZeroEntry(t, det, x, i);
    }
    forall d | 0 <= d < |t'| && IsDir(t', d) ensures ListOk(t', det - {x}, d) {
      ZeroList(t, det, x, d);
    }
  }

  lemma ZeroNames(t: Table, det: set<nat>, x: nat)
    requires Tree(t, det) && Acyclic(t) && Names(t) && IsHead(t, x) && x != 0
    ensures Names(ZeroOut(t, Sub(t, x)))
  {
    var t' := ZeroOut(t, Sub(t, x));
    forall i: nat | IsHead(t', i)
      ensures IsHead(t, i) && t'[i] == t[i]
    {
      ZeroHead(t, det, x, i);
    }
  }

  /** Deleting keeps the tree, its names and its depth order. */
  lemma DeletedTree(t: Table, det: set<nat>, x: nat)
    requires Deletable(t, det, x)
    ensures match Deleted(t, det, x)
            case None => true
            case Some(t') => Tree(t', det) && Acyclic(t') && (Names(t) ==> Names(t'))
  {
    DetachSub(t, det, x);
    if Deleted(t, det, x).Some? {
      var t1 := Detached(t, t[x].parent, x).value;
      ZeroTree(t1, det + {x}, x);
      ZeroAcyclic(t1, Sub(t, x));
      assert det + {x} - {x} == det;
      if Names(t) {
        RespareNames(t, t1, t[x].parent, det);
        ZeroNames(t1, det + {x}, x);
      }
    }
  }

  /** Deleting zeroes exactly the subtree, takes one item out of the parent's list and leaves the
      others in their order, and touches nothing else but the parent's link. */
  lemma DeletedExactly(t: Table, det: set<nat>, x: nat)
    requires Deletable(t, det, x)
    ensures match Deleted(t, det, x)
            case None => true
            case Some(t') =>
              var p := t[x].parent;
              && p < |t| && x in Items(t[p]) && p !in Sub(t, x) && |t'| == |t|
              && (forall i :: i in Sub(t, x) ==> t'[i] == Zero())
              && (forall i :: 0 <= i < |t| && i !in Sub(t, x) && i != p && !LinksTo(t[p], i) && !LinksTo(t'[p], i) ==>
                    t'[i] == t[i])
              && Items(t'[p]) == Remove(Items(t[p]), Find(Items(t[p]), x))
              && t'[p] == t[p].(size := t[p].size - 1, next := t'[p].next, refs := t'[p].refs)
  {
    ParentLists(t, det, x);
    DetachSub(t, det, x);
    ParentAbove(t, x);
    var p := t[x].parent;
    if Deleted(t, det, x).Some? {
      DirSized(t, p, det);
      DropItemItems(t[p], x);
      FitRespares(t, p, DropItem(t[p], x), det);
      assert Items(DropItem(t[p], x)) == Items(Detached(t, p, x).value[p]);
    }
  }

  /** Zeroing one subtree leaves a disjoint one alone. */
  lemma ZeroSub(t: Table, s: set<nat>, x: nat)
    requires Acyclic(t) && s !! Sub(t, x) && 0 < x < |t| && Used(t[x])
    ensures Acyclic(ZeroOut(t, s)) && Sub(ZeroOut(t, s), x) == Sub(t, x)
  {
    var t' := ZeroOut(t, s);
    ZeroAcyclic(t, s);
    RootAbove(t, x);
    forall i | 0 < i < |t| && Used(t'[i]) && i !in Sub(t, x)
      ensures t'[i].parent !in Sub(t, x)
    {
      assert t'[i] == t[i];
      assert Under(t, i, x) <==> i == x || Under(t, t[i].parent, x);
    }
    SubSame(t, t', x);
  }

  lemma SiblingSubs(t: Table, a: nat, b: nat)
    requires Acyclic(t) && 0 < a < |t| && 0 < b < |t| && a != b
    requires Used(t[a]) && Used(t[b]) && t[a].parent == t[b].parent
    ensures Sub(t, a) !! Sub(t, b)
  {
    forall i | i in Sub(t, a) && i in Sub(t, b) ensures false {
      SiblingsApart(t, i, a, b);
    }
  }

  // ----- emptying a directory, item by item

  /** Entry i is below one of the first b heads in l. */
  ghost predicate InFirst(t: Table, l: seq<nat>, b: nat, i: nat)
    requires Acyclic(t) && b <= |l|
  {
    exists a :: 0 <= a < b && i in Sub(t, l[a])
  }

  /** What the deletion of the first b of n's items made of entry i. */
  ghost predicate EntryEmptied(t0: Table, n: nat, l: seq<nat>, b: nat, t: Table, i: nat)
    requires Acyclic(t0) && b <= |l| && |t| == |t0| && n < |t0| && i < |t0|
  {
    && (InFirst(t0, l, b, i) ==> t[i] == Zero() && !LinksTo(t[n], i))
    && (!InFirst(t0, l, b, i) && !LinksTo(t0[n], i) && !LinksTo(t[n], i) ==> t[i] == t0[i])
    && (LinksTo(t0[n], i) && !LinksTo(t[n], i) ==> t[i] == Zero())
    && (LinksTo(t[n], i) ==> LinksTo(t0[n], i) || !Used(t0[i]))
  }

  /** Directory n, detached, with items l, and no other detached head below it. */
  ghost predicate Emptiable(t0: Table, det: set<nat>, n: nat, l: seq<nat>) {
    && Tree(t0, det) && Acyclic(t0) && IsDir(t0, n) && n != 0 && l == Items(t0[n])
    && n in det && (det - {n}) !! Sub(t0, n)
  }

  /** The subtrees of the items still to be deleted are as they were. */
  ghost predicate SubsKept(t0: Table, l: seq<nat>, b: nat, t: Table)
    requires Acyclic(t0) && Acyclic(t)
  {
    forall a :: b <= a < |l| ==> Sub(t, l[a]) == Sub(t0, l[a])
  }

  ghost predicate EntriesEmptied(t0: Table, n: nat, l: seq<nat>, b: nat, t: Table)
    requires Acyclic(t0) && b <= |l| && |t| == |t0| && n < |t0|
  {
    forall i :: 0 <= i < |t0| && i != n ==> EntryEmptied(t0, n, l, b, t, i)
  }

  /** Table t is t0 with the first b of the items l of directory n deleted. */
  ghost predicate Emptying(t0: Table, det: set<nat>, n: nat, l: seq<nat>, b: nat, t: Table) {
    && Emptiable(t0, det, n, l) && Acyclic(t) && |t| == |t0| && b <= |l|
    && Tree(t, det) && IsDir(t, n) && Items(t[n]) == l[b..]
    && SubsKept(t0, l, b, t) && EntriesEmptied(t0, n, l, b, t)
    && (b > 0 && t[n].next == 0 ==> b == |l|)
  }

  /** The items of a directory to be emptied are children of it, each below it and apart
      from the others. */
  lemma ItemsBelow(t0: Table, det: set<nat>, n: nat, l: seq<nat>, a: nat)
    requires Emptiable(t0, det, n, l) && a < |l|
    ensures IsChild(t0, l[a], n) && l[a] !in det && l[a] != n
    ensures Sub(t0, l[a]) <= Sub(t0, n) && n !in Sub(t0, l[a])
    ensures forall b :: 0 <= b < |l| && b != a ==> Sub(t0, l[a]) !! Sub(t0, l[b])
  {
    assert ListOk(t0, det, n) && l[a] in Items(t0[n]);
    ParentAbove(t0, l[a]);
    forall i | i in Sub(t0, l[a]) ensures i in Sub(t0, n) {
      assert Under(t0, l[a], n);
      UnderTrans(t0, i, l[a], n);
    }
    forall b | 0 <= b < |l| && b != a ensures Sub(t0, l[a]) !! Sub(t0, l[b]) {
      assert l[b] in Items(t0[n]);
      SiblingSubs(t0, l[a], l[b]);
    }
  }

  lemma EmptyStart(t0: Table, det: set<nat>, n: nat, l: seq<nat>)
    requires Emptiable(t0, det, n, l)
    ensures Emptying(t0, det, n, l, 0, t0)
  {
    forall i | 0 <= i < |t0| && i != n ensures EntryEmptied(t0, n, l, 0, t0, i) {
    }
  }

  /** The next item may be deleted. */
  lemma NextDeletable(t0: Table, det: set<nat>, n: nat, l: seq<nat>, b: nat, t: Table)
    requires Emptying(t0, det, n, l, b, t) && b < |l|
    ensures Deletable(t, det, l[b]) && t[l[b]].parent == n
  {
    var c := l[b];
    assert Items(t[n])[0] == c && c in Items(t[n]);
    assert ListOk(t, det, n) && IsChild(t, c, n);
    ItemsBelow(t0, det, n, l, b);
    assert det !! Sub(t, c);
  }

  /** What taking the next item from the list does to directory n and its link. */
  lemma NextDetached(t0: Table, det: set<nat>, n: nat, l: seq<nat>, b: nat, t: Table)
    requires Emptying(t0, det, n, l, b, t) && b < |l|
    ensures Deletable(t, det, l[b]) && t[l[b]].parent == n
    ensures EntryOk(t, n) && HeadOk(|t|, t[n]) && l[b] in Items(t[n])
    ensures match Detached(t, n, l[b])
            case None => true
            case Some(d) =>
              && Respare(t, d, n) && Items(d[n]) == l[b + 1..]
              && (d[n].next == 0 <==> b + 1 == |l|)
              && (t[n].next != 0 && d[n].next != 0 ==> d[n].next == t[n].next)
  {
    NextDeletable(t0, det, n, l, b, t);
    assert Tree(t, det) && IsDir(t, n) && Items(t[n]) == l[b..];
    DetachSub(t, det, l[b]);
    hide Emptying, Respare, Tree, Deletable, Acyclic, Sub, IsHead, DropItem, Find;
    if Detached(t, n, l[b]).Some? {
      FirstDropped(t[n], l[b], l[b..]);
      FitRespares(t, n, DropItem(t[n], l[b]), det);
      assert l[b..][1..] == l[b + 1..];
    }
  }

  /** Dropping the first item of a directory. */
  lemma FirstDropped(e: Entry, x: nat, l: seq<nat>)
    requires e.dir && !e.file && SizeOk(e) && |e.refs| == SFS_ENTRYREFS && Items(e) == l && l != [] && l[0] == x
    ensures Items(DropItem(e, x)) == l[1..] && (RefCount(DropItem(e, x)) == 0 <==> |l| == 1)
  {
    DropItemItems(e, x);
    assert Find(l, x) == 0 && Remove(l, 0) == l[1..];
    RefCountBounds(DropItem(e, x));
  }

  lemma StepEntry(t0: Table, det: set<nat>, n: nat, l: seq<nat>, b: nat, t: Table, d: Table, i: nat)
    requires Emptying(t0, det, n, l, b, t) && b < |l| && i < |t0| && i != n
    requires Respare(t, d, n) && n !in Sub(t, l[b])
    requires t[n].next != 0 && d[n].next != 0 ==> d[n].next == t[n].next
    ensures EntryEmptied(t0, n, l, b + 1, ZeroOut(d, Sub(t, l[b])), i)
  {
    var c := l[b];
    NextDeletable(t0, det, n, l, b, t);
    assert EntryOk(t, n) && EntryOk(t0, i) && EntryEmptied(t0, n, l, b, t, i);
    assert InFirst(t0, l, b + 1, i) <==> InFirst(t0, l, b, i) || i in Sub(t, c);
    if LinksTo(t[n], i) {
      assert SpareOk(t, n, i) && !IsHead(t, i);
      assert Under(t, i, c) <==> Under(t, n, c);
    }
  }

  lemma EmptyStep(t0: Table, det: set<nat>, n: nat, l: seq<nat>, b: nat, t: Table)
    requires Emptying(t0, det, n, l, b, t) && b < |l|
    ensures Deletable(t, det, l[b])
    ensures match Deleted(t, det, l[b])
            case None => true
            case Some(t') => Emptying(t0, det, n, l, b + 1, t')
  {
    hide SubsKept, EntriesEmptied, Emptiable, Deletable, Sub, Detached, Tree, Names, Acyclic, ZeroOut, Respare;
    var c := l[b];
    DirSized(t, n, det);
    NextDetached(t0, det, n, l, b, t);
    if Deleted(t, det, c).Some? {
      DetachSub(t, det, c);
      DeletedTree(t, det, c);
      EmptyNext(t0, det, n, l, b, t, Detached(t, n, c).value);
    }
  }

  lemma EmptyNext(t0: Table, det: set<nat>, n: nat, l: seq<nat>, b: nat, t: Table, d: Table)
    requires Emptying(t0, det, n, l, b, t) && b < |l| && |d| == |t| && Respare(t, d, n) && Items(d[n]) == l[b + 1..]
    requires Tree(d, det + {l[b]}) && Acyclic(d) && Sub(d, l[b]) == Sub(t, l[b]) && Deletable(t, det, l[b])
    requires d[n].next == 0 <==> b + 1 == |l|
    requires t[n].next != 0 && d[n].next != 0 ==> d[n].next == t[n].next
    requires var t' := ZeroOut(d, Sub(t, l[b])); Tree(t', det) && Acyclic(t')
    ensures Emptying(t0, det, n, l, b + 1, ZeroOut(d, Sub(t, l[b])))
  {
    hide Tree, Respare, Items, Deletable, IsHead, Acyclic, Sub, SubsKept, EntriesEmptied;
    EmptiedDir(t0, det, n, l, b, t, d);
    SubsNext(t0, det, n, l, b, t, d);
    EntriesNext(t0, det, n, l, b, t, d);
  }

  lemma SubsNext(t0: Table, det: set<nat>, n: nat, l: seq<nat>, b: nat, t: Table, d: Table)
    requires Emptying(t0, det, n, l, b, t) && b < |l| && Respare(t, d, n) && Acyclic(d)
    requires Acyclic(ZeroOut(d, Sub(t, l[b])))
    ensures SubsKept(t0, l, b + 1, ZeroOut(d, Sub(t, l[b])))
  {
    hide Tree, Respare, EntriesEmptied, Items, Sub;
    var t', b' := ZeroOut(d, Sub(t, l[b])), b + 1;
    forall a | b' <= a < |l| ensures Sub(t', l[a]) == Sub(t0, l[a]) {
      StepSub(t0, det, n, l, b, t, d, a);
    }
  }

  lemma EntriesNext(t0: Table, det: set<nat>, n: nat, l: seq<nat>, b: nat, t: Table, d: Table)
    requires Emptying(t0, det, n, l, b, t) && b < |l| && |d| == |t| && Respare(t, d, n) && n !in Sub(t, l[b])
    requires t[n].next != 0 && d[n].next != 0 ==> d[n].next == t[n].next
    ensures EntriesEmptied(t0, n, l, b + 1, ZeroOut(d, Sub(t, l[b])))
  {
    hide Tree, Respare, EntryEmptied, SubsKept, Items;
    var t', b' := ZeroOut(d, Sub(t, l[b])), b + 1;
    forall i | 0 <= i < |t0| && i != n ensures EntryEmptied(t0, n, l, b', t', i) {
      StepEntry(t0, det, n, l, b, t, d, i);
    }
  }

  /** The directory being emptied is not below the item that goes. */
  lemma EmptiedDir(t0: Table, det: set<nat>, n: nat, l: seq<nat>, b: nat, t: Table, d: Table)
    requires Emptying(t0, det, n, l, b, t) && b < |l| && Respare(t, d, n) && Deletable(t, det, l[b])
    requires Tree(d, det + {l[b]}) && Acyclic(d) && Sub(d, l[b]) == Sub(t, l[b])
    ensures n !in Sub(t, l[b]) && IsDir(ZeroOut(d, Sub(t, l[b])), n) && ZeroOut(d, Sub(t, l[b]))[n] == d[n]
  {
    ItemsBelow(t0, det, n, l, b);
    RespareHeads(t, d, n, det);
    hide Emptying, Tree, Sub;
    ZeroHead(d, det + {l[b]}, l[b], n);
  }

  lemma StepSub(t0: Table, det: set<nat>, n: nat, l: seq<nat>, b: nat, t: Table, d: Table, a: nat)
    requires Emptying(t0, det, n, l, b, t) && b < a < |l|
    requires Respare(t, d, n) && Acyclic(d)
    ensures Acyclic(ZeroOut(d, Sub(t, l[b]))) && Sub(ZeroOut(d, Sub(t, l[b])), l[a]) == Sub(t0, l[a])
  {
    ItemsBelow(t0, det, n, l, a);
    assert Items(t[n])[a - b] == l[a] && l[a] in Items(t[n]);
    assert ListOk(t, det, n) && IsChild(t, l[a], n);
    RespareHeads(t, d, n, det);
    RespareSub(t, d, n, det, l[a]);
    ZeroSub(d, Sub(t, l[b]), l[a]);
  }

  lemma LinkChildless(t: Table, det: set<nat>, n: nat, q: nat, c: nat)
    requires Tree(t, det) && n < |t| && LinksTo(t[n], q) && 0 < c < |t| && Used(t[c])
    ensures t[c].parent != q
  {
    assert EntryOk(t, n) && EntryOk(t, c);
  }

  lemma FileChildless(t: Table, det: set<nat>, n: nat, c: nat)
    requires Tree(t, det) && IsHead(t, n) && t[n].file
    ensures !IsChild(t, c, n)
  {
    assert EntryOk(t, n) && (c < |t| ==> EntryOk(t, c));
  }

  /** A link has nothing below it. */
  lemma LinkIsLast(t: Table, det: set<nat>, n: nat, q: nat, i: nat)
    requires Tree(t, det) && Acyclic(t) && n < |t| && LinksTo(t[n], q) && q < |t|
    requires i < |t| && Under(t, i, q)
    ensures i == q
  {
    assert EntryOk(t, n);
    if i != q {
      var c := UnderVia(t, i, q);
      LinkChildless(t, det, n, q, c);
    }
  }

  /** A subtree is its head, the head's link, and the subtrees of the head's children. */
  lemma SubParts(t: Table, det: set<nat>, n: nat, i: nat)
    requires Tree(t, det) && Acyclic(t) && IsHead(t, n) && i in Sub(t, n) && i != n
    ensures LinksTo(t[n], i) || exists c :: IsChild(t, c, n) && i in Sub(t, c)
  {
    var c := UnderVia(t, i, n);
    assert EntryOk(t, c);
    if IsHead(t, c) {
      assert IsChild(t, c, n) && i in Sub(t, c);
    } else {
      LinkIsLast(t, det, n, c, i);
    }
  }

  lemma SubOfDir(t: Table, det: set<nat>, n: nat, l: seq<nat>, i: nat)
    requires Emptiable(t, det, n, l) && i < |t|
    ensures i in Sub(t, n) <==> i == n || LinksTo(t[n], i) || InFirst(t, l, |l|, i)
  {
    assert EntryOk(t, n) && ListOk(t, det, n);
    if i in Sub(t, n) && i != n && !LinksTo(t[n], i) {
      SubParts(t, det, n, i);
      var c :| IsChild(t, c, n) && i in Sub(t, c);
      assert Under(t, c, n);
      assert c in l;
      var a :| 0 <= a < |l| && l[a] == c;
    }
    if InFirst(t, l, |l|, i) {
      var a :| 0 <= a < |l| && i in Sub(t, l[a]);
      ItemsBelow(t, det, n, l, a);
    }
    if LinksTo(t[n], i) {
      assert Under(t, i, n);
    }
  }

  lemma SubOfFile(t: Table, det: set<nat>, n: nat, i: nat)
    requires Tree(t, det) && Acyclic(t) && IsHead(t, n) && t[n].file && i < |t|
    ensures i in Sub(t, n) <==> i == n || LinksTo(t[n], i)
  {
    assert EntryOk(t, n);
    if i in Sub(t, n) && i != n && !LinksTo(t[n], i) {
      SubParts(t, det, n, i);
      var c :| IsChild(t, c, n) && i in Sub(t, c);
      FileChildless(t, det, n, c);
    }
    if LinksTo(t[n], i) {
      assert Under(t, i, n);
    }
  }

  /** Once all items are deleted, zeroing the directory completes its subtree. */
  lemma EmptyDone(t0: Table, det: set<nat>, n: nat, l: seq<nat>, t: Table)
    requires Emptying(t0, det, n, l, |l|, t)
    ensures t[n].next == 0
    ensures forall q :: 0 <= q < |t| && LinksTo(t0[n], q) ==> t[q] == Zero()
    ensures t[n := Zero()] == ZeroOut(t0, Sub(t0, n))
  {
    assert EntryOk(t, n) && Items(t[n]) == [];
    assert EntryOk(t0, n);
    RefCountBounds(t[n]);
    forall q | 0 <= q < |t| && LinksTo(t0[n], q)
      ensures t[q] == Zero()
    {
      assert EntryEmptied(t0, n, l, |l|, t, q);
    }
    forall i | 0 <= i < |t|
      ensures t[n := Zero()][i] == ZeroOut(t0, Sub(t0, n))[i]
    {
      SubOfDir(t0, det, n, l, i);
      if i != n {
        assert EntryEmptied(t0, n, l, |l|, t, i);
      }
    }
  }

  /** An entry that delete_n only zeroes: free already, or the link of a file. */
  ghost predicate Loose(t: Table, n: nat) {
    0 < n < |t| && !IsHead(t, n) && !t[n].dir
  }

  /** Where delete_n looks for a loose entry, it is not listed. */
  lemma LooseUnlisted(t: Table, det: set<nat>, n: nat)
    requires Tree(t, det) && Loose(t, n)
    ensures EntryOk(t, n) && t[n].next == 0
    ensures IsHead(t, t[n].parent) && (t[t[n].parent].dir ==> n !in Items(t[t[n].parent]))
  {
    var p := t[n].parent;
    assert EntryOk(t, n) && EntryOk(t, p) && EntryOk(t, 0);
    assert EntryOk(t, t[p].parent);
    if t[p].dir {
      assert ListOk(t, det, p);
    }
  }

  /** What delete_n still has to do for entry n, with link next, once its items are gone:
      zero the link and zero n, which leads to the table in goal. */
  ghost predicate Finishing(goal: Table, det: set<nat>, n: nat, next: nat, t: Table) {
    && n < |t| && next < |t| && (next != 0 ==> Tree(t, det) && Loose(t, next) && next !in det)
    && goal == (if next == 0 then t else t[next := Zero()])[n := Zero()]
  }

  /** The table delete_n leaves. */
  ghost function DeleteGoal(t: Table, det: set<nat>, n: nat): (r: Option<Table>)
    requires Deletable(t, det, n) || Loose(t, n)
    ensures r.Some? ==> |r.value| == |t|
  {
    if Loose(t, n) then Some(t[n := Zero()]) else Deleted(t, det, n)
  }

  /** After n is out of its parent's list, with table t1: either the items of directory n
      come next, or only its link and n itself remain. */
  ghost predicate Started(goal: Table, det: set<nat>, n: nat, entry: Entry, t1: Table) {
    && n < |t1| && t1[n] == entry
    && (entry.dir ==> Emptiable(t1, det, n, Items(entry)) && goal == ZeroOut(t1, Sub(t1, n)))
    && (!entry.dir ==> Finishing(goal, det, n, entry.next, t1))
  }

  lemma StartLoose(t: Table, det: set<nat>, n: nat)
    requires Tree(t, det) && Loose(t, n)
    ensures 0 < n < |t| <= MAX_ENTRIES && EntryOk(t, n) && IsHead(t, t[n].parent)
    ensures EntryOk(t, t[n].parent) && SizeOk(t[t[n].parent])
    ensures t[t[n].parent].dir ==> n !in Items(t[t[n].parent])
    ensures DeleteGoal(t, det, n).Some? && Started(DeleteGoal(t, det, n).value, det + {n}, n, t[n], t)
  {
    LooseUnlisted(t, det, n);
    assert EntryOk(t, t[n].parent);
  }

  lemma StartHead(t: Table, det: set<nat>, n: nat)
    requires Deletable(t, det, n)
    ensures 0 < n < |t| <= MAX_ENTRIES && EntryOk(t, n) && IsHead(t, t[n].parent)
    ensures EntryOk(t, t[n].parent) && SizeOk(t[t[n].parent]) && !Loose(t, n)
    ensures t[t[n].parent].dir && n in Items(t[t[n].parent]) && n !in det
    ensures match Detached(t, t[n].parent, n)
            case None => true
            case Some(t1) =>
              DeleteGoal(t, det, n).Some? && Started(DeleteGoal(t, det, n).value, det + {n}, n, t[n], t1)
  {
    DetachSub(t, det, n);
    DetachedHead(t, det, n);
  }

  lemma DetachedHead(t: Table, det: set<nat>, x: nat)
    requires Deletable(t, det, x)
    ensures EntryOk(t, x) && IsDir(t, t[x].parent) && EntryOk(t, t[x].parent) && HeadOk(|t|, t[t[x].parent])
    ensures x in Items(t[t[x].parent])
    ensures match Detached(t, t[x].parent, x)
            case None => true
            case Some(t1) =>
              && t1[x] == t[x] && Deleted(t, det, x) == Some(ZeroOut(t1, Sub(t, x)))
              && (t[x].dir ==> Emptiable(t1, det + {x}, x, Items(t[x])))
              && (!t[x].dir ==> Finishing(ZeroOut(t1, Sub(t, x)), det + {x}, x, t[x].next, t1))
  {
    ParentLists(t, det, x);
    DetachSub(t, det, x);
    assert x in Sub(t, x);
    if Detached(t, t[x].parent, x).Some? {
      var t1 := Detached(t, t[x].parent, x).value;
      assert EntryOk(t1, x);
      assert (det + {x} - {x}) !! Sub(t1, x);
      if !t[x].dir {
        FinishingFile(t1, det + {x}, x);
      }
    }
  }

  lemma FinishingFile(t: Table, det: set<nat>, x: nat)
    requires Tree(t, det) && Acyclic(t) && IsHead(t, x) && t[x].file && det * Sub(t, x) <= {x}
    ensures Finishing(ZeroOut(t, Sub(t, x)), det, x, t[x].next, t)
  {
    assert EntryOk(t, x);
    forall i | 0 <= i < |t|
      ensures i in Sub(t, x) <==> i == x || LinksTo(t[x], i)
    {
      SubOfFile(t, det, x, i);
    }
    assert t[x].next != 0 ==> t[x].next in Sub(t, x) && t[x].next != x;
    assert t[x].next in det ==> t[x].next !in Sub(t, x) || t[x].next in det * Sub(t, x);
  }

  lemma FinishingDir(t1: Table, det: set<nat>, n: nat, l: seq<nat>, t: Table)
    requires Emptying(t1, det, n, l, |l|, t)
    ensures Finishing(ZeroOut(t1, Sub(t1, n)), det, n, t1[n].next, t)
  {
    EmptyDone(t1, det, n, l, t);
    assert EntryOk(t1, n);
    var q := t1[n].next;
    if q != 0 {
      SubOfDir(t1, det, n, l, q);
      assert t[q := Zero()] == t;
    }
  }
}
