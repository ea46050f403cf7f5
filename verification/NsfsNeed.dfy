/** How many entries have to be free for a deletion: every list that an item is taken out of needs a
    link, and what is deleted gives its entries back. */
module NsfsNeed {
  import opened NsfsTypes
  import opened NsfsChain
  import opened NsfsTree
  import opened NsfsDir
  import opened NsfsSubtree
  import opened NsfsDelete
  import opened NsfsState
  import opened NsfsStray
  import opened NsfsSteps
  import opened NsfsSpace

  function Max(a: int, b: int): int {
    if a < b then b else a
  }

  /** Nothing below head n has been taken out of its list. */
  ghost predicate Whole(t: Table, det: set<nat>, n: nat) {
    Tree(t, det) && Acyclic(t) && IsHead(t, n) && n != 0 && (det - {n}) !! Sub(t, n)
  }

  lemma ItemWhole(t: Table, det: set<nat>, n: nat, a: nat)
    requires Whole(t, det, n) && t[n].dir && a < |Items(t[n])|
    ensures var c := Items(t[n])[a];
            && Whole(t, det, c) && IsChild(t, c, n) && Sub(t, c) <= Sub(t, n) && n in Sub(t, n) && n !in Sub(t, c)
  {
    var c := Items(t[n])[a];
    assert ListOk(t, det, n) && c in Items(t[n]);
    ParentAbove(t, c);
    forall i | i in Sub(t, c) ensures i in Sub(t, n) {
      assert Under(t, c, n);
      UnderTrans(t, i, c, n);
    }
    assert Under(t, n, n);
  }

  /** What taking item b out of the list of directory e costs, when those before it are gone: a link
      for the items that stay, unless there is one by then. */
  function StepCost(e: Entry, b: nat): int {
    (if b + 1 < |Items(e)| then 1 else 0) - (if b > 0 || e.next != 0 then 1 else 0)
  }

  /** The entries that have to be free to delete the items of directory n from the b-th on, one after
      the other: an item costs what taking it out costs, and what deleting its own items takes; once
      it is deleted, its entries are free. */
  ghost function FromItem(t: Table, det: set<nat>, n: nat, b: nat): (r: int)
    requires Whole(t, det, n) && t[n].dir && b <= |Items(t[n])|
    decreases Sub(t, n), |Items(t[n])| - b
  {
    if b == |Items(t[n])| then 0 else
    ItemWhole(t, det, n, b);
    var c, cost := Items(t[n])[b], StepCost(t[n], b);
    Max(cost + Inner(t, det, c), cost - |Sub(t, c)| + FromItem(t, det, n, b + 1))
  }

  /** The entries that have to be free to delete the items of entry n. */
  ghost function Inner(t: Table, det: set<nat>, n: nat): (r: nat)
    requires Whole(t, det, n)
    decreases Sub(t, n), |Items(t[n])| + 1
  {
    if t[n].dir then Max(0, FromItem(t, det, n, 0)) else 0
  }

  // ----- it depends on the subtree only

  ghost predicate SameSub(t: Table, t': Table, n: nat) {
    && Acyclic(t) && Acyclic(t') && |t'| == |t| && Sub(t', n) == Sub(t, n)
    && forall i :: i in Sub(t, n) ==> t'[i] == t[i]
  }

  lemma ItemSame(t: Table, det: set<nat>, t': Table, n: nat, a: nat)
    requires Whole(t, det, n) && t[n].dir && a < |Items(t[n])| && SameSub(t, t', n)
    ensures SameSub(t, t', Items(t[n])[a])
  {
    var c := Items(t[n])[a];
    ItemWhole(t, det, n, a);
    RootAbove(t, c);
    forall i | 0 < i < |t| && Used(t'[i]) && t'[i].parent in Sub(t, c)
      ensures i in Sub(t, c)
    {
      assert t'[i].parent in Sub(t', n) && Under(t', i, n);
      assert i in Sub(t, n) && t'[i] == t[i] && Under(t, i, c);
    }
    assert c in Sub(t, c);
    SubSame(t, t', c);
  }

  lemma {:induction false} FromSame(t: Table, det: set<nat>, t': Table, det': set<nat>, n: nat, b: nat)
    requires Whole(t, det, n) && Whole(t', det', n) && SameSub(t, t', n) && t[n].dir && b <= |Items(t[n])|
    ensures t'[n] == t[n] && FromItem(t', det', n, b) == FromItem(t, det, n, b)
    decreases Sub(t, n), |Items(t[n])| - b
  {
    hide Tree, Acyclic, Items, IsHead;
    assert t'[n] == t[n] by { HeadBelow(t, det, n); }
    if b < |Items(t[n])| {
      ItemWhole(t, det, n, b);
      ItemWhole(t', det', n, b);
      ItemSame(t, det, t', n, b);
      InnerSame(t, det, t', det', Items(t[n])[b]);
      FromSame(t, det, t', det', n, b + 1);
    }
  }

  lemma HeadBelow(t: Table, det: set<nat>, n: nat)
    requires Whole(t, det, n)
    ensures n in Sub(t, n)
  {
    assert Under(t, n, n);
  }

  lemma {:induction false} InnerSame(t: Table, det: set<nat>, t': Table, det': set<nat>, n: nat)
    requires Whole(t, det, n) && Whole(t', det', n) && SameSub(t, t', n)
    ensures Inner(t', det', n) == Inner(t, det, n)
    decreases Sub(t, n), |Items(t[n])| + 1
  {
    HeadBelow(t, det, n);
    if t[n].dir {
      FromSame(t, det, t', det', n, 0);
    }
  }

  /** Where every directory has its link already, or nothing to be linked, deleting takes nothing. */
  lemma {:induction false} LinkedFrom(t: Table, det: set<nat>, n: nat, b: nat)
    requires Whole(t, det, n) && t[n].dir && b <= |Items(t[n])|
    requires forall d :: d in Sub(t, n) && t[d].dir ==> Cost(t[d]) <= 0
    ensures FromItem(t, det, n, b) <= 0
    decreases Sub(t, n), |Items(t[n])| - b
  {
    hide Tree, Acyclic, IsHead;
    HeadBelow(t, det, n);
    if b < |Items(t[n])| {
      ItemWhole(t, det, n, b);
      LinkedNone(t, det, Items(t[n])[b]);
      LinkedFrom(t, det, n, b + 1);
    }
  }

  lemma {:induction false} LinkedNone(t: Table, det: set<nat>, n: nat)
    requires Whole(t, det, n)
    requires forall d :: d in Sub(t, n) && t[d].dir ==> Cost(t[d]) <= 0
    ensures Inner(t, det, n) == 0
    decreases Sub(t, n), |Items(t[n])| + 1
  {
    if t[n].dir { LinkedFrom(t, det, n, 0); }
  }

  // ----- free entries

  lemma ZeroFree(t: Table, s: set<nat>)
    requires forall i :: i in s ==> i < |t| && Used(t[i])
    ensures |FreeEntries(ZeroOut(t, s))| == |FreeEntries(t)| + |s|
  {
    assert FreeEntries(ZeroOut(t, s)) == FreeEntries(t) + s;
  }

  /** The entries that have to be free to delete item x. */
  ghost function Need(t: Table, det: set<nat>, x: nat): int
    requires Whole(t, det, x) && x !in det
  {
    ParentLists(t, det, x);
    Cost(t[t[x].parent]) + Inner(t, det, x)
  }

  /** Taking x out of its list leaves what its items need; deleting it frees its subtree. */
  lemma DetachedNeed(t: Table, det: set<nat>, x: nat)
    requires Deletable(t, det, x)
    ensures Whole(t, det, x) && EntryOk(t, t[x].parent) && x in Items(t[t[x].parent]) && IsDir(t, t[x].parent)
    ensures |t[t[x].parent].refs| == SFS_ENTRYREFS && t[t[x].parent].size <= SFS_ENTRYREFS
    ensures match Detached(t, t[x].parent, x)
            case None => Need(t, det, x) > |FreeEntries(t)|
            case Some(t1) =>
              && Whole(t1, det + {x}, x) && Inner(t1, det + {x}, x) == Inner(t, det, x)
              && |FreeEntries(t1)| == |FreeEntries(t)| - Cost(t[t[x].parent])
              && Deleted(t, det, x).Some?
              && |FreeEntries(Deleted(t, det, x).value)| == |FreeEntries(t1)| + |Sub(t, x)|
  {
    hide Tree, Respare, Items, EntryOk, Detached, Inner, SizeOk, HeadOk, Cost;
    ParentLists(t, det, x);
    DetachSub(t, det, x);
    DetachedCost(t, det, t[x].parent, x);
    if Detached(t, t[x].parent, x).Some? {
      var t1 := Detached(t, t[x].parent, x).value;
      assert (det + {x}) - {x} == det;
      assert |t1| == |t|;
      InnerSame(t, det, t1, det + {x}, x);
      ZeroFree(t1, Sub(t1, x));
    }
  }

  /** What delete_n needs is free: nothing for a link or an entry that is free already. */
  ghost predicate Affords(t: Table, det: set<nat>, n: nat) {
    Loose(t, n) || (Whole(t, det, n) && n !in det && Need(t, det, n) <= |FreeEntries(t)|)
  }

  /** What is left to do for entry n, out of its list, can be done. */
  ghost predicate AffordsRest(t: Table, det: set<nat>, n: nat) {
    n < |t| && t[n].dir ==> Whole(t, det, n) && Inner(t, det, n) <= |FreeEntries(t)|
  }

  /** Taking the reference out of the parent's list is the first step. */
  lemma AffordsStart(t: Table, k: Kind, n: nat, t1: Table)
    requires k.Listed? && CanDelete(t, k, n) && n < |t| && RefOut(t, t[n].parent, n, t1)
    ensures Affords(t, k.det, n) <==> AffordsRest(t1, k.det + {n}, n)
  {
    hide Tree, FromItem, Cost, Deleted, Items;
    if Loose(t, n) {
      LooseUnlisted(t, k.det, n);
    } else {
      DetachedNeed(t, k.det, n);
      DetachSub(t, k.det, n);
    }
  }

  /** If that cannot be done, too few entries are free. */
  lemma AffordsNot(t: Table, k: Kind, n: nat)
    requires k.Listed? && CanDelete(t, k, n) && n < |t| && Stuck(t, t[n].parent, n)
    ensures !Affords(t, k.det, n)
  {
    hide Tree, Inner, Cost, Deleted, Items;
    if Loose(t, n) {
      LooseUnlisted(t, k.det, n);
    } else {
      DetachedNeed(t, k.det, n);
    }
  }

  // ----- deleting item by item

  /** Emptying directory n of table t1 has come to item b, with table t: what the rest needs is free
      exactly when everything was. */
  ghost predicate Balanced(t1: Table, det: set<nat>, n: nat, b: nat, t: Table)
    requires Whole(t1, det, n) && t1[n].dir && b <= |Items(t1[n])|
  {
    FromItem(t1, det, n, 0) <= |FreeEntries(t1)| <==> FromItem(t1, det, n, b) <= |FreeEntries(t)|
  }

  lemma EmptiableWhole(t1: Table, det: set<nat>, n: nat, l: seq<nat>)
    requires Emptiable(t1, det, n, l)
    ensures Whole(t1, det, n) && t1[n].dir && l == Items(t1[n])
  {
  }

  lemma ItemKept(t1: Table, det: set<nat>, n: nat, l: seq<nat>, b: nat, t: Table)
    requires Emptying(t1, det, n, l, b, t) && b < |l|
    ensures SameSub(t1, t, l[b])
  {
    hide Tree, Names, IsHead, Items;
    ItemsBelow(t1, det, n, l, b);
    assert Sub(t, l[b]) == Sub(t1, l[b]);
    forall i | i in Sub(t1, l[b]) ensures t[i] == t1[i] {
      KeptEntry(t1, det, n, l, b, t, i);
    }
  }

  lemma KeptEntry(t1: Table, det: set<nat>, n: nat, l: seq<nat>, b: nat, t: Table, i: nat)
    requires Emptying(t1, det, n, l, b, t) && b < |l| && i in Sub(t1, l[b])
    ensures t[i] == t1[i]
  {
    ItemsBelow(t1, det, n, l, b);
    assert EntryEmptied(t1, n, l, b, t, i);
    assert !InFirst(t1, l, b, i);
    assert EntryOk(t1, n);
    LinkOutside(t1, det, n, l, b);
  }

  /** The link of the directory is below none of its items. */
  lemma LinkOutside(t1: Table, det: set<nat>, n: nat, l: seq<nat>, b: nat)
    requires Emptiable(t1, det, n, l) && b < |l|
    ensures t1[n].next != 0 ==> t1[n].next !in Sub(t1, l[b])
  {
    ItemsBelow(t1, det, n, l, b);
    var q := t1[n].next;
    assert EntryOk(t1, n);
    if q != 0 {
      assert SpareOk(t1, n, q) && !IsHead(t1, q);
      assert Under(t1, q, l[b]) <==> q == l[b] || Under(t1, n, l[b]);
    }
  }

  /** The next item is deleted if and only if what it needs is free, and then the balance is kept. */
  lemma NextBalanced(t1: Table, det: set<nat>, n: nat, l: seq<nat>, b: nat, t: Table)
    requires Emptying(t1, det, n, l, b, t) && b < |l| && (b == 0 ==> t == t1)
    ensures Whole(t1, det, n) && t1[n].dir && l == Items(t1[n]) && Deletable(t, det, l[b]) && Whole(t, det, l[b])
    ensures Balanced(t1, det, n, b, t) ==>
              && (Need(t, det, l[b]) > |FreeEntries(t)| ==> FromItem(t1, det, n, 0) > |FreeEntries(t1)|)
              && (Need(t, det, l[b]) <= |FreeEntries(t)| ==>
                    Deleted(t, det, l[b]).Some? && Balanced(t1, det, n, b + 1, Deleted(t, det, l[b]).value))
  {
    hide Tree, Names, Acyclic, IsHead, SubsKept, EntriesEmptied, Deletable, Sub, Inner, Deleted, Detached;
    EmptiableWhole(t1, det, n, l);
    NextDeletable(t1, det, n, l, b, t);
    var c := l[b];
    DetachedNeed(t, det, c);
    ItemWhole(t1, det, n, b);
    ItemKept(t1, det, n, l, b, t);
    InnerSame(t1, det, t, det, c);
    assert Cost(t[n]) == StepCost(t1[n], b) by { NextCost(t1, det, n, l, b, t); }
  }

  lemma NextCost(t1: Table, det: set<nat>, n: nat, l: seq<nat>, b: nat, t: Table)
    requires Emptying(t1, det, n, l, b, t) && b < |l| && (b == 0 ==> t == t1)
    ensures Cost(t[n]) == StepCost(t1[n], b)
  {
    DirSized(t, n, det);
    assert |Items(t[n])| == t[n].size == |l| - b;
  }

  // ----- for delete_n

  lemma RestStarts(t: Table, k: Kind, n: nat, entry: Entry, t1: Table)
    requires Underway(t, k, n, entry, t1)
    ensures n < |t1| && entry == t1[n] && (!entry.dir && k.Listed? ==> AffordsRest(t1, k.det + {n}, n))
  {
    hide Whole, Inner;
  }

  /** The link is only zeroed. */
  lemma LinkAffords(t: Table, k: Kind, n: nat, next: nat, t2: Table)
    requires Closing(t, k, n, next, t2) && next != 0
    ensures k.Listed? ==> NextKind(k, n).Listed? && Affords(t2, k.det + {n}, next)
  {
    hide Whole, Need, Tree;
  }

  /** As far as item b of directory n: the balance between what is needed and what is free. */
  ghost predicate Balance(t1: Table, det: set<nat>, n: nat, l: seq<nat>, b: nat, t: Table) {
    Whole(t1, det, n) && t1[n].dir && l == Items(t1[n]) && b <= |l| && Balanced(t1, det, n, b, t)
  }

  lemma BalanceStart(t1: Table, k: Kind, n: nat, l: seq<nat>)
    requires k.Listed? && Emptied(t1, k, n, l, 0, t1)
    ensures Balance(t1, k.det + {n}, n, l, 0, t1)
  {
    hide Whole;
    EmptiableWhole(t1, k.det + {n}, n, l);
  }

  lemma BalanceLost(t1: Table, k: Kind, n: nat, l: seq<nat>, b: nat, t: Table)
    requires k.Listed? && Emptied(t1, k, n, l, b, t) && b < |l| && (b == 0 ==> t == t1)
    requires Balance(t1, k.det + {n}, n, l, b, t) && !Affords(t, k.det + {n}, l[b])
    ensures !AffordsRest(t1, k.det + {n}, n)
  {
    hide Tree, Acyclic, Sub, Deleted, Need, FromItem, Emptying;
    NextBalanced(t1, k.det + {n}, n, l, b, t);
  }

  lemma BalanceKept(t1: Table, k: Kind, n: nat, l: seq<nat>, b: nat, t: Table, t': Table)
    requires k.Listed? && Emptied(t1, k, n, l, b, t) && b < |l| && (b == 0 ==> t == t1)
    requires Balance(t1, k.det + {n}, n, l, b, t) && Erased(t, ItemKind(k, n, b), l[b], t')
    requires Affords(t, k.det + {n}, l[b])
    ensures Balance(t1, k.det + {n}, n, l, b + 1, t')
  {
    hide Whole, Deleted, Need, FromItem, Emptying;
    NextBalanced(t1, k.det + {n}, n, l, b, t);
  }

  lemma BalanceEnds(t1: Table, det: set<nat>, n: nat, l: seq<nat>, t: Table)
    requires Balance(t1, det, n, l, |l|, t)
    ensures AffordsRest(t1, det, n)
  {
    hide Whole;
  }

  /** The entries that deleting the name takes are free. */
  ghost predicate DeletionAfforded(t: Table, p: nat, name: string) {
    var x := FindName(t, p, name);
    x < |t| && Whole(t, {}, x) && Need(t, {}, x) <= |FreeEntries(t)|
  }

  lemma DeletionNone(s: Fs, p: nat, name: string)
    requires FsOk(s)
    ensures FindName(s.table, p, name) == |s.table| ==> !DeletionAfforded(s.table, p, name)
  {
  }

  lemma FoundReady(s: Fs, x: nat)
    requires FsOk(s) && x < |s.table| && Used(s.table[x])
    ensures CanDelete(s.table, KindOf(s.table, x), x)
  {
    FoundKind(s.table, x);
  }

  lemma DeletionDone(s: Fs, p: nat, name: string, s': Fs)
    requires FsOk(s) && s' == s.(table := s'.table) && FindName(s.table, p, name) < |s.table|
    requires Erased(s.table, KindOf(s.table, FindName(s.table, p, name)), FindName(s.table, p, name), s'.table)
    ensures Next(s, Op.Delete(p, name), s')
  {
    hide Erased, DeleteLeaves, Tree, Names, Acyclic;
    FoundErased(s.table, FindName(s.table, p, name), s'.table);
  }

  lemma DeletionDecided(s: Fs, p: nat, name: string)
    requires FsOk(s) && FindName(s.table, p, name) < |s.table|
    ensures Sound(s, Op.Delete(p, name)) ==>
              var x := FindName(s.table, p, name);
              KindOf(s.table, x) == Listed({}) && (Affords(s.table, {}, x) <==> DeletionAfforded(s.table, p, name))
  {
    hide Need, Tree, Names, Acyclic, Clear, Whole;
    ProperFound(s.table, p, name);
  }
}
