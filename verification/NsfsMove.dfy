/** Moving whatever entry a lookup returned below whatever entry the path leads to, and when that
    keeps the tree. */
module NsfsMove {
  import opened NsfsTypes
  import opened NsfsChain
  import opened NsfsTree
  import opened NsfsFit
  import opened NsfsDir
  import opened NsfsSubtree
  import opened NsfsDelete
  import opened NsfsOps
  import opened NsfsState
  import opened NsfsPlace
  import opened NsfsStray

  /** Table t1 is t without x in the list of its parent; what is in no list leaves t as it is. */
  ghost predicate TakenOut(t: Table, x: nat, t1: Table) {
    x < |t| && RefOut(t, t[x].parent, x, t1)
  }

  /** What fs_move leaves: x out of its list, renamed, and a reference to it in entry p, whatever
      p is. */
  ghost predicate MoveLeaves(t: Table, x: nat, p: nat, name: string, t': Table) {
    exists t1 :: TakenOut(t, x, t1) && x < |t1| && Open(Renamed(t1, x, p, name), p)
                 && AddedTo(Renamed(t1, x, p, name), p, x) == Some(t')
  }

  /** A directory that can take x: it has room, or loses x first. */
  ghost predicate RoomFor(t: Table, p: nat, x: nat) {
    IsDir(t, p) && (t[p].size < SFS_ENTRYREFS || (Proper(t, x) && x < |t| && p == t[x].parent))
  }

  /** What fs_move leaves if p is a directory with room: x is put at the end of its list. */
  ghost predicate MoveLists(t: Table, x: nat, p: nat, name: string, t': Table) {
    exists t1 :: TakenOut(t, x, t1) && x < |t1| && Addable(Renamed(t1, x, p, name), p)
                 && t' == Attached(Renamed(t1, x, p, name), p, x)
  }

  lemma MoveListed(t: Table, x: nat, p: nat, name: string, t': Table)
    requires TreeOk(t) && x < |t| && Used(t[x]) && RoomFor(t, p, x) && MoveLeaves(t, x, p, name, t')
    ensures MoveLists(t, x, p, name, t')
  {
    hide Open, AddedTo, Tree, Names, Acyclic, IsHead, RefOut, IsDir;
    var t1 :| TakenOut(t, x, t1) && x < |t1| && Open(Renamed(t1, x, p, name), p)
              && AddedTo(Renamed(t1, x, p, name), p, x) == Some(t');
    TakenAddable(t, x, t1, p);
    RenamedAddable(t1, x, p, name);
    AddedAttached(Renamed(t1, x, p, name), p, x);
  }

  /** A new name and parent for some entry does not unlink a chain. */
  lemma RenamedOpen(t: Table, x: nat, p: nat, name: string)
    requires x < |t| && Open(t, p)
    ensures Open(Renamed(t, x, p, name), p)
  {
    hide Distinct;
    var t', c := Renamed(t, x, p, name), ChainOf(t, p);
    assert ChainOf(t', p) == c;
    hide ChainOf;
    forall i | 0 <= i < |t'| ensures EntryShaped(t', t'[i]) {
      assert EntryShaped(t, t[i]);
    }
    if Used(t[p]) {
      assert Linked(t, c) && IsChain(t', c) && LinkedBack(t', c);
    }
  }

  lemma RenamedAddable(t: Table, x: nat, p: nat, name: string)
    requires x < |t| && Addable(t, p)
    ensures Addable(Renamed(t, x, p, name), p)
  {
    RenamedOpen(t, x, p, name);
  }

  /** Parents, names and kinds are as in the renamed table. */
  lemma AttachedParents(t: Table, p: nat, x: nat, i: nat)
    requires Addable(t, p) && i < |t|
    ensures var t' := Attached(t, p, x);
            && t'[i].parent == t[i].parent && t'[i].name == t[i].name && t'[i].next == t[i].next
            && t'[i].dir == t[i].dir && t'[i].file == t[i].file
  {
  }

  /** Moving the root or a link breaks the tree: the root is no longer one, the link is still
      chained to its directory, or is an item of it. */
  lemma StrayMovedBad(t: Table, x: nat, p: nat, name: string, t': Table)
    requires TreeOk(t) && x < |t| && Used(t[x]) && !Proper(t, x) && IsDir(t, p)
    requires FindName(t, p, name) == |t| && MoveLists(t, x, p, name, t')
    ensures !TreeOk(t')
  {
    var t2 := Renamed(t, x, p, name);
    assert EntryOk(t, 0) && RootOk(t[0]) && !Matches(t[0], p, name);
    if x == 0 {
      AttachedParents(t2, p, x, 0);
      assert !RootOk(t'[0]);
    } else {
      var h := t[x].parent;
      ParentHead(t, x);
      assert SpareOk(t, h, x);
      AttachedParents(t2, p, x, h);
      AttachedParents(t2, p, x, x);
      AttachedParents(t2, p, x, t2[h].parent);
      if p == h {
        StrayListed(t, x, h, name, t');
      } else {
        assert !EntryOk(t', h);
      }
    }
  }

  lemma StrayListed(t: Table, x: nat, h: nat, name: string, t': Table)
    requires TreeOk(t) && x < |t| && x != 0 && IsHead(t, h) && t[h].dir && t[h].next == x && SpareOk(t, h, x)
    requires Addable(Renamed(t, x, h, name), h) && t' == Attached(Renamed(t, x, h, name), h, x)
    ensures !TreeOk(t')
  {
    var t2 := Renamed(t, x, h, name);
    var g := t[h].parent;
    assert EntryOk(t, h) && EntryOk(t, g);
    AttachedParents(t2, h, x, h);
    AttachedParents(t2, h, x, x);
    AttachedParents(t2, h, x, g);
    assert t'[h].size == t[h].size + 1 && t'[h].refs[t[h].size] == x;
    assert Items(t'[h])[t[h].size] == x;
    assert x in Items(t'[h]) && IsSpare(t', x) && IsHead(t', h);
    assert !IsChild(t', x, h);
    assert !ListOk(t', {}, h);
  }

  /** An item out of its list: nothing else changes but that list and its directory's link. */
  lemma ProperTaken(t: Table, x: nat, t1: Table)
    requires TreeOk(t) && Proper(t, x) && TakenOut(t, x, t1)
    ensures |t1| == |t| && Tree(t1, {x}) && Acyclic(t1) && Sub(t1, x) == Sub(t, x) && x in Sub(t, x)
    ensures t1[x] == t[x] && forall i :: IsHead(t1, i) <==> IsHead(t, i)
    ensures Respare(t, t1, t[x].parent)
  {
    ParentHead(t, x);
    DetachSub(t, {}, x);
    assert {} + {x} == {x};
    RespareHeads(t, t1, t[x].parent, {});
    assert x in Sub(t, x);
  }

  /** Moving a directory below itself breaks the tree. */
  lemma LoopMovedBad(t: Table, x: nat, p: nat, name: string, t': Table)
    requires TreeOk(t) && Proper(t, x) && IsDir(t, p) && Under(t, p, x) && MoveLists(t, x, p, name, t')
    ensures !TreeOk(t')
  {
    hide Tree, Respare, EntryOk, RefOut, IsSpare;
    var t1 :| TakenOut(t, x, t1) && x < |t1| && Addable(Renamed(t1, x, p, name), p)
              && t' == Attached(Renamed(t1, x, p, name), p, x);
    hide TakenOut;
    ProperTaken(t, x, t1);
    assert p in Sub(t, x) && p in Sub(t1, x);
    DirStays(t, x, t1, p);
    MoveAcyclic(t1, {x}, x, p, name);
    if Acyclic(t') {
      AttachedAcyclic(Renamed(t1, x, p, name), p, x);
    }
  }

  lemma DirStays(t: Table, x: nat, t1: Table, p: nat)
    requires TreeOk(t) && Proper(t, x) && TakenOut(t, x, t1) && IsDir(t, p)
    ensures IsDir(t1, p)
  {
    ProperTaken(t, x, t1);
    assert EntryOk(t, p);
  }

  lemma AttachedAcyclic(t: Table, p: nat, x: nat)
    requires Addable(t, p) && Acyclic(Attached(t, p, x))
    ensures Acyclic(t)
  {
    var t' := Attached(t, p, x);
    var d :| Deep(t', d);
    forall i | 0 < i < |t| && Used(t[i]) ensures t[i].parent < |t| && d[t[i].parent] < d[i] {
      AttachedParents(t, p, x, i);
    }
    assert Deep(t, d);
  }

  /** Moving a directory below itself makes a cycle, and nothing else does. */
  lemma MoveAcyclic(t: Table, det: set<nat>, x: nat, p: nat, name: string)
    requires Tree(t, det) && Acyclic(t) && IsHead(t, x) && x != 0 && x in det && IsDir(t, p)
    ensures Acyclic(Renamed(t, x, p, name)) <==> !Under(t, p, x)
  {
    if Under(t, p, x) {
      var t' := Renamed(t, x, p, name);
      if Acyclic(t') {
        var d :| Deep(t', d);
        assert t'[x].parent == p && d[t'[x].parent] < d[x];
        DeeperThan(t, t', d, p, x);
      }
    } else {
      RenamedAcyclic(t, det, x, p, name);
    }
  }

  lemma {:induction false} DeeperThan(t: Table, t': Table, d: seq<nat>, i: nat, x: nat)
    requires Acyclic(t) && Deep(t', d) && |t| == |t'| && i < |t| && x < |t| && Under(t, i, x)
    requires forall k :: 0 <= k < |t| && k != x ==> t'[k] == t[k]
    ensures d[x] <= d[i]
    decreases DepthOf(t)[i]
  {
    if i != x {
      DeeperThan(t, t', d, t[i].parent, x);
    }
  }

  /** No list grows, and the one x was in loses an item. */
  lemma TakenSize(t: Table, x: nat, t1: Table, p: nat)
    requires TreeOk(t) && Proper(t, x) && TakenOut(t, x, t1) && IsDir(t, p)
    ensures |t1| == |t| && t[p].size <= SFS_ENTRYREFS
    ensures t1[p].size == if p == t[x].parent then t[p].size - 1 else t[p].size
  {
    ProperTaken(t, x, t1);
    var q := t[x].parent;
    ParentHead(t, x);
    DirSized(t, q, {});
    FitRespares(t, q, DropItem(t[q], x), {});
    assert EntryOk(t, p) && EntryOk(t, q);
  }

  lemma StrayTaken(t: Table, x: nat, t1: Table)
    requires TreeOk(t) && x < |t| && Used(t[x]) && !Proper(t, x) && TakenOut(t, x, t1)
    ensures t1 == t
  {
    ParentHead(t, x);
  }

  /** An item moved to a directory outside its subtree. */
  lemma LeavesMoved(t: Table, x: nat, p: nat, name: string, t': Table)
    requires TreeOk(t) && Proper(t, x) && IsDir(t, p) && !Under(t, p, x) && MoveLists(t, x, p, name, t')
    ensures p != x && EntryOk(t, x) && EntryOk(t, t[x].parent) && HeadOk(|t|, t[t[x].parent])
    ensures x in Items(t[t[x].parent])
    ensures Moved(t, x, p, name) == Some(t')
    ensures p == t[x].parent || t[p].size < SFS_ENTRYREFS
  {
    hide Tree, Open, Names, RefCount, Zeros, IsSpare, Fit, DropItem, Items, SizeOk;
    ParentLists(t, {}, x);
    assert Under(t, x, x);
    var t1 :| TakenOut(t, x, t1) && x < |t1| && Addable(Renamed(t1, x, p, name), p)
              && t' == Attached(Renamed(t1, x, p, name), p, x);
    TakenSize(t, x, t1, p);
  }

  /** After x is out of its list, p can take one more item. */
  lemma TakenAddable(t: Table, x: nat, t1: Table, p: nat)
    requires TreeOk(t) && x < |t| && Used(t[x]) && IsDir(t, p) && TakenOut(t, x, t1)
    requires t[p].size < SFS_ENTRYREFS || (Proper(t, x) && p == t[x].parent)
    ensures |t1| == |t| && t1[x].dir == t[x].dir && Addable(t1, p)
    ensures t1[x] == t[x]
  {
    hide Tree, Respare, EntryOk, IsSpare, TakenOut, Addable, Acyclic, Names, Items;
    if Proper(t, x) {
      ProperTaken(t, x, t1);
      DirStays(t, x, t1, p);
      TakenSize(t, x, t1, p);
      DirAddable(t1, p, {x});
    } else {
      StrayTaken(t, x, t1);
      DirAddable(t, p, {});
    }
  }

  // ----- below anything else than a directory with room

  /** Taking x out of its list does not make p, which is no directory with room, into one. */
  lemma TakenPlace(t: Table, x: nat, t1: Table, p: nat)
    requires TreeOk(t) && x < |t| && Used(t[x]) && TakenOut(t, x, t1) && p < |t| && Used(t[p]) && !RoomFor(t, p, x)
    ensures |t1| == |t| && t1[x] == t[x]
    ensures !t1[p].dir || t1[p].size == SFS_ENTRYREFS || LinkOf(t1, t1[p].parent, p)
    ensures t1[p].next != 0 ==> t1[p] == t[p]
  {
    DirBounds(t, p);
    if Proper(t, x) {
      ProperTaken(t, x, t1);
      ParentHead(t, x);
      var q := t[x].parent;
      assert EntryOk(t, p) && EntryOk(t, q) && p != q;
      if LinksTo(t[q], p) {
        assert t1[p] == Zero() || SpareOk(t1, q, p);
      } else {
        assert t1[p] == t[p];
        if LinkOf(t, t[p].parent, p) {
          LinkStays(t, t1, q, t[p].parent, p);
        }
      }
    } else {
      StrayTaken(t, x, t1);
    }
  }

  lemma LinkStays(t: Table, t1: Table, q: nat, h: nat, p: nat)
    requires TreeOk(t) && Respare(t, t1, q) && LinkOf(t, h, p) && h != q && t1[p] == t[p]
    ensures LinkOf(t1, h, p)
  {
    assert EntryOk(t, h) && EntryOk(t, q) && EntryOk(t, p);
    assert SpareOk(t, h, p);
    LinkOfHead(t, h, p);
    assert !LinksTo(t[q], h) && !LinksTo(t1[q], h);
  }

  lemma TakenOpen(t: Table, x: nat, t1: Table, p: nat)
    requires TreeOk(t) && x < |t| && Used(t[x]) && TakenOut(t, x, t1) && p < |t|
    ensures |t1| == |t| && Open(t1, p) && (Steps(RefCount(t1[p])) < |ChainOf(t1, p)| || t1[p].next == 0)
  {
    if Proper(t, x) {
      ProperTaken(t, x, t1);
      TreeOpen(t1, p, {x});
    } else {
      StrayTaken(t, x, t1);
      TreeOpen(t, p, {});
    }
  }

  /** What is moved there is out of place, unless it is the link of p. */
  lemma MoveMisplaced(t: Table, x: nat, t1: Table, p: nat, name: string, t': Table)
    requires TreeOk(t) && x < |t| && x != 0 && Used(t[x]) && p < |t| && Used(t[p]) && p != x && !RoomFor(t, p, x)
    requires TakenOut(t, x, t1) && |t1| == |t| && Open(Renamed(t1, x, p, name), p)
    requires AddedTo(Renamed(t1, x, p, name), p, x) == Some(t') && t1[p].next != x
    ensures Misplaced(t', x, p)
  {
    hide AddedTo, Open, RefGiven, Tree, RoomFor, Steps, RefCount, ChainOf, TakenOut, TreeOk;
    TakenPlace(t, x, t1, p);
    TakenOpen(t, x, t1, p);
    var t2 := Renamed(t1, x, p, name);
    assert ChainOf(t2, p) == ChainOf(t1, p) && RefCount(t2[p]) == RefCount(t1[p]) by {
      assert t2[p] == t1[p];
      SameChain(t1, t2, p);
    }
    AddedFrame(t2, p, x);
    GivenMisplaced(t2, p, x, t');
  }

  lemma SameChain(t: Table, t': Table, p: nat)
    requires p < |t| && p < |t'| && t'[p] == t[p]
    ensures ChainOf(t', p) == ChainOf(t, p)
  {
  }

  /** A head that is not moved stays one. */
  lemma HeadStays(t: Table, x: nat, p: nat, name: string, t': Table)
    requires TreeOk(t) && IsHead(t, p) && x < |t| && p != x && RefGiven(Renamed(t, x, p, name), p, t')
    ensures IsHead(t', p)
  {
    assert EntryOk(t, p);
    var t2, g := Renamed(t, x, p, name), t[p].parent;
    assert EntryOk(t, g);
    assert SameButRefs(t2[p], t'[p], true) && (g != p ==> SameButRefs(t2[g], t'[g], false));
  }

  /** A link moved below its own head, a file: the new reference is one that is not counted. */
  lemma LinkBelowFile(t: Table, x: nat, p: nat, name: string, t': Table)
    requires TreeOk(t) && x < |t| && x != 0 && IsHead(t, p) && t[p].file && t[p].next == x && p != x
    requires Open(Renamed(t, x, p, name), p) && AddedTo(Renamed(t, x, p, name), p, x) == Some(t')
    ensures !TreeOk(t')
  {
    TreeOpen(t, p, {});
    assert EntryOk(t, p);
    RefCountBounds(t[p]);
    var t2, rc := Renamed(t, x, p, name), RefCount(t[p]);
    AddedFrame(t2, p, x);
    HeadStays(t, x, p, name, t');
    if rc < SFS_ENTRYREFS {
      assert t'[p].refs[rc] == x && RefCount(t'[p]) == rc;
      assert !ClearedFrom(t'[p].refs, rc);
      assert !EntryOk(t', p);
    } else {
      assert t'[x].refs[0] == x && t'[p].next == x;
      assert t'[x].refs != Zeros(SFS_ENTRYREFS);
      assert !SpareOk(t', p, x);
      assert !EntryOk(t', p);
    }
  }

  lemma OverfullBad(t: Table, p: nat)
    requires IsHead(t, p) && t[p].dir && t[p].size > SFS_ENTRYREFS
    ensures !TreeOk(t)
  {
    assert !EntryOk(t, p);
  }

  /** A link moved below its own head, a full directory. */
  lemma LinkBelowFull(t: Table, x: nat, p: nat, name: string, t': Table)
    requires TreeOk(t) && x < |t| && IsHead(t, p) && t[p].dir && t[p].size == SFS_ENTRYREFS && p != x
    requires Open(Renamed(t, x, p, name), p) && AddedTo(Renamed(t, x, p, name), p, x) == Some(t')
    ensures !TreeOk(t')
  {
    hide AddedTo, Open, RefGiven, Tree, Steps, RefCount, ChainOf, IsHead, Names, Acyclic;
    TreeRefs(t, p);
    var t2 := Renamed(t, x, p, name);
    SameChain(t, t2, p);
    AddedFrame(t2, p, x);
    HeadStays(t, x, p, name, t');
    DirGiven(t2, p, t');
    OverfullBad(t', p);
  }

  lemma TreeRefs(t: Table, p: nat)
    requires TreeOk(t) && IsHead(t, p)
    ensures p < |t| && (Steps(RefCount(t[p])) < |ChainOf(t, p)| || t[p].next == 0)
  {
    TreeOpen(t, p, {});
  }

  lemma DirGiven(t: Table, d: nat, t': Table)
    requires RefGiven(t, d, t')
    ensures t'[d].dir == t[d].dir
  {
    assert SameButRefs(t[d], t'[d], true);
  }

  /** The root or an entry below itself. */
  lemma MovedAside(t: Table, x: nat, t1: Table, p: nat, name: string, t': Table)
    requires TreeOk(t) && x < |t| && Used(t[x]) && p < |t| && (x == 0 || p == x) && FindName(t, p, name) == |t|
    requires TakenOut(t, x, t1) && |t1| == |t| && Open(Renamed(t1, x, p, name), p)
    requires AddedTo(Renamed(t1, x, p, name), p, x) == Some(t')
    ensures !TreeOk(t')
  {
    hide TakenOut, Open, AddedTo, ChainOf, RefCount, Tree, Names, Acyclic, RefGiven;
    var t2 := Renamed(t1, x, p, name);
    TakenOpen(t, x, t1, p);
    assert t1[x] == t[x] by {
      if Proper(t, x) { ProperTaken(t, x, t1); } else { StrayTaken(t, x, t1); }
    }
    AsideFrame(t1, x, p, name);
    AddedFrame(t2, p, x);
    assert SameButRefs(t2[x], t'[x], x == p) by { GivenSame(t2, p, t', x); }
    if x == 0 {
      assert RootOk(t[0]) by { RootOf(t); }
      assert !Matches(t[0], p, name);
      assert !TreeOk(t') by { NotRoot(t'); }
    } else {
      assert !Acyclic(t') by { OwnParent(t', x); }
    }
  }

  lemma AsideFrame(t: Table, x: nat, p: nat, name: string)
    requires x < |t| && p < |t|
    ensures ChainOf(Renamed(t, x, p, name), p) == ChainOf(t, p)
    ensures RefCount(Renamed(t, x, p, name)[p]) == RefCount(t[p])
  {
  }

  lemma GivenSame(t: Table, d: nat, t': Table, i: nat)
    requires RefGiven(t, d, t') && i < |t| && Used(t[i])
    ensures SameButRefs(t[i], t'[i], i == d)
  {
  }

  lemma RootOf(t: Table)
    requires TreeOk(t)
    ensures RootOk(t[0])
  {
  }

  lemma NotRoot(t: Table)
    requires 0 < |t| && !RootOk(t[0])
    ensures !TreeOk(t)
  {
  }

  /** An entry that is its own parent. */
  lemma OwnParent(t: Table, x: nat)
    requires 0 < x < |t| && Used(t[x]) && t[x].parent == x
    ensures !Acyclic(t)
  {
    assert forall d :: !Deep(t, d);
  }

  /** Moving anything below anything but a directory with room breaks the tree. */
  lemma MoveElsewhere(t: Table, x: nat, p: nat, name: string, t': Table)
    requires TreeOk(t) && x < |t| && Used(t[x]) && p < |t| && Used(t[p]) && !RoomFor(t, p, x)
    requires FindName(t, p, name) == |t| && MoveLeaves(t, x, p, name, t')
    ensures !TreeOk(t')
  {
    var t1: Table :| TakenOut(t, x, t1) && x < |t1| && Open(Renamed(t1, x, p, name), p)
              && AddedTo(Renamed(t1, x, p, name), p, x) == Some(t');
    TakenPlace(t, x, t1, p);
    hide AddedTo, Open, Tree, Misplaced, TakenOut;
    if x == 0 || p == x {
      MovedAside(t, x, t1, p, name, t');
    } else if t1[p].next != x {
      MoveMisplaced(t, x, t1, p, name, t');
      MisplacedBad(t', x, p);
    } else {
      OwnLink(t, x, t1, p);
      if t[p].file {
        LinkBelowFile(t, x, p, name, t');
      } else {
        LinkBelowFull(t, x, p, name, t');
      }
    }
  }

  lemma OwnLink(t: Table, x: nat, t1: Table, p: nat)
    requires TreeOk(t) && x < |t| && x != 0 && Used(t[x]) && TakenOut(t, x, t1) && p < |t| && Used(t[p])
    requires !RoomFor(t, p, x) && t[p].next == x
    ensures t1 == t && IsHead(t, p) && (t[p].file || (t[p].dir && t[p].size == SFS_ENTRYREFS))
  {
    assert EntryOk(t, p) && SpareOk(t, p, x);
    LinkOfHead(t, p, x);
    StrayTaken(t, x, t1);
    assert HeadOk(|t|, t[p]);
  }
}
