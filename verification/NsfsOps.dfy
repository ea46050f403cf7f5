/** Creating, moving and finding entries, and what these keep of the directory tree. */
module NsfsOps {
  import opened NsfsTypes
  import opened NsfsTree
  import opened NsfsDir
  import opened NsfsSubtree
  import opened NsfsDelete

  // ----- a new head

  /** e can be written to a free entry as the head of an empty file or directory in p. */
  ghost predicate NewHead(t: Table, p: nat, e: Entry) {
    && IsDir(t, p) && e.parent == p && e.dir != e.file
    && e.size == 0 && e.next == 0 && e.refs == Zeros(SFS_ENTRYREFS)
  }

  /** No head with e's parent has e's name. */
  ghost predicate NameFree(t: Table, p: nat, name: string) {
    forall i: nat :: IsHead(t, i) && t[i].parent == p ==> t[i].name != name
  }

  lemma NewHeadHeads(t: Table, det: set<nat>, f: nat, p: nat, e: Entry, i: nat)
    requires Tree(t, det) && f < |t| && !Used(t[f]) && NewHead(t, p, e)
    ensures IsHead(t[f := e], i) <==> i == f || IsHead(t, i)
  {
    if i < |t| {
      assert EntryOk(t, i) && EntryOk(t, f) && EntryOk(t, p);
    }
  }

  lemma NewHeadEntry(t: Table, det: set<nat>, f: nat, p: nat, e: Entry, i: nat)
    requires Tree(t, det) && f < |t| && !Used(t[f]) && NewHead(t, p, e) && i < |t|
    ensures EntryOk(t[f := e], i)
  {
    assert EntryOk(t, i) && EntryOk(t, f) && EntryOk(t, p);
    NewHeadHeads(t, det, f, p, e, i);
    NewHeadHeads(t, det, f, p, e, t[f := e][i].parent);
  }

  lemma NewHeadTree(t: Table, det: set<nat>, f: nat, p: nat, e: Entry)
    requires Tree(t, det) && f < |t| && !Used(t[f]) && NewHead(t, p, e)
    ensures Tree(t[f := e], det + {f}) && IsChild(t[f := e], f, p)
  {
    var t' := t[f := e];
    assert EntryOk(t, f) && Used(t[0]);
    NewHeadHeads(t, det, f, p, e, f);
    forall i | 0 <= i < |t'| ensures EntryOk(t', i) {
      NewHeadEntry(t, det, f, p, e, i);
    }
    forall d | 0 <= d < |t'| && IsDir(t', d) ensures ListOk(t', det + {f}, d) {
      NewHeadList(t, det, f, p, e, d);
    }
  }

  lemma NewHeadList(t: Table, det: set<nat>, f: nat, p: nat, e: Entry, d: nat)
    requires Tree(t, det) && f < |t| && !Used(t[f]) && NewHead(t, p, e)
    requires d < |t| && IsDir(t[f := e], d)
    ensures ListOk(t[f := e], det + {f}, d)
  {
    var t' := t[f := e];
    NewHeadHeads(t, det, f, p, e, d);
    forall c: nat
      ensures IsChild(t', c, d) && c !in det + {f} <==> d != f && IsChild(t, c, d) && c !in det
    {
      NewHeadHeads(t, det, f, p, e, c);
      if c < |t| {
        assert EntryOk(t, c);
      }
    }
    if d != f {
      assert ListOk(t, det, d);
    }
  }

  lemma NewHeadNames(t: Table, det: set<nat>, f: nat, p: nat, e: Entry)
    requires Tree(t, det) && f < |t| && !Used(t[f]) && NewHead(t, p, e)
    requires Names(t) && NameFree(t, p, e.name)
    ensures Names(t[f := e])
  {
    forall i: nat ensures IsHead(t[f := e], i) <==> i == f || IsHead(t, i) {
      NewHeadHeads(t, det, f, p, e, i);
    }
  }

  lemma NewHeadAcyclic(t: Table, det: set<nat>, f: nat, p: nat, e: Entry)
    requires Tree(t, det) && f < |t| && !Used(t[f]) && NewHead(t, p, e) && Acyclic(t)
    ensures Acyclic(t[f := e])
  {
    var d :| Deep(t, d);
    var t', d' := t[f := e], d[f := d[p] + 1];
    forall i | 0 < i < |t'| && Used(t'[i])
      ensures t'[i].parent < |t'| && d'[t'[i].parent] < d'[i]
    {
      assert EntryOk(t, i) && EntryOk(t, t[i].parent) && EntryOk(t, p);
    }
    assert Deep(t', d');
  }

  /** The table after adding a new head e at the free entry f to the list of directory p. */
  function Created(t: Table, f: nat, p: nat, e: Entry): (t': Table)
    requires f < |t| && p < |t| && f != p && t[p].next < |t|
    requires |t[p].refs| == SFS_ENTRYREFS && t[p].size < SFS_ENTRYREFS
    ensures |t'| == |t|
  {
    Attached(t[f := e], p, f)
  }

  /** The three parts of the tree invariant between operations. */
  ghost predicate TreeOk(t: Table) {
    Tree(t, {}) && Names(t) && Acyclic(t)
  }

  lemma CreatedTree(t: Table, f: nat, p: nat, e: Entry)
    requires TreeOk(t) && f < |t| && !Used(t[f]) && NewHead(t, p, e) && NameFree(t, p, e.name)
    requires t[p].size < SFS_ENTRYREFS
    ensures f != p && EntryOk(t, p)
    ensures var t' := Created(t, f, p, e); TreeOk(t') && IsChild(t', f, p) && t'[f] == e
  {
    assert EntryOk(t, p);
    var t1 := t[f := e];
    NewHeadTree(t, {}, f, p, e);
    NewHeadNames(t, {}, f, p, e);
    NewHeadAcyclic(t, {}, f, p, e);
    NewHeadHeads(t, {}, f, p, e, p);
    AttachTree(t1, p, f, {f});
    assert {} + {f} == {f} && {f} - {f} == {};
    var t' := Attached(t1, p, f);
    RespareNames(t1, t', p, {f});
    RespareAcyclic(t1, t', p, {f});
    RespareHeads(t1, t', p, {f});
    assert EntryOk(t1, p) && EntryOk(t1, f);
  }

  // ----- renaming a detached head

  function Renamed(t: Table, x: nat, p: nat, name: string): (t': Table)
    requires x < |t|
    ensures |t'| == |t|
  {
    t[x := t[x].(name := name, parent := p)]
  }

  /** Head x, in no list, can go under directory p, which is not below x. */
  ghost predicate Movable(t: Table, det: set<nat>, x: nat, p: nat) {
    && Tree(t, det) && Acyclic(t) && IsHead(t, x) && x != 0 && x in det
    && IsDir(t, p) && !Under(t, p, x)
  }

  lemma RenamedHeads(t: Table, det: set<nat>, x: nat, p: nat, name: string, i: nat)
    requires Movable(t, det, x, p)
    ensures IsHead(Renamed(t, x, p, name), i) <==> IsHead(t, i)
  {
    assert p != x;
    if i < |t| {
      assert EntryOk(t, i) && EntryOk(t, p) && EntryOk(t, x);
    }
  }

  lemma RenamedEntry(t: Table, det: set<nat>, x: nat, p: nat, name: string, i: nat)
    requires Movable(t, det, x, p) && i < |t|
    ensures EntryOk(Renamed(t, x, p, name), i)
  {
    var t' := Renamed(t, x, p, name);
    assert EntryOk(t, i) && EntryOk(t, p) && EntryOk(t, x);
    RenamedHeads(t, det, x, p, name, i);
    RenamedHeads(t, det, x, p, name, t'[i].parent);
    if t[i].next != 0 {
      assert SpareOk(t, i, t[i].next) && !IsHead(t, t[i].next);
    }
  }

  lemma RenamedList(t: Table, det: set<nat>, x: nat, p: nat, name: string, d: nat)
    requires Movable(t, det, x, p) && d < |t| && IsDir(Renamed(t, x, p, name), d)
    ensures ListOk(Renamed(t, x, p, name), det, d)
  {
    RenamedHeads(t, det, x, p, name, d);
    assert ListOk(t, det, d);
    forall c: nat
      ensures IsChild(Renamed(t, x, p, name), c, d) && c !in det <==> IsChild(t, c, d) && c !in det
    {
      RenamedHeads(t, det, x, p, name, c);
    }
  }

  lemma RenamedTree(t: Table, det: set<nat>, x: nat, p: nat, name: string)
    requires Movable(t, det, x, p)
    ensures Tree(Renamed(t, x, p, name), det) && IsChild(Renamed(t, x, p, name), x, p)
  {
    var t' := Renamed(t, x, p, name);
    RenamedHeads(t, det, x, p, name, x);
    forall i | 0 <= i < |t'| ensures EntryOk(t', i) {
      RenamedEntry(t, det, x, p, name, i);
    }
    forall d | 0 <= d < |t'| && IsDir(t', d) ensures ListOk(t', det, d) {
      RenamedList(t, det, x, p, name, d);
    }
  }

  lemma RenamedNames(t: Table, det: set<nat>, x: nat, p: nat, name: string)
    requires Movable(t, det, x, p) && Names(t) && NameFree(t, p, name)
    ensures Names(Renamed(t, x, p, name))
  {
    forall i: nat ensures IsHead(Renamed(t, x, p, name), i) <==> IsHead(t, i) {
      RenamedHeads(t, det, x, p, name, i);
    }
  }

  /** Moving a subtree below a directory outside it makes no cycle: its entries are lowered
      past the new parent. */
  lemma RenamedAcyclic(t: Table, det: set<nat>, x: nat, p: nat, name: string)
    requires Movable(t, det, x, p)
    ensures Acyclic(Renamed(t, x, p, name))
  {
    var t', d := Renamed(t, x, p, name), DepthOf(t);
    var d' := seq(|t|, i requires 0 <= i < |t| => if Under(t, i, x) then d[i] + d[p] + 1 else d[i]);
    forall i | 0 < i < |t'| && Used(t'[i])
      ensures t'[i].parent < |t'| && d'[t'[i].parent] < d'[i]
    {
      assert Under(t, i, x) <==> i == x || Under(t, t[i].parent, x);
      if i != x && Under(t, i, x) {
        assert Under(t, t[i].parent, x);
      }
    }
    assert Deep(t', d');
  }

  /** The table after moving head x to directory p under a new name. */
  function Moved(t: Table, x: nat, p: nat, name: string): (r: Option<Table>)
    requires x < |t| && p < |t| && p != x && t[x].parent < |t| && t[t[x].parent].next < |t|
    requires |t[t[x].parent].refs| == SFS_ENTRYREFS && t[t[x].parent].size <= SFS_ENTRYREFS
    requires x in Items(t[t[x].parent])
    ensures r.Some? ==> |r.value| == |t|
  {
    match Detached(t, t[x].parent, x)
    case None => None
    case Some(t1) =>
      if t1[p].next < |t| && |t1[p].refs| == SFS_ENTRYREFS && t1[p].size < SFS_ENTRYREFS then
        Some(Attached(Renamed(t1, x, p, name), p, x))
      else None
  }

  /** After the detachment the rest of the move can go ahead. */
  lemma DetachedMovable(t: Table, t1: Table, x: nat, p: nat, name: string)
    requires TreeOk(t) && Deletable(t, {}, x) && IsDir(t, p) && !Under(t, p, x) && NameFree(t, p, name)
    requires p == t[x].parent || t[p].size < SFS_ENTRYREFS
    requires EntryOk(t, x) && IsDir(t, t[x].parent) && EntryOk(t, t[x].parent) && HeadOk(|t|, t[t[x].parent])
    requires x in Items(t[t[x].parent]) && Detached(t, t[x].parent, x) == Some(t1)
    ensures Movable(t1, {x}, x, p) && Names(t1) && NameFree(t1, p, name)
    ensures t1[p].size < SFS_ENTRYREFS && EntryOk(t1, p) && p != x
  {
    hide EntryOk, HeadOk, Tree, Respare, NameFree, Names, Acyclic, ListOk, Items, SizeOk, Detached, Under;
    var q := t[x].parent;
    DetachSub(t, {}, x);
    assert {} + {x} == {x};
    RespareNames(t, t1, q, {});
    RespareFree(t, t1, q, p, name);
    DetachedRoom(t, t1, q, x, p);
    assert p in Sub(t, x) <==> p in Sub(t1, x);
    assert p != x by { UnderItself(t, x); }
  }

  lemma UnderItself(t: Table, x: nat)
    requires Acyclic(t) && x < |t|
    ensures Under(t, x, x)
  {
  }

  /** Changing a head and its link takes no name. */
  lemma RespareFree(t: Table, t': Table, h: nat, p: nat, name: string)
    requires Tree(t, {}) && Respare(t, t', h) && NameFree(t, p, name)
    ensures NameFree(t', p, name)
  {
    hide Tree, Respare;
    RespareHeads(t, t', h, {});
    RespareSame(t, t', h, {});
  }

  /** The directory that the item goes to has room once the item is out. */
  lemma DetachedRoom(t: Table, t1: Table, q: nat, x: nat, p: nat)
    requires Tree(t, {}) && IsDir(t, q) && IsDir(t, p) && EntryOk(t, q) && HeadOk(|t|, t[q]) && x in Items(t[q])
    requires Detached(t, q, x) == Some(t1) && Tree(t1, {x}) && (p == q || t[p].size < SFS_ENTRYREFS)
    ensures IsDir(t1, p) && t1[p].size < SFS_ENTRYREFS && EntryOk(t1, p)
  {
    DetachedDir(t, t1, q, x);
    RespareHeads(t, t1, q, {});
    assert EntryOk(t1, p);
    if p != q { RespareOther(t, t1, q, p); }
  }

  lemma DetachedDir(t: Table, t1: Table, q: nat, x: nat)
    requires Tree(t, {}) && IsDir(t, q) && EntryOk(t, q) && HeadOk(|t|, t[q]) && x in Items(t[q])
    requires Detached(t, q, x) == Some(t1)
    ensures Respare(t, t1, q) && t1[q].dir && t1[q].size < SFS_ENTRYREFS
  {
    hide Tree, Items;
    assert t[q].size <= SFS_ENTRYREFS by { DirSized(t, q, {}); }
    FitRespares(t, q, DropItem(t[q], x), {});
  }

  lemma RespareOther(t: Table, t': Table, h: nat, p: nat)
    requires Tree(t, {}) && Respare(t, t', h) && IsHead(t, p) && p != h
    ensures t'[p] == t[p]
  {
    assert EntryOk(t, p) && EntryOk(t, h);
  }

  lemma MovedSteps(t1: Table, x: nat, p: nat, name: string)
    requires Movable(t1, {x}, x, p) && Names(t1) && NameFree(t1, p, name)
    requires t1[p].size < SFS_ENTRYREFS && EntryOk(t1, p) && p != x
    ensures var t' := Attached(Renamed(t1, x, p, name), p, x); TreeOk(t') && IsChild(t', x, p)
  {
    var t2 := Renamed(t1, x, p, name);
    RenamedTree(t1, {x}, x, p, name);
    RenamedNames(t1, {x}, x, p, name);
    RenamedAcyclic(t1, {x}, x, p, name);
    RenamedHeads(t1, {x}, x, p, name, p);
    AttachTree(t2, p, x, {x});
    assert {x} - {x} == {};
    var t' := Attached(t2, p, x);
    RespareNames(t2, t', p, {x});
    RespareAcyclic(t2, t', p, {x});
    RespareHeads(t2, t', p, {x});
    assert EntryOk(t2, x) && EntryOk(t2, p);
  }

  /** Moving a head to a directory outside its subtree with a free name keeps the tree. */
  lemma MovedTree(t: Table, x: nat, p: nat, name: string)
    requires TreeOk(t) && IsHead(t, x) && x != 0
    requires IsDir(t, p) && !Under(t, p, x) && NameFree(t, p, name)
    requires p == t[x].parent || t[p].size < SFS_ENTRYREFS
    ensures EntryOk(t, x) && EntryOk(t, t[x].parent) && HeadOk(|t|, t[t[x].parent]) && IsDir(t, t[x].parent)
    ensures x in Items(t[t[x].parent]) && p != x
    ensures match Detached(t, t[x].parent, x)
            case None => Moved(t, x, p, name) == None
            case Some(t1) => && Moved(t, x, p, name).Some? && TreeOk(Moved(t, x, p, name).value)
                             && IsChild(Moved(t, x, p, name).value, x, p)
  {
    hide Tree, Names, Acyclic, Under, NameFree, Detached, Movable, IsSpare;
    ParentLists(t, {}, x);
    UnderItself(t, x);
    if Detached(t, t[x].parent, x).Some? {
      var t1 := Detached(t, t[x].parent, x).value;
      DetachedMovable(t, t1, x, p, name);
      MovedSteps(t1, x, p, name);
    }
  }
}
