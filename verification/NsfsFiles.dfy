/** What operations on directories leave of files: their sizes, their references, and so the
    ownership of blocks. */
module NsfsFiles {
  import opened NsfsTypes
  import opened NsfsChain
  import opened NsfsTree
  import opened NsfsDir
  import opened NsfsSubtree
  import opened NsfsDelete
  import opened NsfsOps
  import opened NsfsBlocks
  import opened NsfsState

  predicate SameFile(e: Entry, e': Entry) {
    e.file && e'.file && e'.dir == e.dir && e'.size == e.size && e'.refs == e.refs
  }

  /** Every file of t' that refers to blocks is a file of t with the same size and references. */
  ghost predicate FilesFrom(t: Table, t': Table) {
    forall i: nat :: IsHead(t', i) && t'[i].file ==>
      RefCount(t'[i]) == 0 || (IsHead(t, i) && SameFile(t[i], t'[i]))
  }

  /** Every file of t outside gone is in t' with the same size and references. */
  ghost predicate FilesKept(t: Table, t': Table, gone: set<nat>) {
    forall i: nat :: IsHead(t, i) && t[i].file && i !in gone ==> IsHead(t', i) && SameFile(t[i], t'[i])
  }

  lemma FilesFromOwned(t: Table, t': Table, hi: nat)
    requires Owned(t, hi) && FilesFrom(t, t')
    ensures Owned(t', hi)
  {
    forall i: nat, a: nat | LiveRef(t', i, a)
      ensures LiveRef(t, i, a) && t'[i].refs[a] == t[i].refs[a]
    {
      assert IsHead(t', i) && SameFile(t[i], t'[i]);
    }
  }

  /** Changing a directory, or only the time of a file, leaves all files alone. */
  lemma RespareFiles(t: Table, t': Table, h: nat, det: set<nat>)
    requires Tree(t, det) && Respare(t, t', h)
    requires t[h].dir || SameFile(t[h], t'[h])
    ensures FilesFrom(t, t') && FilesKept(t, t', {})
  {
    RespareHeads(t, t', h, det);
    assert EntryOk(t, h);
    forall i: nat | IsHead(t, i) && t[i].file
      ensures SameFile(t[i], t'[i])
    {
      assert EntryOk(t, i);
    }
    forall i: nat | IsHead(t', i) && t'[i].file
      ensures SameFile(t[i], t'[i])
    {
      assert EntryOk(t, i);
    }
  }

  lemma NewHeadFiles(t: Table, f: nat, p: nat, e: Entry)
    requires TreeOk(t) && f < |t| && !Used(t[f]) && NewHead(t, p, e)
    ensures FilesFrom(t, t[f := e]) && FilesKept(t, t[f := e], {})
  {
    forall i: nat ensures IsHead(t[f := e], i) <==> i == f || IsHead(t, i) {
      NewHeadHeads(t, {}, f, p, e, i);
    }
  }

  lemma CreatedFiles(t: Table, f: nat, p: nat, e: Entry)
    requires TreeOk(t) && f < |t| && !Used(t[f]) && NewHead(t, p, e) && HasRoom(t, p)
    ensures f != p && EntryOk(t, p)
    ensures FilesFrom(t, Created(t, f, p, e)) && FilesKept(t, Created(t, f, p, e), {})
  {
    assert EntryOk(t, p);
    NewHeadTree(t, {}, f, p, e);
    assert {} + {f} == {f};
    NewHeadHeads(t, {}, f, p, e, p);
    NewHeadFiles(t, f, p, e);
    AttachTree(t[f := e], p, f, {f});
    RespareFiles(t[f := e], Created(t, f, p, e), p, {f});
  }

  lemma DeletedFiles(t: Table, x: nat)
    requires Deletable(t, {}, x)
    ensures match Deleted(t, {}, x)
            case None => true
            case Some(t') => FilesFrom(t, t') && FilesKept(t, t', Sub(t, x))
  {
    DetachSub(t, {}, x);
    if Deleted(t, {}, x).Some? {
      var t1 := Detached(t, t[x].parent, x).value;
      ParentLists(t, {}, x);
      RespareFiles(t, t1, t[x].parent, {});
      forall i: nat | i < |t|
        ensures IsHead(ZeroOut(t1, Sub(t, x)), i) <==> IsHead(t1, i) && i !in Sub(t, x)
      {
        ZeroHead(t1, {} + {x}, x, i);
      }
    }
  }

  lemma MovedFiles(t: Table, x: nat, p: nat, name: string)
    requires TreeOk(t) && IsHead(t, x) && x != 0
    requires IsDir(t, p) && !Under(t, p, x) && NameFree(t, p, name)
    requires p == t[x].parent || t[p].size < SFS_ENTRYREFS
    ensures EntryOk(t, x) && EntryOk(t, t[x].parent) && HeadOk(|t|, t[t[x].parent]) && IsDir(t, t[x].parent)
    ensures x in Items(t[t[x].parent]) && p != x
    ensures match Moved(t, x, p, name)
            case None => true
            case Some(t') => FilesFrom(t, t') && FilesKept(t, t', {})
  {
    hide FilesFrom, FilesKept, Respare, Movable, NameFree, Names, Acyclic, Under, Sub, ListOk, IsSpare, Tree, Detached;
    MovedTree(t, x, p, name);
    UnderItself(t, x);
    DetachSub(t, {}, x);
    if Moved(t, x, p, name).Some? {
      var t1 := Detached(t, t[x].parent, x).value;
      RespareFiles(t, t1, t[x].parent, {});
      DetachedMovable(t, t1, x, p, name);
      MovedRest(t1, x, p, name);
      FilesTrans(t, t1, Moved(t, x, p, name).value);
    }
  }

  lemma FilesTrans(t: Table, t1: Table, t2: Table)
    requires FilesFrom(t, t1) && FilesFrom(t1, t2) && FilesKept(t, t1, {}) && FilesKept(t1, t2, {})
    ensures FilesFrom(t, t2) && FilesKept(t, t2, {})
  {
    forall i: nat | IsHead(t2, i) && t2[i].file && RefCount(t2[i]) != 0
      ensures IsHead(t, i) && SameFile(t[i], t2[i])
    {
      assert IsHead(t1, i) && SameFile(t1[i], t2[i]);
    }
  }

  lemma MovedRest(t1: Table, x: nat, p: nat, name: string)
    requires Movable(t1, {x}, x, p) && t1[p].size < SFS_ENTRYREFS && EntryOk(t1, p) && p != x
    ensures var t' := Attached(Renamed(t1, x, p, name), p, x); FilesFrom(t1, t') && FilesKept(t1, t', {})
  {
    var t2 := Renamed(t1, x, p, name);
    RenamedTree(t1, {x}, x, p, name);
    forall i: nat ensures IsHead(t2, i) <==> IsHead(t1, i) {
      RenamedHeads(t1, {x}, x, p, name, i);
    }
    AttachTree(t2, p, x, {x});
    RespareFiles(t2, Attached(t2, p, x), p, {x});
  }
}
