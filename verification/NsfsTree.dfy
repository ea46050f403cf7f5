/** The directory tree kept in the entry table: what is true of the table between two
    operations, and what a change to one head entry and its spare link preserves. */
module NsfsTree {
  import opened NsfsTypes
  import opened NsfsChain

  /** A chained entry. Files and directories of up to 120 references have at most one. */
  predicate IsSpare(t: Table, i: nat) {
    i < |t| && i != 0 && Used(t[i]) && t[i].parent < |t| && t[t[i].parent].next == i
  }

  /** An entry in use that is not a link of another. */
  predicate IsHead(t: Table, i: nat) {
    i < |t| && Used(t[i]) && !IsSpare(t, i)
  }

  ghost predicate IsDir(t: Table, i: nat) {
    IsHead(t, i) && t[i].dir
  }

  /** s is the spare link of head h: linked both ways, of the same kind, last and empty. */
  ghost predicate SpareOk(t: Table, h: nat, s: nat) {
    && h < |t| && s < |t| && s != 0 && s != h
    && Used(t[s]) && t[s].dir == t[h].dir && t[s].file == t[h].file
    && t[s].parent == h && t[s].next == 0 && t[s].refs == Zeros(SFS_ENTRYREFS)
  }

  ghost predicate SizeOk(e: Entry) {
    && (e.dir ==> e.size <= SFS_ENTRYREFS)
    && (e.file ==> e.size <= SFS_ENTRYREFS * BLOCK_SIZE)
    && ClearedFrom(e.refs, RefCount(e))
  }

  /** Block of the first data byte: the boot block, the super block and the table come first. */
  function FirstDataBlock(nentries: nat): nat {
    2 + nentries
  }

  /** What holds of a head entry: no more references than one entry takes, none past the
      count, no spare link without references, and no data block inside the table. */
  ghost predicate HeadOk(nentries: nat, e: Entry) {
    && SizeOk(e)
    && (RefCount(e) == 0 ==> e.next == 0)
    && (e.file ==> forall a :: 0 <= a < RefCount(e) && a < |e.refs| ==> FirstDataBlock(nentries) <= e.refs[a])
  }

  ghost predicate EntryOk(t: Table, i: nat)
    requires i < |t|
  {
    && EntryShaped(t, t[i])
    && !(t[i].dir && t[i].file)
    && (!Used(t[i]) ==> t[i] == Zero())
    && (t[i].next != 0 ==> SpareOk(t, i, t[i].next))
    && (IsHead(t, i) ==> HeadOk(|t|, t[i]) && IsDir(t, t[i].parent))
  }

  /** The items of a directory. */
  function Items(e: Entry): seq<nat> {
    if e.size <= |e.refs| then e.refs[..e.size] else e.refs
  }

  ghost predicate IsChild(t: Table, c: nat, d: nat) {
    IsHead(t, c) && c != 0 && t[c].parent == d
  }

  /** The items of directory d are, without repetition, exactly the heads whose parent is d,
      apart from the heads in det, which are in no list for now. */
  ghost predicate ListOk(t: Table, det: set<nat>, d: nat)
    requires d < |t|
  {
    && Distinct(Items(t[d]))
    && forall c: nat :: c in Items(t[d]) <==> IsChild(t, c, d) && c !in det
  }

  ghost predicate RootOk(e: Entry) {
    e.dir && e.parent == 0 && e.name == ROOT_DIR_NAME
  }

  ghost predicate Tree(t: Table, det: set<nat>) {
    && 0 < |t| <= MAX_ENTRIES
    && RootOk(t[0])
    && (forall i :: 0 <= i < |t| ==> EntryOk(t, i))
    && (forall d :: 0 <= d < |t| && IsDir(t, d) ==> ListOk(t, det, d))
  }

  /** No two heads with the same parent have the same name. */
  ghost predicate Names(t: Table) {
    forall i: nat, j: nat :: IsHead(t, i) && IsHead(t, j) && t[i].parent == t[j].parent && t[i].name == t[j].name
      ==> i == j
  }

  /** d numbers the entries so that every entry lies deeper than its parent. */
  ghost predicate Deep(t: Table, d: seq<nat>) {
    && |d| == |t|
    && forall i :: 0 < i < |t| && Used(t[i]) ==> t[i].parent < |t| && d[t[i].parent] < d[i]
  }

  ghost predicate Acyclic(t: Table) {
    exists d :: Deep(t, d)
  }

  // ----- changing one head and its spare link

  /** i is a link out of e; index 0 in a next field stands for no link. */
  predicate LinksTo(e: Entry, i: nat) {
    i != 0 && e.next == i
  }

  /** t' differs from t in head h, which keeps its kind, name and parent, and in its spare
      link, which may have been taken from the free entries or given back. */
  ghost predicate Respare(t: Table, t': Table, h: nat) {
    && |t'| == |t| && IsHead(t, h) && EntryShaped(t', t'[h])
    && t'[h] == t[h].(time := t'[h].time, size := t'[h].size, next := t'[h].next, refs := t'[h].refs)
    && (forall i :: 0 <= i < |t| && i != h && !LinksTo(t[h], i) && !LinksTo(t'[h], i) ==> t'[i] == t[i])
    && (forall i :: 0 <= i < |t| && LinksTo(t'[h], i) ==>
          SpareOk(t', h, i) && EntryShaped(t', t'[i]) && (LinksTo(t[h], i) || !Used(t[i])))
    && (forall i :: 0 <= i < |t| && LinksTo(t[h], i) && !LinksTo(t'[h], i) ==> t'[i] == Zero())
  }

  /** The rest of the tree does not see the change. */
  lemma RespareHeads(t: Table, t': Table, h: nat, det: set<nat>)
    requires Tree(t, det) && Respare(t, t', h)
    ensures forall i :: IsHead(t', i) <==> IsHead(t, i)
  {
    forall i: nat
      ensures IsHead(t', i) <==> IsHead(t, i)
    {
      if i < |t| {
        RespareHead(t, t', h, det, i);
      }
    }
  }

  lemma RespareHead(t: Table, t': Table, h: nat, det: set<nat>, i: nat)
    requires Tree(t, det) && Respare(t, t', h) && i < |t|
    ensures IsHead(t', i) <==> IsHead(t, i)
  {
    hide HeadOk, ListOk, RootOk, Zeros;
    assert EntryOk(t, i) && EntryOk(t, h);
    var p := t[i].parent;
    assert EntryOk(t, p);
  }

  lemma RespareEntry(t: Table, t': Table, h: nat, det: set<nat>, i: nat)
    requires Tree(t, det) && Respare(t, t', h) && i < |t|
    requires HeadOk(|t|, t'[h])
    ensures EntryOk(t', i)
  {
    hide HeadOk, ListOk;
    RespareHeads(t, t', h, det);
    assert EntryOk(t, i) && EntryOk(t, h);
    assert EntryOk(t, t[i].parent);
    assert EntryOk(t, t[i].next);
  }

  lemma RespareList(t: Table, t': Table, h: nat, det: set<nat>, det': set<nat>, d: nat)
    requires Tree(t, det) && Respare(t, t', h) && IsDir(t', d) && d != h
    requires forall c :: (c in det <==> c in det') || (c < |t| && t[c].parent == h)
    ensures ListOk(t', det', d)
  {
    RespareHeads(t, t', h, det);
    assert EntryOk(t, d) && EntryOk(t, h);
    assert !LinksTo(t[h], d) && !LinksTo(t'[h], d);
    assert t'[d] == t[d] && ListOk(t, det, d);
    forall c: nat
      ensures IsChild(t', c, d) && c !in det' <==> IsChild(t, c, d) && c !in det
    {
      if c < |t| && IsHead(t, c) {
        assert EntryOk(t, c);
        assert !LinksTo(t[h], c) && !LinksTo(t'[h], c);
      }
    }
  }

  /** Changing a head and its spare link leaves a tree, if the head is left well formed. */
  lemma RespareTree(t: Table, t': Table, h: nat, det: set<nat>, det': set<nat>)
    requires Tree(t, det) && Respare(t, t', h)
    requires HeadOk(|t|, t'[h]) && (t[h].dir ==> ListOk(t', det', h))
    requires forall c :: (c in det <==> c in det') || (c < |t| && t[c].parent == h)
    ensures Tree(t', det')
  {
    assert RootOk(t'[0]) by {
      assert EntryOk(t, h) && EntryOk(t, 0);
    }
    forall i | 0 <= i < |t'|
      ensures EntryOk(t', i)
    {
      RespareEntry(t, t', h, det, i);
    }
    forall d | 0 <= d < |t'| && IsDir(t', d)
      ensures ListOk(t', det', d)
    {
      if d != h {
        RespareList(t, t', h, det, det', d);
      }
    }
  }

  /** Names are as unique as before. */
  lemma RespareNames(t: Table, t': Table, h: nat, det: set<nat>)
    requires Tree(t, det) && Names(t) && Respare(t, t', h)
    ensures Names(t')
  {
    hide Tree, Respare;
    RespareHeads(t, t', h, det);
    RespareSame(t, t', h, det);
  }

  lemma RespareSame(t: Table, t': Table, h: nat, det: set<nat>)
    requires Tree(t, det) && Respare(t, t', h)
    ensures forall i: nat :: IsHead(t, i) ==> t'[i].parent == t[i].parent && t'[i].name == t[i].name
  {
    forall i: nat | IsHead(t, i)
      ensures t'[i].parent == t[i].parent && t'[i].name == t[i].name
    {
      assert EntryOk(t, i) && EntryOk(t, h);
    }
  }

  /** A link taken lies just below its head. */
  lemma RespareAcyclic(t: Table, t': Table, h: nat, det: set<nat>)
    requires Tree(t, det) && Acyclic(t) && Respare(t, t', h)
    ensures Acyclic(t')
  {
    var d :| Deep(t, d);
    var q := t'[h].next;
    var d' := if q == 0 then d else d[q := d[h] + 1];
    assert EntryOk(t, h);
    forall i | 0 < i < |t'| && Used(t'[i])
      ensures t'[i].parent < |t'| && d'[t'[i].parent] < d'[i]
    {
      assert EntryOk(t, i) && EntryOk(t, t[i].parent);
    }
    assert Deep(t', d');
  }
}
