/** Which name leads where after an operation: what has been made, moved or deleted is found under
    its new name, or not at all, unless the link of the directory has that name. */
module NsfsNames {
  import opened NsfsTypes
  import opened NsfsChain
  import opened NsfsTree
  import opened NsfsFit
  import opened NsfsDir
  import opened NsfsSubtree
  import opened NsfsDelete
  import opened NsfsOps
  import opened NsfsBlocks
  import opened NsfsState
  import opened NsfsWrite
  import opened NsfsStray
  import opened NsfsMove
  import opened NsfsSteps
  import opened NsfsCopy

  /** Entry i is a head before and after, of the same kind, with the same name, time and parent. */
  ghost predicate Stays(t: Table, t': Table, i: nat) {
    && IsHead(t, i) && IsHead(t', i)
    && t'[i].dir == t[i].dir && t'[i].file == t[i].file
    && t'[i].name == t[i].name && t'[i].time == t[i].time && t'[i].parent == t[i].parent
  }

  /** In a good table, who is found under a name in a directory that has an item of that name. */
  lemma ItemFound(t: Table, p: nat, name: string, x: nat)
    requires TreeOk(t) && IsDir(t, p) && IsChild(t, x, p) && t[x].name == name
    ensures FindName(t, p, name) == if Shadowed(t, p, name) && t[p].next < x then t[p].next else x
  {
    var f := FindName(t, p, name);
    assert EntryOk(t, p) && EntryOk(t, 0) && RootOk(t[0]) && EntryOk(t, x);
    assert Matches(t[x], p, name) && f <= x;
    if IsHead(t, f) {
      assert f == x;
    } else {
      assert t[p].next == f && Shadowed(t, p, name);
    }
    if Shadowed(t, p, name) {
      assert SpareOk(t, p, t[p].next) && Matches(t[t[p].next], p, name);
    }
  }

  /** Who is found under a name that no item of the directory has. */
  lemma NoItemFound(t: Table, p: nat, name: string)
    requires TreeOk(t) && IsDir(t, p) && !(p == 0 && name == ROOT_DIR_NAME)
    requires forall c: nat :: IsChild(t, c, p) ==> t[c].name != name
    ensures FindName(t, p, name) == if Shadowed(t, p, name) then t[p].next else |t|
  {
    var f := FindName(t, p, name);
    assert EntryOk(t, p) && EntryOk(t, 0) && RootOk(t[0]);
    if f < |t| {
      assert f != 0 && !IsChild(t, f, p) && Used(t[f]);
      assert t[p].next == f && Shadowed(t, p, name);
    }
    if Shadowed(t, p, name) {
      assert SpareOk(t, p, t[p].next) && Matches(t[t[p].next], p, name);
    }
  }

  // ----- moving

  lemma RespareStays(t: Table, t': Table, h: nat, det: set<nat>, i: nat)
    requires Tree(t, det) && Respare(t, t', h) && t'[h].time == t[h].time && IsHead(t, i)
    ensures Stays(t, t', i) && (i != h ==> t'[i] == t[i])
  {
    RespareHeads(t, t', h, det);
    assert EntryOk(t, i) && EntryOk(t, h);
  }

  /** Taking an item out changes neither the time of its directory nor anything of another head. */
  lemma TakenStays(t: Table, x: nat, t1: Table, i: nat)
    requires TreeOk(t) && Proper(t, x) && TakenOut(t, x, t1) && IsHead(t, i)
    ensures |t1| == |t| && Stays(t, t1, i) && (i != t[x].parent ==> t1[i] == t[i])
  {
    hide Tree, Respare, Acyclic, Names, Stays, Fit, Items, Find;
    var q := t[x].parent;
    ParentHead(t, x);
    ProperTaken(t, x, t1);
    DirSized(t, q, {});
    FitRespares(t, q, DropItem(t[q], x), {});
    RespareStays(t, t1, q, {}, i);
  }

  lemma AttachedStays(t: Table, p: nat, x: nat, i: nat)
    requires Tree(t, {x}) && IsDir(t, p) && IsChild(t, x, p) && IsHead(t, i)
    requires t[p].next < |t| && |t[p].refs| == SFS_ENTRYREFS && t[p].size < SFS_ENTRYREFS
    ensures Stays(t, Attached(t, p, x), i) && (i != p ==> Attached(t, p, x)[i] == t[i])
  {
    hide Tree, Respare, Stays;
    ResizedRespares(t, p, AddItem(t[p], x), {x});
    RespareStays(t, Attached(t, p, x), p, {x}, i);
  }

  /** What a sound move does to the entry moved and to every other head. */
  lemma MovedEntries(s: Fs, sp: nat, sname: string, p: nat, name: string, s': Fs, i: nat)
    requires FsOk(s) && Next(s, Op.Move(sp, sname, p, name), s') && Sound(s, Op.Move(sp, sname, p, name))
    requires IsHead(s.table, i)
    ensures var x := FindName(s.table, sp, sname);
            && x < |s.table| == |s'.table| && p != x && IsDir(s'.table, p)
            && Proper(s.table, x) && IsDir(s.table, p) && FindName(s.table, p, name) == |s.table|
            && s'.table[x] == s.table[x].(name := name, parent := p)
            && (i != x ==> Stays(s.table, s'.table, i))
            && (i != x && i != p && i != s.table[x].parent ==> s'.table[i] == s.table[i])
  {
    hide MoveLeaves, TakenOut, Tree, Names, Acyclic, EntryOk, HeadOk, NameFree, Under, Open, RefOut;
    var t, t', x := s.table, s'.table, FindName(s.table, sp, sname);
    ProperFound(t, sp, sname);
    MoveListed(t, x, p, name, t');
    var t1 :| TakenOut(t, x, t1) && x < |t1| && Addable(Renamed(t1, x, p, name), p)
              && t' == Attached(Renamed(t1, x, p, name), p, x);
    var t2 := Renamed(t1, x, p, name);
    TakenMovable(t, x, t1, p, name);
    TakenStays(t, x, t1, i);
    TakenStays(t, x, t1, p);
    RenamedTree(t1, {x}, x, p, name);
    RenamedHeads(t1, {x}, x, p, name, i);
    RenamedHeads(t1, {x}, x, p, name, p);
    RenamedHeads(t1, {x}, x, p, name, x);
    AttachedStays(t2, p, x, i);
    AttachedStays(t2, p, x, x);
    AttachedStays(t2, p, x, p);
  }

  lemma TakenMovable(t: Table, x: nat, t1: Table, p: nat, name: string)
    requires TreeOk(t) && Proper(t, x) && RoomFor(t, p, x) && !Under(t, p, x) && TakenOut(t, x, t1)
    ensures Movable(t1, {x}, x, p) && p != x && t1[x] == t[x]
  {
    hide Tree, Names, TakenOut, IsSpare, Respare, EntryOk, Acyclic;
    assert p != x by { UnderItself(t, x); }
    ProperTaken(t, x, t1);
    DirStays(t, x, t1, p);
    assert p in Sub(t, x) <==> p in Sub(t1, x);
  }

  /** A sound move gives the entry its new name and parent and nothing else; every other head keeps
      its name, parent, kind and time, and all but the two directories keep everything. Under the new
      name the lookup returns the entry, unless a link of the directory with that name comes before
      it; under the old name it never does. */
  lemma MovedName(s: Fs, sp: nat, sname: string, p: nat, name: string, s': Fs)
    requires FsOk(s) && Next(s, Op.Move(sp, sname, p, name), s') && Sound(s, Op.Move(sp, sname, p, name))
    ensures var t, t', x := s.table, s'.table, FindName(s.table, sp, sname);
            && x < |t| == |t'| && p < |t'|
            && t'[x] == t[x].(name := name, parent := p)
            && (forall i: nat :: IsHead(t, i) && i != x ==>
                  && Stays(t, t', i) && (i != p && i != sp ==> t'[i] == t[i]))
            && (FindName(t', p, name) == x <==> !(Shadowed(t', p, name) && t'[p].next < x))
            && FindName(t', sp, sname) != x
  {
    hide Next, Sound, FsOk, TreeOk, Shadowed, Stays;
    var t, t', x := s.table, s'.table, FindName(s.table, sp, sname);
    assert IsHead(t, x) && t[x].parent == sp && x < |t| by { MovedHead(s, sp, sname, p, name, s'); }
    MovedEntries(s, sp, sname, p, name, s', x);
    forall i: nat | IsHead(t, i) && i != x
      ensures Stays(t, t', i) && (i != p && i != sp ==> t'[i] == t[i])
    {
      MovedEntries(s, sp, sname, p, name, s', i);
    }
    assert IsChild(t', x, p) && TreeOk(t') by { MovedChild(s, sp, sname, p, name, s'); }
    ItemFound(t', p, name, x);
    assert (sp, sname) != (p, name);
    assert FindName(t', sp, sname) < |t'| ==> Matches(t'[FindName(t', sp, sname)], sp, sname);
  }

  lemma MovedHead(s: Fs, sp: nat, sname: string, p: nat, name: string, s': Fs)
    requires FsOk(s) && Next(s, Op.Move(sp, sname, p, name), s') && Sound(s, Op.Move(sp, sname, p, name))
    ensures var x := FindName(s.table, sp, sname);
            x < |s.table| && IsHead(s.table, x) && s.table[x].parent == sp
  {
    hide MoveLeaves, FsOk, TreeOk, Under;
    assert TreeOk(s.table) by { GoodTree(s); }
    ProperFound(s.table, sp, sname);
  }

  lemma GoodTree(s: Fs)
    requires FsOk(s)
    ensures TreeOk(s.table)
  {
  }

  lemma MovedChild(s: Fs, sp: nat, sname: string, p: nat, name: string, s': Fs)
    requires FsOk(s) && Next(s, Op.Move(sp, sname, p, name), s') && Sound(s, Op.Move(sp, sname, p, name))
    ensures TreeOk(s'.table) && IsChild(s'.table, FindName(s.table, sp, sname), p)
  {
    hide MoveLeaves, MoveLists, Tree, Names, Acyclic, Under, Moved, Detached, Owned, EntryOk, HeadOk, NameFree;
    var t, x := s.table, FindName(s.table, sp, sname);
    ProperFound(t, sp, sname);
    LookupFree(t, p, name);
    MoveListed(t, x, p, name, s'.table);
    LeavesMoved(t, x, p, name, s'.table);
    MovedTree(t, x, p, name);
  }

  // ----- deleting

  /** A deletion takes the item out and zeroes its subtree. */
  lemma DeletedAs(t: Table, x: nat, t': Table) returns (t1: Table)
    requires TreeOk(t) && Proper(t, x) && DeleteLeaves(t, x, t')
    ensures |t'| == |t1| == |t| && TakenOut(t, x, t1) && Tree(t1, {x}) && Acyclic(t1) && IsHead(t1, x)
    ensures Sub(t1, x) == Sub(t, x) && x in Sub(t, x) && t' == ZeroOut(t1, Sub(t1, x)) && TreeOk(t')
    ensures t[x].parent < |t| && t[x].parent !in Sub(t, x) && IsDir(t, t[x].parent)
  {
    hide Tree, Respare, Names, Acyclic, IsSpare, TakenOut, Deletable, Deleted, Sub, Items, Under, EntryOk;
    assert Deletable(t, {}, x) && Deleted(t, {}, x) == Some(t') by { LeavesDeleted(t, x, t'); }
    t1 := TakenPart(t, x, t');
    DeletedTree(t, {}, x);
    ParentHead(t, x);
    ParentAbove(t, x);
    UnderItself(t, x);
    ProperTaken(t, x, t1);
  }

  lemma LeavesDeleted(t: Table, x: nat, t': Table)
    requires Proper(t, x) && DeleteLeaves(t, x, t')
    ensures Deletable(t, {}, x) && Deleted(t, {}, x) == Some(t')
  {
    hide Deletable, Deleted, Proper;
  }

  lemma TakenPart(t: Table, x: nat, t': Table) returns (t1: Table)
    requires TreeOk(t) && Proper(t, x) && Deletable(t, {}, x) && Deleted(t, {}, x) == Some(t')
    ensures TakenOut(t, x, t1) && |t1| == |t| && t' == ZeroOut(t1, Sub(t, x))
  {
    hide Tree, Names, Acyclic, Items, EntryOk, Under, IsSpare, Detached, Deletable, SizeOk, Sub;
    ParentHead(t, x);
    ParentLists(t, {}, x);
    DirSized(t, t[x].parent, {});
    t1 := Detached(t, t[x].parent, x).value;
  }

  lemma DeletedEntry(t: Table, x: nat, t': Table, i: nat)
    requires TreeOk(t) && Proper(t, x) && DeleteLeaves(t, x, t') && IsHead(t, i)
    ensures |t'| == |t| && IsHead(t, x) && TreeOk(t') && t[x].parent < |t| && IsDir(t', t[x].parent)
    ensures if i in Sub(t, x) then t'[i] == Zero()
            else Stays(t, t', i) && (i != t[x].parent ==> t'[i] == t[i])
  {
    hide TreeOk, Tree, Acyclic, Sub, IsSpare, DeleteLeaves, TakenOut;
    var t1 := DeletedAs(t, x, t');
    var q := t[x].parent;
    TakenStays(t, x, t1, i);
    TakenStays(t, x, t1, q);
    ZeroHead(t1, {x}, x, i);
    ZeroHead(t1, {x}, x, q);
  }

  /** A sound deletion empties every entry below the one deleted; every other head keeps its name,
      parent, kind and time, and all but the directory keep everything. Nothing is found under the
      name any more, unless it is the name of the directory's link. */
  lemma DeletedName(s: Fs, p: nat, name: string, s': Fs)
    requires FsOk(s) && Next(s, Op.Delete(p, name), s') && Sound(s, Op.Delete(p, name))
    ensures var t, t', x := s.table, s'.table, FindName(s.table, p, name);
            && x < |t| == |t'| && p < |t'| && Acyclic(t)
            && (forall i: nat :: IsHead(t, i) && i in Sub(t, x) ==> t'[i] == Zero())
            && (forall i: nat :: IsHead(t, i) && i !in Sub(t, x) ==>
                  Stays(t, t', i) && (i != p ==> t'[i] == t[i]))
            && FindName(t', p, name) == if Shadowed(t', p, name) then t'[p].next else |t'|
  {
    hide Tree, Names, Sub, Shadowed, Stays, EntryOk, DeleteLeaves, Acyclic;
    var t, t', x := s.table, s'.table, FindName(s.table, p, name);
    ProperFound(t, p, name);
    DeletedEntry(t, x, t', x);
    forall i: nat | IsHead(t, i)
      ensures i in Sub(t, x) ==> t'[i] == Zero()
      ensures i !in Sub(t, x) ==> Stays(t, t', i) && (i != p ==> t'[i] == t[i])
    {
      DeletedEntry(t, x, t', i);
    }
    forall c: nat | IsChild(t', c, p) ensures t'[c].name != name {
      DeletedChild(t, x, t', c);
    }
    NoItemFound(t', p, name);
  }

  /** What is a head afterwards was one before, and is none that was below x. */
  lemma DeletedChild(t: Table, x: nat, t': Table, c: nat)
    requires TreeOk(t) && Proper(t, x) && DeleteLeaves(t, x, t') && IsChild(t', c, t[x].parent)
    ensures t'[c].name != t[x].name
  {
    hide Tree, Acyclic, Sub, IsSpare, DeleteLeaves, TakenOut;
    var t1 := DeletedAs(t, x, t');
    ZeroHead(t1, {x}, x, c);
    TakenHead(t, x, t1, c);
    DeletedEntry(t, x, t', c);
  }

  lemma TakenHead(t: Table, x: nat, t1: Table, c: nat)
    requires TreeOk(t) && Proper(t, x) && TakenOut(t, x, t1) && IsHead(t1, c)
    ensures IsHead(t, c)
  {
    hide Tree, Acyclic, Sub, IsSpare, TakenOut;
    ProperTaken(t, x, t1);
  }

  // ----- creating and writing

  lemma CreatedStays(t: Table, f: nat, p: nat, e: Entry, i: nat)
    requires TreeOk(t) && f < |t| && !Used(t[f]) && NewHead(t, p, e) && t[p].size < SFS_ENTRYREFS && IsHead(t, i)
    ensures f != p && EntryOk(t, p) && i != f
    ensures Stays(t, Created(t, f, p, e), i) && (i != p ==> Created(t, f, p, e)[i] == t[i])
  {
    assert EntryOk(t, p);
    var t1 := t[f := e];
    NewHeadTree(t, {}, f, p, e);
    assert {} + {f} == {f};
    NewHeadHeads(t, {}, f, p, e, i);
    NewHeadHeads(t, {}, f, p, e, p);
    NewHeadHeads(t, {}, f, p, e, f);
    hide Tree, Acyclic, Names, IsSpare, EntryOk;
    AttachedStays(t1, p, f, i);
  }

  /** An entry made in a directory with room: the head is as it was asked for, every other head keeps
      its name, parent, kind and time, and all but the directory keep everything. The name leads to
      the new head, unless a link of the directory with that name comes before it. */
  lemma MadeName(s: Fs, e: Entry, s': Fs, n: nat)
    requires FsOk(s) && Made(s, e, s', n) && HasRoom(s.table, e.parent)
    requires e == DirEntry(e.parent, e.name, e.time) || e == FileEntry(e.parent, e.name)
    ensures var t, t', p := s.table, s'.table, e.parent;
            && n < |t| == |t'| && p < |t'| && !Used(t[n]) && t'[n] == e && IsDir(t', p)
            && (forall i: nat :: IsHead(t, i) ==> Stays(t, t', i) && (i != p ==> t'[i] == t[i]))
            && (FindName(t', p, e.name) == n <==> !(Shadowed(t', p, e.name) && t'[p].next < n))
  {
    hide Tree, Names, Acyclic, CreateLeaves, Created, EntryOk, IsSpare, Stays, Shadowed, Owned, NewHead;
    var t, t', p := s.table, s'.table, e.parent;
    CreatedFacts(s, e, s', n);
    MadeOk(s, e, s', n);
    CreatedStays(t, n, p, e, p);
    forall i: nat | IsHead(t, i) ensures Stays(t, t', i) && (i != p ==> t'[i] == t[i]) {
      CreatedStays(t, n, p, e, i);
    }
    assert IsDir(t', p) by { StaysDir(t, t', p); }
    ItemFound(t', p, e.name, n);
  }

  lemma StaysDir(t: Table, t': Table, i: nat)
    requires Stays(t, t', i) && IsDir(t, i)
    ensures IsDir(t', i)
  {
  }

  /** The entry of a new directory, field by field. */
  lemma DirectoryMade(s: Fs, p: nat, name: string, time: nat, s': Fs)
    requires FsOk(s) && Next(s, Op.MakeDir(p, name, time), s') && Sound(s, Op.MakeDir(p, name, time))
    ensures exists n: nat ::
              && n < |s.table| == |s'.table| && !Used(s.table[n]) && IsHead(s'.table, n)
              && s'.table[n] == Entry(true, false, name, time, 0, p, 0, Zeros(SFS_ENTRYREFS))
              && p < |s'.table| && forall i: nat :: IsHead(s.table, i) ==>
                   Stays(s.table, s'.table, i) && (i != p ==> s'.table[i] == s.table[i])
  {
    hide Made, FsOk, IsHead, HasRoom, Stays;
    var n: nat :| Made(s, DirEntry(p, name, time), s', n);
    MadeOk(s, DirEntry(p, name, time), s', n);
    MadeName(s, DirEntry(p, name, time), s', n);
  }

  /** A write to a head sets its time and, if the data goes past its end, its size; name, parent and
      kind stay, and every other head keeps everything. */
  lemma WrittenEntry(s: Fs, n: nat, off: nat, data: seq<byte>, time: nat, s': Fs)
    requires FsOk(s) && IsHead(s.table, n) && Written(s, n, off, data, time, s')
    ensures var e := s.table[n];
            && |s'.table| == |s.table| && IsHead(s'.table, n)
            && s'.table[n] == e.(time := time, size := if e.size < off + |data| then off + |data| else e.size,
                                 next := s'.table[n].next, refs := s'.table[n].refs)
            && forall i: nat :: IsHead(s.table, i) && i != n ==> IsHead(s'.table, i) && s'.table[i] == s.table[i]
  {
    hide FsOk, GrowStep, Lay, Reaches, IsSpare, Timed;
    WrittenParts(s, n, off, data, time, s');
    GrowStepOk(s, n, off, data);
    var t1 := GrowStep(s, n, off + |data|).value;
    GrowKind(s, n, off, data);
    assert IsHead(t1, n);
    TimedOk(s.(table := t1), n, time);
  }

  lemma GrowKind(s: Fs, n: nat, off: nat, data: seq<byte>)
    requires FsOk(s) && Writable(s, n, off, data)
    ensures s.table[n].next < |s.table|
    ensures match GrowStep(s, n, off + |data|)
            case None => true
            case Some(t1) => n < |t1| && t1[n].dir == s.table[n].dir && t1[n].file == s.table[n].file
  {
    assert EntryOk(s.table, n);
    hide GrowStep;
    GrowStepOk(s, n, off, data);
    if GrowStep(s, n, off + |data|).Some? {
      assert EntryOk(GrowStep(s, n, off + |data|).value, n);
    }
  }

  lemma MadeTarget(s: Fs, p: nat, name: string, s1: Fs, m: nat, off: nat, data: seq<byte>, time: nat, s': Fs)
    requires FsOk(s) && IsDir(s.table, p) && HasRoom(s.table, p) && FsOk(s1) && IsHead(s1.table, m)
    requires Made(s, FileEntry(p, name), s1, m) && Written(s1, m, off, data, time, s')
    ensures FindName(s'.table, p, name) == m
  {
    hide FsOk, IsDir, HasRoom, IsHead, Made, Written, Stored;
    WrittenWrote(s1, m, off, data, time, s');
    StoredTarget(s, p, name, s1, m, off, data, s');
  }

  lemma FoundTarget(s: Fs, p: nat, name: string, off: nat, data: seq<byte>, time: nat, s': Fs)
    requires FsOk(s) && IsDir(s.table, p) && FindName(s.table, p, name) < |s.table|
    requires IsHead(s.table, FindName(s.table, p, name))
    requires Written(s, FindName(s.table, p, name), off, data, time, s')
    ensures FindName(s'.table, p, name) == FindName(s.table, p, name)
  {
    hide FsOk, IsDir, IsHead, Written, Stored, SameMatches;
    var n := FindName(s.table, p, name);
    WrittenWrote(s, n, off, data, time, s');
    StoredMatches(s, n, off, data, s', p, name);
    SameFound(s.table, s'.table, p, name, 0);
  }

  /** What a sound write leaves: under its name a file that carries the time of the write and is as
      long as the data makes it; a new one has nothing else. Every other head keeps its name, parent,
      kind and time. */
  ghost predicate FileLeft(s: Fs, p: nat, name: string, off: nat, len: nat, time: nat, s': Fs) {
    var t, t', n, y := s.table, s'.table, FindName(s.table, p, name), FindName(s'.table, p, name);
    && y < |t'| == |t| && IsHead(t', y) && (if n < |t| then y == n else !Used(t[y]))
    && t'[y] == Entry(false, true, name, time,
                      if n < |t| && off + len <= t[n].size then t[n].size else off + len,
                      p, t'[y].next, t'[y].refs)
    && forall i: nat :: IsHead(t, i) && i != y ==> Stays(t, t', i)
  }

  lemma WrittenName(s: Fs, p: nat, name: string, off: nat, data: seq<byte>, create: bool, time: nat, s': Fs)
    requires FsOk(s) && IsDir(s.table, p) && Next(s, Op.Write(p, name, off, data, create, time), s')
    requires var n := FindName(s.table, p, name); if n < |s.table| then IsHead(s.table, n) else HasRoom(s.table, p)
    ensures FileLeft(s, p, name, off, |data|, time, s')
  {
    hide FsOk, IsDir, HasRoom, IsHead, Made, Written, FileLeft;
    if FindName(s.table, p, name) < |s.table| {
      FoundLeft(s, p, name, off, data, time, s');
    } else {
      var s1, m: nat :| Made(s, FileEntry(p, name), s1, m) && Written(s1, m, off, data, time, s');
      MadeLeft(s, p, name, s1, m, off, data, time, s');
    }
  }

  lemma FoundLeft(s: Fs, p: nat, name: string, off: nat, data: seq<byte>, time: nat, s': Fs)
    requires FsOk(s) && IsDir(s.table, p) && FindName(s.table, p, name) < |s.table|
    requires IsHead(s.table, FindName(s.table, p, name))
    requires Written(s, FindName(s.table, p, name), off, data, time, s')
    ensures FileLeft(s, p, name, off, |data|, time, s')
  {
    hide FsOk, IsDir, IsHead, Written, Stays;
    var n := FindName(s.table, p, name);
    FoundTarget(s, p, name, off, data, time, s');
    WrittenEntry(s, n, off, data, time, s');
    WrittenFile(s, n, off, data, time, s');
    forall i: nat | IsHead(s.table, i) && i != n ensures Stays(s.table, s'.table, i) {
      SameStays(s.table, s'.table, i);
    }
  }

  lemma MadeLeft(s: Fs, p: nat, name: string, s1: Fs, m: nat, off: nat, data: seq<byte>, time: nat, s': Fs)
    requires FsOk(s) && IsDir(s.table, p) && HasRoom(s.table, p) && FindName(s.table, p, name) == |s.table|
    requires Made(s, FileEntry(p, name), s1, m) && Written(s1, m, off, data, time, s')
    ensures FileLeft(s, p, name, off, |data|, time, s')
  {
    hide FsOk, IsDir, HasRoom, IsHead, Made, Written, Stays;
    MadeOk(s, FileEntry(p, name), s1, m);
    MadeName(s, FileEntry(p, name), s1, m);
    ChildHead(s1.table, m, p);
    MadeTarget(s, p, name, s1, m, off, data, time, s');
    WrittenEntry(s1, m, off, data, time, s');
    WrittenFile(s1, m, off, data, time, s');
    forall i: nat | IsHead(s.table, i) && i != m ensures Stays(s.table, s'.table, i) {
      ThenStays(s.table, s1.table, s'.table, i);
    }
  }

  lemma ChildHead(t: Table, c: nat, d: nat)
    requires IsChild(t, c, d)
    ensures IsHead(t, c)
  {
  }

  lemma WrittenFile(s: Fs, n: nat, off: nat, data: seq<byte>, time: nat, s': Fs)
    requires FsOk(s) && IsHead(s.table, n) && Written(s, n, off, data, time, s')
    ensures n < |s.table| && s.table[n].file && !s.table[n].dir && off <= s.table[n].size
  {
    hide GrowStep, Lay;
    assert EntryOk(s.table, n);
  }

  lemma SameStays(t: Table, t': Table, i: nat)
    requires IsHead(t, i) && IsHead(t', i) && t'[i] == t[i]
    ensures Stays(t, t', i)
  {
  }

  lemma ThenStays(t: Table, t1: Table, t': Table, i: nat)
    requires Stays(t, t1, i) && (IsHead(t1, i) ==> IsHead(t', i) && t'[i] == t1[i])
    ensures Stays(t, t', i)
  {
  }
}
