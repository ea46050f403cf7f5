/** Entries and blocks that are free, and when there are enough of them for an operation. */
module NsfsSpace {
  import opened NsfsTypes
  import opened NsfsChain
  import opened NsfsFit
  import opened NsfsTree
  import opened NsfsBlocks
  import opened NsfsSubtree
  import opened NsfsState
  import opened NsfsStray
  import opened NsfsMove
  import opened NsfsOps
  import opened NsfsDir
  import opened NsfsGrow
  import opened NsfsWrite
  import opened NsfsPlace
  import opened NsfsSteps
  import opened NsfsOutcome
  import opened NsfsCopy
  import opened NsfsNames

  /** No entry is free. */
  predicate NoEntry(t: Table) {
    forall i :: 0 <= i < |t| ==> Used(t[i])
  }

  /** No entry is free, or no block that can be used. */
  ghost predicate Full(s: Fs) {
    NoEntry(s.table) || forall b :: FirstDataBlock(|s.table|) <= b < UsableLimit(s.size) ==> Busy(s.table, b)
  }

  /** What is returned when no block can be used: the error, or the number of the lowest free block,
      which is one of the error codes. */
  ghost predicate NoBlock(s: Fs, r: nat) {
    var free := LowestFree(s.table, FirstDataBlock(|s.table|), BlockLimit(s.size));
    free >= UsableLimit(s.size) && r == if free < BlockLimit(s.size) then free else ERROR_NO_SPACE
  }

  /** The operation can be done: there is a state that it leads to. */
  ghost predicate Can(s: Fs, op: Op) {
    exists s' :: Next(s, op, s')
  }

  lemma NothingFree(t: Table)
    requires FirstFree(t) == |t|
    ensures NoEntry(t)
  {
  }

  lemma NoBlockFree(s: Fs)
    requires LowestFree(s.table, FirstDataBlock(|s.table|), BlockLimit(s.size)) >= UsableLimit(s.size)
    ensures Full(s)
  {
  }

  /** No head can be made. */
  ghost predicate NoneMade(t: Table, p: nat, e: Entry) {
    forall t', n :: !CreateLeaves(t, p, e, t', n)
  }

  lemma NoneMadeFull(t: Table, p: nat, e: Entry)
    requires FirstFree(t) == |t|
    ensures NoneMade(t, p, e)
  {
  }

  lemma NoneMadeStuck(t: Table, p: nat, e: Entry)
    requires FirstFree(t) < |t| && Open(t[FirstFree(t) := e], p)
    requires AddedTo(t[FirstFree(t) := e], p, FirstFree(t)) == None
    ensures NoneMade(t, p, e)
  {
  }

  lemma CannotMakeDir(s: Fs, p: nat, name: string, time: nat)
    requires FindName(s.table, p, name) < |s.table| || NoneMade(s.table, p, DirEntry(p, name, time))
    ensures !Can(s, Op.MakeDir(p, name, time))
  {
    hide CreateLeaves;
  }

  /** No data can be written to the file of entry n. */
  lemma CannotFill(s: Fs, n: nat, off: nat, data: seq<byte>, time: nat, s': Fs)
    requires n < |s.table| && (s.table[n].file && s.table[n].next < |s.table| ==> GrowStep(s, n, off + |data|) == None)
    ensures !Written(s, n, off, data, time, s')
  {
    hide GrowStep;
  }

  lemma CannotWriteFound(s: Fs, p: nat, name: string, off: nat, data: seq<byte>, create: bool, time: nat)
    requires var n := FindName(s.table, p, name);
             n < |s.table| && (s.table[n].file && s.table[n].next < |s.table| ==> GrowStep(s, n, off + |data|) == None)
    ensures !Can(s, Op.Write(p, name, off, data, create, time))
  {
    hide Made, Written, GrowStep;
    var n := FindName(s.table, p, name);
    forall s' ensures !Next(s, Op.Write(p, name, off, data, create, time), s') {
      CannotFill(s, n, off, data, time, s');
    }
  }

  /** Nor to a new file, which can be made in one way only. */
  lemma CannotWriteNew(s: Fs, p: nat, name: string, off: nat, data: seq<byte>, create: bool, time: nat, s1: Fs, m: nat)
    requires FindName(s.table, p, name) == |s.table|
    requires create ==> && Made(s, FileEntry(p, name), s1, m) && m < |s1.table|
                        && (s1.table[m].next < |s1.table| ==> GrowStep(s1, m, off + |data|) == None)
    ensures !Can(s, Op.Write(p, name, off, data, create, time))
  {
    hide CreateLeaves, Written, GrowStep;
    forall s' ensures !Next(s, Op.Write(p, name, off, data, create, time), s') {
      if create && exists s2, k: nat :: Made(s, FileEntry(p, name), s2, k) && Written(s2, k, off, data, time, s') {
        var s2, k: nat :| Made(s, FileEntry(p, name), s2, k) && Written(s2, k, off, data, time, s');
        LeavesOnce(s.table, p, FileEntry(p, name), s1.table, m, s2.table, k);
        assert s1 == s2;
        CannotFill(s1, m, off, data, time, s');
      }
    }
  }

  lemma LeavesOnce(t: Table, p: nat, e: Entry, t1: Table, m: nat, t2: Table, k: nat)
    requires CreateLeaves(t, p, e, t1, m) && CreateLeaves(t, p, e, t2, k)
    ensures t1 == t2 && m == k
  {
    hide Open, AddedTo;
  }

  lemma CannotWriteMade(s: Fs, p: nat, name: string, off: nat, data: seq<byte>, create: bool, time: nat)
    requires FindName(s.table, p, name) == |s.table| && (create ==> NoneMade(s.table, p, FileEntry(p, name)))
    ensures !Can(s, Op.Write(p, name, off, data, create, time))
  {
    hide CreateLeaves, Written;
  }

  lemma CannotMoveName(s: Fs, sp: nat, sname: string, p: nat, name: string)
    requires FindName(s.table, p, name) < |s.table| || FindName(s.table, sp, sname) == |s.table|
    ensures !Can(s, Op.Move(sp, sname, p, name))
  {
    hide MoveLeaves;
  }

  lemma CannotMoveOut(s: Fs, sp: nat, sname: string, p: nat, name: string)
    requires var x := FindName(s.table, sp, sname);
             x < |s.table| && Stuck(s.table, s.table[x].parent, x)
    ensures !Can(s, Op.Move(sp, sname, p, name))
  {
    hide Detached, AddedTo, Open;
  }

  lemma CannotMoveIn(s: Fs, sp: nat, sname: string, p: nat, name: string, t1: Table)
    requires var x := FindName(s.table, sp, sname);
             && x < |s.table| && TakenOut(s.table, x, t1) && x < |t1| && Open(Renamed(t1, x, p, name), p)
             && AddedTo(Renamed(t1, x, p, name), p, x) == None
    ensures !Can(s, Op.Move(sp, sname, p, name))
  {
    hide Detached, AddedTo, Open;
  }

  // ----- counting

  /** Block b is a block of a file. */
  ghost predicate InFile(t: Table, b: nat) {
    exists i: nat, a: nat :: LiveRef(t, i, a) && t[i].refs[a] == b
  }

  /** The data blocks that no file has. */
  ghost function FreeBlocks(s: Fs): (r: set<nat>)
    ensures forall b: nat :: b in r <==> FirstDataBlock(|s.table|) <= b < UsableLimit(s.size) && !InFile(s.table, b)
  {
    set b: nat | FirstDataBlock(|s.table|) <= b < UsableLimit(s.size) && !InFile(s.table, b)
  }

  lemma FreeEntryIff(t: Table)
    ensures FirstFree(t) < |t| <==> |FreeEntries(t)| >= 1
    ensures FirstFree(t) < |t| ==> FirstFree(t) in FreeEntries(t)
  {
    if FirstFree(t) < |t| {
      assert FirstFree(t) in FreeEntries(t);
    } else {
      assert FreeEntries(t) == {};
    }
  }

  /** The scan finds a block that can be used exactly when there is one. */
  lemma FreeBlockIff(s: Fs)
    requires FsOk(s)
    ensures var free := LowestFree(s.table, FirstDataBlock(|s.table|), BlockLimit(s.size));
            && (free < UsableLimit(s.size) <==> FreeBlocks(s) != {})
            && (free < UsableLimit(s.size) ==> free in FreeBlocks(s))
  {
    var free := LowestFree(s.table, FirstDataBlock(|s.table|), BlockLimit(s.size));
    assert FirstDataBlock(|s.table|) <= free;
    BusyIsLive(s.table, {}, free);
    if free < UsableLimit(s.size) {
      assert !InFile(s.table, free);
    }
    if FreeBlocks(s) != {} {
      var b :| b in FreeBlocks(s);
      BusyIsLive(s.table, {}, b);
      assert !Busy(s.table, b);
    }
  }

  /** What taking an item out of the list of directory e costs: a link for the items that stay, unless
      there is one; the last item gives the link back. */
  function Cost(e: Entry): int {
    (if e.size > 1 then 1 else 0) - (if e.next != 0 then 1 else 0)
  }

  lemma FitCost(t: Table, h: nat, e: Entry)
    requires h < |t| && Used(t[h]) && Used(e) && t[h].next < |t|
    requires t[h].next != 0 ==> t[h].next != h && Used(t[t[h].next])
    ensures var cost := (if RefCount(e) > 0 then 1 else 0) - (if t[h].next != 0 then 1 else 0);
            match Fit(t, h, e)
            case None => cost > |FreeEntries(t)|
            case Some(t') => |FreeEntries(t')| == |FreeEntries(t)| - cost
  {
    hide RefCount, Zeros, FirstFree;
    FreeEntryIff(t);
    if Fit(t, h, e).Some? {
      var t', q := Fit(t, h, e).value, t[h].next;
      if RefCount(e) == 0 && q != 0 {
        assert FreeEntries(t') == FreeEntries(t) + {q};
      } else if RefCount(e) == 0 || q != 0 {
        assert FreeEntries(t') == FreeEntries(t);
      } else {
        assert FreeEntries(t') == FreeEntries(t) - {FirstFree(t)};
      }
    }
  }

  lemma DetachedCost(t: Table, det: set<nat>, d: nat, x: nat)
    requires Tree(t, det) && IsDir(t, d) && x in Items(t[d])
    ensures |t[d].refs| == SFS_ENTRYREFS && t[d].size <= SFS_ENTRYREFS && t[d].next < |t|
    ensures match Detached(t, d, x)
            case None => Cost(t[d]) > |FreeEntries(t)|
            case Some(t') => |FreeEntries(t')| == |FreeEntries(t)| - Cost(t[d])
  {
    hide Find, SizeOk, ListOk, RefCount, HeadOk;
    DirSized(t, d, det);
    assert EntryOk(t, d);
    ItemDropped(t[d], x);
    FitCost(t, d, DropItem(t[d], x));
  }

  // ----- when an operation can be done

  /** A directory can be made in a directory with room exactly when its name and an entry are free. */
  lemma CanMakeDirIff(s: Fs, p: nat, name: string, time: nat)
    requires FsOk(s) && HasRoom(s.table, p) && ValidName(name)
    ensures Can(s, Op.MakeDir(p, name, time)) <==>
              FindName(s.table, p, name) == |s.table| && |FreeEntries(s.table)| >= 1
  {
    hide FsOk, Made;
    FreeEntryIff(s.table);
    if FindName(s.table, p, name) == |s.table| && FirstFree(s.table) < |s.table| {
      var s1, n := CanMake(s, DirEntry(p, name, time));
      assert Next(s, Op.MakeDir(p, name, time), s1);
    } else {
      forall s' ensures !Next(s, Op.MakeDir(p, name, time), s') {
        CannotMake(s, DirEntry(p, name, time));
      }
    }
  }

  lemma CanMake(s: Fs, e: Entry) returns (s': Fs, n: nat)
    requires FsOk(s) && HasRoom(s.table, e.parent) && ValidName(e.name) && Fresh(e, e.parent)
    requires FindName(s.table, e.parent, e.name) == |s.table| && FirstFree(s.table) < |s.table|
    ensures Made(s, e, s', n)
  {
    hide CreateLeaves, Created, Tree, Names, Acyclic, NewHead;
    n := FirstFree(s.table);
    CreatedRoom(s.table, e.parent, e, n);
    s' := s.(table := Created(s.table, n, e.parent, e));
  }

  lemma CannotMake(s: Fs, e: Entry)
    requires FindName(s.table, e.parent, e.name) < |s.table| || FirstFree(s.table) == |s.table|
    ensures forall s', n :: !Made(s, e, s', n)
  {
    hide Open, AddedTo;
  }

  /** Room for len bytes at offset off of the file that a name leads to, or of a new one: a file that
      grows needs a link, unless it has one, and a block if the bytes reach a new one. */
  ghost predicate SpaceFor(s: Fs, p: nat, name: string, off: nat, len: nat) {
    var t, n := s.table, FindName(s.table, p, name);
    if n < |t| then
      || off + len <= t[n].size
      || (&& (t[n].next != 0 || |FreeEntries(t)| >= 1)
          && (NeededBlocks(t[n].size) < NeededBlocks(off + len) ==> FreeBlocks(s) != {}))
    else |FreeEntries(t)| >= (if len == 0 then 1 else 2) && (len > 0 ==> FreeBlocks(s) != {})
  }

  lemma GrowStepIff(s: Fs, n: nat, off: nat, data: seq<byte>)
    requires FsOk(s) && Writable(s, n, off, data)
    ensures s.table[n].next < |s.table|
    ensures GrowStep(s, n, off + |data|).Some? <==>
              || off + |data| <= s.table[n].size
              || (&& (s.table[n].next != 0 || |FreeEntries(s.table)| >= 1)
                  && (NeededBlocks(s.table[n].size) < NeededBlocks(off + |data|) ==> FreeBlocks(s) != {}))
  {
    hide Tree, Names, Acyclic, Owned, NeededBlocks, LowestFree, DiskOk, FirstFree;
    var size := off + |data|;
    assert EntryOk(s.table, n) by { HeadEntries(s.table, n, {}); }
    FreeBlockIff(s);
    FreeEntryIff(s.table);
    if s.table[n].size < size {
      var b := LowestFree(s.table, FirstDataBlock(|s.table|), BlockLimit(s.size));
      GrowBounds(s, n, off, data);
      GrownHeadOk(s.table, {}, n, size, b);
    }
  }

  /** Room having been made, the write can be done. */
  lemma CanFill(s: Fs, n: nat, off: nat, data: seq<byte>, time: nat) returns (s': Fs)
    requires FsOk(s) && Writable(s, n, off, data) && s.table[n].next < |s.table|
    requires GrowStep(s, n, off + |data|).Some?
    ensures Written(s, n, off, data, time, s')
  {
    hide FsOk, GrowStep, Lay, Reaches, IsHead, Timed, Fillable;
    var t1 := GrowStep(s, n, off + |data|).value;
    HeadFillable(s, n, off, data);
    RoomReaches(s, n, off, data);
    s' := Fs(Timed(t1, n, time), Lay(t1[n], s.disk, off, data), s.size);
    WrittenTimed(s, n, off, data, time, t1, s');
  }

  /** A write to a file, or to a new file in a directory with room, can be done exactly when there is
      room for the data. */
  lemma CanWriteIff(s: Fs, p: nat, name: string, off: nat, data: seq<byte>, create: bool, time: nat)
    requires FsOk(s) && Aimed(s, p, name) && ValidName(name)
    requires |data| <= BLOCK_SIZE && off + |data| <= SFS_ENTRYREFS * BLOCK_SIZE
    requires var n := FindName(s.table, p, name); if n < |s.table| then off <= s.table[n].size else off == 0
    ensures var n := FindName(s.table, p, name);
            Can(s, Op.Write(p, name, off, data, create, time)) <==>
              (if n < |s.table| then s.table[n].file else create) && SpaceFor(s, p, name, off, |data|)
  {
    hide FsOk, HasRoom, IsHead, GrowStep, Can;
    var n := FindName(s.table, p, name);
    if n < |s.table| {
      CanWriteFound(s, p, name, off, data, create, time);
    } else {
      CanWriteNew(s, p, name, data, create, time);
    }
  }

  lemma CanWriteFound(s: Fs, p: nat, name: string, off: nat, data: seq<byte>, create: bool, time: nat)
    requires FsOk(s) && |data| <= BLOCK_SIZE && off + |data| <= SFS_ENTRYREFS * BLOCK_SIZE
    requires var n := FindName(s.table, p, name); n < |s.table| && IsHead(s.table, n) && off <= s.table[n].size
    ensures Can(s, Op.Write(p, name, off, data, create, time)) <==>
              s.table[FindName(s.table, p, name)].file && SpaceFor(s, p, name, off, |data|)
  {
    hide FsOk, IsHead, GrowStep, Written;
    var n := FindName(s.table, p, name);
    if s.table[n].file {
      assert s.table[n].next < |s.table| by { HeadNext(s, n); }
      GrowStepIff(s, n, off, data);
      if GrowStep(s, n, off + |data|).Some? {
        var s' := CanFill(s, n, off, data, time);
        assert Next(s, Op.Write(p, name, off, data, create, time), s');
      } else {
        CannotWriteFound(s, p, name, off, data, create, time);
      }
    } else {
      CannotWriteFound(s, p, name, off, data, create, time);
    }
  }

  lemma HeadNext(s: Fs, n: nat)
    requires FsOk(s) && IsHead(s.table, n)
    ensures n < |s.table| && s.table[n].next < |s.table|
  {
    assert EntryOk(s.table, n);
  }

  /** Making a head uses its entry and no block. */
  lemma MadeSpace(s: Fs, p: nat, name: string, s1: Fs, m: nat)
    requires FsOk(s) && Made(s, FileEntry(p, name), s1, m) && HasRoom(s.table, p)
    ensures |FreeEntries(s1.table)| == |FreeEntries(s.table)| - 1 && FreeBlocks(s1) == FreeBlocks(s)
    ensures m < |s1.table| == |s.table| && s1.table[m] == FileEntry(p, name) && IsHead(s1.table, m) && FsOk(s1)
  {
    hide Tree, Names, Acyclic, Owned, CreateLeaves, DiskOk, IsSpare;
    var t, t1, e := s.table, s1.table, FileEntry(p, name);
    CreatedFacts(s, e, s1, m);
    CreatedHeads(t, m, e);
    CreatedSame(t, m, e);
    MadeOk(s, e, s1, m);
    assert FreeEntries(t1) == FreeEntries(t) - {m};
    forall i: nat, a: nat
      ensures LiveRef(t1, i, a) <==> LiveRef(t, i, a)
      ensures LiveRef(t, i, a) ==> t1[i].refs[a] == t[i].refs[a]
    {
      MadeLive(s, e, s1, m, i, a);
    }
    forall b: nat ensures InFile(t1, b) <==> InFile(t, b) {
      if InFile(t, b) {
        var i: nat, a: nat :| LiveRef(t, i, a) && t[i].refs[a] == b;
        assert LiveRef(t1, i, a) && t1[i].refs[a] == b;
      }
      if InFile(t1, b) {
        var i: nat, a: nat :| LiveRef(t1, i, a) && t1[i].refs[a] == b;
        assert LiveRef(t, i, a) && t[i].refs[a] == b;
      }
    }
    assert FreeBlocks(s1) == FreeBlocks(s);
  }

  lemma MadeLive(s: Fs, e: Entry, s1: Fs, m: nat, i: nat, a: nat)
    requires FsOk(s) && Made(s, e, s1, m) && HasRoom(s.table, e.parent) && e == FileEntry(e.parent, e.name)
    ensures LiveRef(s1.table, i, a) <==> LiveRef(s.table, i, a)
    ensures LiveRef(s.table, i, a) ==> i < |s1.table| && a < |s1.table[i].refs|
                                       && s1.table[i].refs[a] == s.table[i].refs[a]
  {
    hide CreateLeaves, Tree, Names, Acyclic, Owned;
    var t, t1 := s.table, s1.table;
    CreatedFacts(s, e, s1, m);
    CreatedHeads(t, m, e);
    if IsHead(t, i) {
      MadeName(s, e, s1, m);
      assert Stays(t, t1, i) && (i != e.parent ==> t1[i] == t[i]);
    }
  }

  lemma CanWriteNew(s: Fs, p: nat, name: string, data: seq<byte>, create: bool, time: nat)
    requires FsOk(s) && HasRoom(s.table, p) && ValidName(name) && |data| <= BLOCK_SIZE
    requires FindName(s.table, p, name) == |s.table|
    ensures Can(s, Op.Write(p, name, 0, data, create, time)) <==> create && SpaceFor(s, p, name, 0, |data|)
  {
    hide FsOk, HasRoom, IsHead, GrowStep, Written, Made, FirstFree;
    FreeEntryIff(s.table);
    if !create {
      CannotWriteMade(s, p, name, 0, data, create, time);
    } else if FirstFree(s.table) == |s.table| {
      forall s' ensures !Next(s, Op.Write(p, name, 0, data, create, time), s') {
        CannotMake(s, FileEntry(p, name));
      }
    } else {
      var s1, m := CanMake(s, FileEntry(p, name));
      MadeSpace(s, p, name, s1, m);
      GrowStepIff(s1, m, 0, data);
      assert NeededBlocks(0) == 0 && (|data| > 0 ==> NeededBlocks(|data|) > 0);
      if GrowStep(s1, m, |data|).Some? {
        var s' := CanFill(s1, m, 0, data, time);
        assert Next(s, Op.Write(p, name, 0, data, create, time), s');
      } else {
        CannotWriteNew(s, p, name, 0, data, create, time, s1, m);
      }
    }
  }

  /** A sound move can be done exactly when the new name is free and so is the entry that a link may
      need for the items that stay behind. */
  lemma CanMoveIff(s: Fs, sp: nat, sname: string, p: nat, name: string)
    requires FsOk(s) && ValidName(name) && FindName(s.table, sp, sname) < |s.table|
    requires Sound(s, Op.Move(sp, sname, p, name))
    ensures sp < |s.table|
    ensures Can(s, Op.Move(sp, sname, p, name)) <==>
              FindName(s.table, p, name) == |s.table| && Cost(s.table[sp]) <= |FreeEntries(s.table)|
  {
    hide Tree, Names, Acyclic, Owned, DiskOk, Under, RefOut, Detached, MoveLeaves, IsSpare, EntryOk, Items, Open;
    hide SizeOk;
    var t, x := s.table, FindName(s.table, sp, sname);
    ProperFound(t, sp, sname);
    ParentHead(t, x);
    DetachedCost(t, {}, sp, x);
    if FindName(t, p, name) < |t| {
      CannotMoveName(s, sp, sname, p, name);
    } else if Detached(t, sp, x) == None {
      CannotMoveOut(s, sp, sname, p, name);
    } else {
      var t1 := Detached(t, sp, x).value;
      assert TakenOut(t, x, t1) by { TakenIs(t, x, t1); }
      CanMoveTo(s, sp, sname, p, name, t1);
    }
  }

  lemma TakenIs(t: Table, x: nat, t1: Table)
    requires TreeOk(t) && x < |t| && Used(t[x]) && Proper(t, x) && t[x].parent < |t| && t[t[x].parent].next < |t|
    requires |t[t[x].parent].refs| == SFS_ENTRYREFS && t[t[x].parent].size <= SFS_ENTRYREFS
    requires x in Items(t[t[x].parent]) && Detached(t, t[x].parent, x) == Some(t1)
    ensures TakenOut(t, x, t1)
  {
    hide Detached, Tree;
    ParentHead(t, x);
  }

  lemma CanMoveTo(s: Fs, sp: nat, sname: string, p: nat, name: string, t1: Table)
    requires FsOk(s) && ValidName(name) && FindName(s.table, sp, sname) < |s.table|
    requires Sound(s, Op.Move(sp, sname, p, name)) && FindName(s.table, p, name) == |s.table|
    requires TakenOut(s.table, FindName(s.table, sp, sname), t1)
    ensures Can(s, Op.Move(sp, sname, p, name))
  {
    hide Tree, Names, Acyclic, Owned, DiskOk, Under, TakenOut, IsSpare, EntryOk, Items, Open, AddedTo;
    var t, x := s.table, FindName(s.table, sp, sname);
    ProperFound(t, sp, sname);
    TakenAddable(t, x, t1, p);
    RenamedAddable(t1, x, p, name);
    AddedAttached(Renamed(t1, x, p, name), p, x);
    MoveDone(s, sp, sname, p, name, t1, s.(table := Attached(Renamed(t1, x, p, name), p, x)));
  }

  lemma MoveDone(s: Fs, sp: nat, sname: string, p: nat, name: string, t1: Table, s': Fs)
    requires p < |s.table| && Used(s.table[p]) && ValidName(name) && FindName(s.table, p, name) == |s.table|
    requires var x := FindName(s.table, sp, sname);
             && x < |s.table| && TakenOut(s.table, x, t1) && x < |t1| && Open(Renamed(t1, x, p, name), p)
             && AddedTo(Renamed(t1, x, p, name), p, x) == Some(s'.table) && s' == s.(table := s'.table)
    ensures Next(s, Op.Move(sp, sname, p, name), s') && Can(s, Op.Move(sp, sname, p, name))
  {
    assert Next(s, Op.Move(sp, sname, p, name), s');
  }

  // ----- what a copy uses

  /** Lengthening a file by bytes of a new block uses the lowest free block and leaves the file with a
      link. */
  lemma FilledUses(s: Fs, n: nat, data: seq<byte>, time: nat, s': Fs)
    requires FsOk(s) && IsHead(s.table, n) && Written(s, n, s.table[n].size, data, time, s') && data != []
    requires s.table[n].size % BLOCK_SIZE == 0
    ensures FsOk(s') && |s'.table| == |s.table| && IsHead(s'.table, n) && s'.table[n].file && s'.table[n].next != 0
    ensures s'.table[n].size == s.table[n].size + |data|
    ensures |FreeBlocks(s')| == |FreeBlocks(s)| - 1
  {
    hide FsOk, Lay, Reaches, IsSpare, Timed, Busy, LowestFree, GrowStep, Grown, Written, NeededBlocks, InFile;
    var t, off, size := s.table, s.table[n].size, s.table[n].size + |data|;
    assert FsOk(s') by { WriteRefines(s, n, off, data, time, s'); }
    WrittenEntry(s, n, off, data, time, s');
    WrittenParts(s, n, off, data, time, s');
    var t1 := GrowStep(s, n, size).value;
    var b := LowestFree(t, FirstDataBlock(|t|), BlockLimit(s.size));
    NewBlock(off, |data|);
    FreeBlockIff(s);
    GrowBounds(s, n, off, data);
    StepGrown(s, n, size, b);
    GrownLinks(s, n, size, b, t1);
    forall x: nat ensures InFile(s'.table, x) <==> InFile(t, x) || x == b {
      GrownInFile(t, n, size, b, t1, x);
      TimedInFile(s, n, data, time, t1, x);
    }
    TimedInFile(s, n, data, time, t1, b);
    assert FreeBlocks(s') == FreeBlocks(s) - {b};
  }

  lemma StepGrown(s: Fs, n: nat, size: nat, b: nat)
    requires n < |s.table| && s.table[n].next < |s.table| && s.table[n].size < size && GrowStep(s, n, size).Some?
    requires b == LowestFree(s.table, FirstDataBlock(|s.table|), BlockLimit(s.size))
    ensures Grown(s.table, n, size, b) == GrowStep(s, n, size)
    ensures NeededBlocks(s.table[n].size) < NeededBlocks(size) ==> b < UsableLimit(s.size)
  {
    hide Grown, LowestFree;
  }

  lemma NewBlock(off: nat, n: nat)
    requires off % BLOCK_SIZE == 0 && 0 < n <= BLOCK_SIZE
    ensures NeededBlocks(off) < NeededBlocks(off + n) && NeededBlocks(off + n) == NeededBlocks(off) + 1
  {
  }

  lemma GrownLinks(s: Fs, n: nat, size: nat, b: nat, t1: Table)
    requires Growable(s.table, {}, n, size) && FirstDataBlock(|s.table|) <= b
    requires n < |s.table| && s.table[n].next < |s.table| && Grown(s.table, n, size, b) == Some(t1)
    ensures n < |t1| && t1[n].next != 0
  {
    hide Tree, IsHead, FirstFree;
    GrownHeadOk(s.table, {}, n, size, b);
    RootUsed(s.table);
  }

  lemma GrownInFile(t: Table, n: nat, size: nat, b: nat, t1: Table, x: nat)
    requires Growable(t, {}, n, size) && FirstDataBlock(|t|) <= b && !Busy(t, b)
    requires n < |t| && t[n].next < |t| && Grown(t, n, size, b) == Some(t1)
    requires NeededBlocks(size) == NeededBlocks(t[n].size) + 1
    ensures InFile(t1, x) <==> InFile(t, x) || x == b
  {
    hide Growable, Grown, IsSpare, RefCount, NeededBlocks, Respare, GrownHead;
    GrownTree(t, {}, n, size, b);
    forall i: nat, a: nat
      ensures NewRef(t, t1, n, NeededBlocks(t[n].size), NeededBlocks(size), b, i, a)
    {
      GrownLiveRef(t, t1, {}, n, size, b, i, a);
    }
    assert NewRef(t, t1, n, NeededBlocks(t[n].size), NeededBlocks(size), b, n, NeededBlocks(t[n].size));
    if InFile(t, x) {
      var i: nat, a: nat :| LiveRef(t, i, a) && t[i].refs[a] == x;
      assert NewRef(t, t1, n, NeededBlocks(t[n].size), NeededBlocks(size), b, i, a);
    }
    if InFile(t1, x) {
      var i: nat, a: nat :| LiveRef(t1, i, a) && t1[i].refs[a] == x;
      assert NewRef(t, t1, n, NeededBlocks(t[n].size), NeededBlocks(size), b, i, a);
    }
  }

  lemma TimedInFile(s: Fs, n: nat, data: seq<byte>, time: nat, t1: Table, x: nat)
    requires n < |s.table| && FsOk(s) && Writable(s, n, s.table[n].size, data) && s.table[n].next < |s.table|
    requires GrowStep(s, n, s.table[n].size + |data|) == Some(t1)
    ensures n < |t1| && t1[n].next < |t1| && n < |Timed(t1, n, time)| && Timed(t1, n, time)[n].next == t1[n].next
    ensures InFile(Timed(t1, n, time), x) <==> InFile(t1, x)
  {
    hide Tree, Names, Acyclic, Owned, DiskOk, GrowStep, Timed, IsSpare;
    GrowStepOk(s, n, s.table[n].size, data);
    TimedOk(s.(table := t1), n, time);
    var t' := Timed(t1, n, time);
    assert forall i: nat, a: nat :: LiveRef(t', i, a) <==> LiveRef(t1, i, a);
    if InFile(t1, x) {
      var i: nat, a: nat :| LiveRef(t1, i, a) && t1[i].refs[a] == x;
      assert LiveRef(t', i, a) && t'[i].refs[a] == x;
    }
    if InFile(t', x) {
      var i: nat, a: nat :| LiveRef(t', i, a) && t'[i].refs[a] == x;
      assert LiveRef(t1, i, a) && t1[i].refs[a] == x;
    }
  }

  lemma RootUsed(t: Table)
    requires Tree(t, {})
    ensures 0 < |t| && Used(t[0])
  {
  }

  /** What a copy takes: an empty source nothing, any other an entry for the file, one for its link, and
      its blocks. */
  ghost predicate SpaceToCopy(s: Fs, size: nat) {
    size == 0 || (|FreeEntries(s.table)| >= 2 && |FreeBlocks(s)| >= NeededBlocks(size))
  }

  /** A copy has come to offset: the target has a link, is as long, and has used that many blocks. */
  ghost predicate Progress(s: Fs, p: nat, name: string, offset: nat, s': Fs) {
    if offset == 0 then s' == s else
    var y := FindName(s'.table, p, name);
    && y < |s'.table| && IsHead(s'.table, y) && s'.table[y].file && s'.table[y].next != 0
    && s'.table[y].size == offset && |FreeEntries(s.table)| >= 2
    && |FreeBlocks(s')| == |FreeBlocks(s)| - NeededBlocks(offset)
  }

  /** The next piece can be written as long as there is space for all of the copy. */
  lemma CopyDecided(s: Fs, p: nat, name: string, offset: nat, data: seq<byte>, time: nat, s1: Fs, size: nat)
    requires FsOk(s1) && Aimed(s1, p, name) && ValidName(name) && Progress(s, p, name, offset, s1)
    requires offset == 0 ==> FindName(s1.table, p, name) == |s1.table|
    requires 0 < |data| <= BLOCK_SIZE && offset + |data| <= size <= SFS_ENTRYREFS * BLOCK_SIZE
    requires offset % BLOCK_SIZE == 0
    ensures SpaceToCopy(s, size) ==> Can(s1, Op.Write(p, name, offset, data, true, time))
    ensures Can(s1, Op.Write(p, name, offset, data, true, time)) ==>
              |FreeEntries(s.table)| >= 2 && |FreeBlocks(s)| >= NeededBlocks(offset + |data|)
  {
    hide FsOk, Aimed, Can, NeededBlocks, IsHead;
    CanWriteIff(s1, p, name, offset, data, true, time);
    NewBlock(offset, |data|);
    NeededMonotone(offset + |data|, size);
    NoneNeeded();
    FreeSome(s1);
  }

  lemma FreeSome(s: Fs)
    ensures FreeBlocks(s) != {} <==> |FreeBlocks(s)| >= 1
  {
  }

  /** The piece written takes the copy on. */
  lemma CopyProgress(s: Fs, p: nat, name: string, offset: nat, data: seq<byte>, time: nat, s1: Fs, s2: Fs)
    requires FsOk(s1) && IsDir(s1.table, p) && Aimed(s1, p, name) && Progress(s, p, name, offset, s1)
    requires offset == 0 ==> FindName(s1.table, p, name) == |s1.table|
    requires Next(s1, Op.Write(p, name, offset, data, true, time), s2) && data != [] && offset % BLOCK_SIZE == 0
    requires |FreeEntries(s.table)| >= 2
    ensures Progress(s, p, name, offset + |data|, s2)
  {
    hide FsOk, IsDir, HasRoom, IsHead, Made, Written, NeededBlocks;
    if offset == 0 {
      var s0, m: nat :| Made(s1, FileEntry(p, name), s0, m) && Written(s0, m, offset, data, time, s2);
      MadeSpace(s1, p, name, s0, m);
      WrittenSmall(s0, m, offset, data, time, s2);
      NewBlock(0, |data|);
      FilledUses(s0, m, data, time, s2);
      assert NeededBlocks(0) == 0 by { NoneNeeded(); }
      assert FindName(s2.table, p, name) == m by { MadeTarget(s1, p, name, s0, m, offset, data, time, s2); }
    } else {
      var n := FindName(s1.table, p, name);
      WrittenSmall(s1, n, offset, data, time, s2);
      NewBlock(offset, |data|);
      FilledUses(s1, n, data, time, s2);
      assert FindName(s2.table, p, name) == n by { FoundTarget(s1, p, name, offset, data, time, s2); }
    }
  }

  lemma WrittenSmall(s: Fs, n: nat, off: nat, data: seq<byte>, time: nat, s': Fs)
    requires Written(s, n, off, data, time, s')
    ensures |data| <= BLOCK_SIZE
  {
  }

  lemma NoneNeeded()
    ensures NeededBlocks(0) == 0
  {
  }
}
