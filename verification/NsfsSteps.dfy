/** Steps of the file system: what every successful operation leaves, on whatever entries a path
    and a lookup lead to, and what it keeps. */
module NsfsSteps {
  import opened NsfsTypes
  import opened NsfsChain
  import opened NsfsTree
  import opened NsfsFit
  import opened NsfsDir
  import opened NsfsSubtree
  import opened NsfsDelete
  import opened NsfsOps
  import opened NsfsBlocks
  import opened NsfsGrow
  import opened NsfsState
  import opened NsfsWrite
  import opened NsfsStray
  import opened NsfsPlace
  import opened NsfsMove
  import opened NsfsFiles

  /** A successful operation, on a name below index p, whatever entry that is. Writing, deleting and
      moving take the entry that the lookup returns, whatever it is. */
  datatype Op =
    | MakeDir(p: nat, name: string, time: nat)
    | Write(p: nat, name: string, off: nat, data: seq<byte>, create: bool, time: nat)
    | Delete(p: nat, name: string)
    | Move(sp: nat, sname: string, p: nat, name: string)

  /** Entry e was added below entry e.parent, where its name was not found, as head n. */
  ghost predicate Made(s: Fs, e: Entry, s': Fs, n: nat) {
    && e.parent < |s.table| && Used(s.table[e.parent]) && ValidName(e.name)
    && FindName(s.table, e.parent, e.name) == |s.table|
    && CreateLeaves(s.table, e.parent, e, s'.table, n) && s' == s.(table := s'.table)
  }

  /** Data was written to the file of entry n: room was made, the bytes went where the references
      lead, the time was set. */
  ghost predicate Written(s: Fs, n: nat, off: nat, data: seq<byte>, time: nat, s': Fs) {
    && Placed(s.table, n, off, data) && s'.size == s.size
    && match GrowStep(s, n, off + |data|)
       case None => false
       case Some(t1) =>
         && n < |t1| && t1[n].next < |t1| && Reaches(t1[n], s.disk, off + |data|)
         && s'.table == Timed(t1, n, time) && s'.disk == Lay(t1[n], s.disk, off, data)
  }

  ghost predicate Next(s: Fs, op: Op, s': Fs) {
    match op
    case MakeDir(p, name, time) =>
      exists n: nat :: Made(s, DirEntry(p, name, time), s', n)
    case Write(p, name, off, data, create, time) =>
      var n := FindName(s.table, p, name);
      if n < |s.table| then Written(s, n, off, data, time, s')
      else create && exists s1, m: nat :: Made(s, FileEntry(p, name), s1, m) && Written(s1, m, off, data, time, s')
    case Delete(p, name) =>
      var x := FindName(s.table, p, name);
      x < |s.table| && DeleteLeaves(s.table, x, s'.table) && s' == s.(table := s'.table)
    case Move(sp, sname, p, name) =>
      var x := FindName(s.table, sp, sname);
      && x < |s.table| && p < |s.table| && Used(s.table[p]) && ValidName(name)
      && FindName(s.table, p, name) == |s.table|
      && MoveLeaves(s.table, x, p, name, s'.table) && s' == s.(table := s'.table)
  }

  /** What a caller can check before the call: the parent of what is created or moved is a
      directory with room, what is written is no link unless nothing would change, a deleted or
      moved name is not hidden by a link or the root, and nothing is moved below itself. */
  ghost predicate Sound(s: Fs, op: Op) {
    match op
    case MakeDir(p, name, time) => HasRoom(s.table, p)
    case Write(p, name, off, data, create, time) =>
      var n := FindName(s.table, p, name);
      if n == |s.table| then HasRoom(s.table, p)
      else IsHead(s.table, n) || (off + |data| <= s.table[n].size && BootHolds(s.disk, off, data))
    case Delete(p, name) => Clear(s.table, p, name)
    case Move(sp, sname, p, name) =>
      && Clear(s.table, sp, sname) && RoomFor(s.table, p, FindName(s.table, sp, sname))
      && Acyclic(s.table) && p < |s.table| && !Under(s.table, p, FindName(s.table, sp, sname))
  }

  lemma LookupFree(t: Table, p: nat, name: string)
    requires FindName(t, p, name) == |t|
    ensures NameFree(t, p, name)
  {
  }

  /** Creating an entry in a directory with room. */
  lemma MadeOk(s: Fs, e: Entry, s': Fs, n: nat)
    requires FsOk(s) && Made(s, e, s', n) && HasRoom(s.table, e.parent)
    requires e == DirEntry(e.parent, e.name, e.time) || e == FileEntry(e.parent, e.name)
    ensures FsOk(s') && FilesKept(s.table, s'.table, {}) && s'.disk == s.disk
    ensures IsChild(s'.table, n, e.parent) && s'.table[n] == e
  {
    var t := s.table;
    LookupFree(t, e.parent, e.name);
    CreatedRoom(t, e.parent, e, n);
    CreatedTree(t, n, e.parent, e);
    CreatedFiles(t, n, e.parent, e);
    FilesFromOwned(t, s'.table, BlockLimit(s.size));
  }

  /** Creating one anywhere else. */
  lemma MadeMisplaced(s: Fs, e: Entry, s': Fs, n: nat)
    requires FsOk(s) && Made(s, e, s', n) && !HasRoom(s.table, e.parent) && Fresh(e, e.parent)
    ensures Misplaced(s'.table, n, e.parent) && s'.table[n] == e && Used(s'.table[e.parent]) && n < |s'.table|
  {
    CreateMisplaced(s.table, e.parent, e, s'.table, n);
    CreateOpen(s.table, e.parent, e, n);
    AddedFrame(s.table[n := e], e.parent, n);
    assert SameButRefs(s.table[e.parent], s'.table[e.parent], true);
  }

  lemma DeletedOk(s: Fs, x: nat, t': Table)
    requires FsOk(s) && Deletable(s.table, {}, x) && Deleted(s.table, {}, x) == Some(t')
    ensures FsOk(s.(table := t')) && FilesKept(s.table, t', Sub(s.table, x))
  {
    DeletedTree(s.table, {}, x);
    DeletedFiles(s.table, x);
    FilesFromOwned(s.table, t', BlockLimit(s.size));
  }

  lemma MovedOk(s: Fs, x: nat, p: nat, name: string, t': Table)
    requires FsOk(s) && Proper(s.table, x) && RoomFor(s.table, p, x) && !Under(s.table, p, x)
    requires FindName(s.table, p, name) == |s.table| && MoveLeaves(s.table, x, p, name, t')
    ensures FsOk(s.(table := t')) && FilesKept(s.table, t', {})
  {
    hide MoveLeaves, MoveLists, Tree, Names, Acyclic, EntryOk, HeadOk, Moved, FilesFrom, FilesKept, Owned, NameFree;
    hide Under;
    LookupFree(s.table, p, name);
    MoveListed(s.table, x, p, name, t');
    LeavesMoved(s.table, x, p, name, t');
    MovedTree(s.table, x, p, name);
    MovedFiles(s.table, x, p, name);
    FilesFromOwned(s.table, t', BlockLimit(s.size));
  }

  lemma TimedOk(s: Fs, n: nat, time: nat)
    requires FsOk(s) && IsHead(s.table, n)
    ensures EntryOk(s.table, n)
    ensures var t' := Timed(s.table, n, time);
            && FsOk(s.(table := t')) && OthersKept(s.table, t', n) && t'[n] == s.table[n].(time := time)
  {
    var t := s.table;
    assert EntryOk(t, n);
    TimedRespares(t, n, time, {});
    var t' := Timed(t, n, time);
    RespareHeads(t, t', n, {});
    if t[n].dir {
      TimedList(t, t', n);
    }
    RespareTree(t, t', n, {}, {});
    RespareKeeps(t, t', n);
    RespareFiles(t, t', n, {});
    FilesFromOwned(t, t', BlockLimit(s.size));
  }

  lemma TimedList(t: Table, t': Table, n: nat)
    requires Tree(t, {}) && IsDir(t, n) && Respare(t, t', n) && t'[n] == t[n].(time := t'[n].time)
    ensures ListOk(t', {}, n)
  {
    RespareHeads(t, t', n, {});
    assert ListOk(t, {}, n);
    forall c: nat
      ensures IsChild(t', c, n) <==> IsChild(t, c, n)
    {
      if IsHead(t, c) {
        assert EntryOk(t, c) && EntryOk(t, n);
      }
    }
  }

  /** After making room, the file can take the data and its chain can be timed. */
  lemma RoomReady(s: Fs, n: nat, off: nat, data: seq<byte>)
    requires FsOk(s) && Writable(s, n, off, data)
    ensures match GrowStep(s, n, off + |data|)
            case None => true
            case Some(t1) =>
              && n < |t1| <= MAX_ENTRIES && t1[n].next < |t1|
              && OwnBlocks(t1[n], s.disk) && off + |data| <= t1[n].size
              && Linked(t1, ChainOf(t1, n)) && IsChain(t1, ChainOf(t1, n)) && ChainOf(t1, n)[0] == n
  {
    GrowStepOk(s, n, off, data);
    if GrowStep(s, n, off + |data|).Some? {
      var t1 := GrowStep(s, n, off + |data|).value;
      hide GrowStep;
      assert Tree(t1, {}) && IsHead(t1, n);
      assert EntryOk(t1, n);
      FileOwnsBlocks(s.(table := t1), n);
      ChainLinked(t1, n, {});
    }
  }

  /** Splicing into a longer version of s, if the data reaches its end. */
  lemma SpliceGrown(s: seq<byte>, s1: seq<byte>, off: nat, data: seq<byte>)
    requires off <= |s| && |s1| == (if |s| < off + |data| then off + |data| else |s|) && s1[..|s|] == s
    ensures Splice(s1, off, data) == Splice(s, off, data)
  {
    assert forall k :: 0 <= k < |s| ==> s1[k] == s1[..|s|][k];
  }

  /** Making room keeps the content, as far as it went. */
  lemma RoomBytes(s: Fs, n: nat, off: nat, data: seq<byte>)
    requires FsOk(s) && Writable(s, n, off, data)
    ensures HeadReadable(s.table[n], s.disk)
    ensures match GrowStep(s, n, off + |data|)
            case None => true
            case Some(t1) =>
              && n < |t1| && HeadReadable(t1[n], s.disk) && s.table[n].size <= t1[n].size
              && Bytes(t1[n], s.disk)[..s.table[n].size] == Bytes(s.table[n], s.disk)
  {
    FileOwnsBlocks(s, n);
    GrowStepOk(s, n, off, data);
    if GrowStep(s, n, off + |data|).Some? {
      var t1 := GrowStep(s, n, off + |data|).value;
      FileOwnsBlocks(s.(table := t1), n);
      hide GrowStep;
      RoomPrefix(s.table[n], t1[n], s.disk);
    }
  }

  lemma RoomPrefix(e: Entry, e': Entry, disk: Disk)
    requires HeadReadable(e, disk) && HeadReadable(e', disk) && e.size <= e'.size
    requires forall a: nat :: a < NeededBlocks(e.size) ==> e'.refs[a] == e.refs[a]
    ensures Bytes(e', disk)[..e.size] == Bytes(e, disk)
  {
    forall k | 0 <= k < e.size ensures Bytes(e', disk)[k] == Bytes(e, disk)[k] {
      assert InBlocks(k, e.size);
    }
  }

  /** What a write that got as far as the data leaves, even if the device failed: room was
      made, only blocks of the file changed, and the times may have been set. */
  ghost predicate Stored(s: Fs, n: nat, off: nat, data: seq<byte>, s': Fs) {
    && FsOk(s) && Writable(s, n, off, data) && s'.size == s.size
    && match GrowStep(s, n, off + |data|)
       case None => false
       case Some(t1) =>
         && n < |t1| && t1[n].next < |t1|
         && (s'.table == t1 || exists time :: s'.table == Timed(t1, n, time))
         && Touched(t1[n], s.disk, s'.disk)
  }

  lemma WrittenTimed(s: Fs, n: nat, off: nat, data: seq<byte>, time: nat, t1: Table, s': Fs)
    requires Placed(s.table, n, off, data) && s'.size == s.size
    requires GrowStep(s, n, off + |data|) == Some(t1) && n < |t1| && t1[n].next < |t1|
    requires Reaches(t1[n], s.disk, off + |data|) && s'.disk == Lay(t1[n], s.disk, off, data)
    requires s'.table == Timed(t1, n, time)
    ensures Written(s, n, off, data, time, s')
  {
  }

  lemma WrittenParts(s: Fs, n: nat, off: nat, data: seq<byte>, time: nat, s': Fs)
    requires Written(s, n, off, data, time, s')
    ensures Placed(s.table, n, off, data) && s'.size == s.size && GrowStep(s, n, off + |data|).Some?
    ensures var t1 := GrowStep(s, n, off + |data|).value;
            && n < |t1| && t1[n].next < |t1| && Reaches(t1[n], s.disk, off + |data|)
            && s'.table == Timed(t1, n, time) && s'.disk == Lay(t1[n], s.disk, off, data)
  {
  }

  /** In a good state, writing to a head puts the data into the bytes of the file. */
  lemma WrittenWrote(s: Fs, n: nat, off: nat, data: seq<byte>, time: nat, s': Fs)
    requires FsOk(s) && IsHead(s.table, n) && Written(s, n, off, data, time, s')
    ensures Stored(s, n, off, data, s')
    ensures Wrote(GrowStep(s, n, off + |data|).value[n], s.disk, s'.disk, off, data)
  {
    hide GrowStep, Lay, Reaches, FsOk, Written, Wrote, Touched, OwnBlocks, IsHead, Linked, Timed, Splice, Bytes;
    WrittenParts(s, n, off, data, time, s');
    RoomReady(s, n, off, data);
    var t1 := GrowStep(s, n, off + |data|).value;
    WroteNothing(t1[n], s.disk, off);
    LayWrote(t1[n], s.disk, s.disk, off, [], data);
    assert [] + data == data;
    WroteTouched(t1[n], s.disk, s'.disk, off, data);
  }

  /** A write to a name in directory p, complete or not: the file was there or was made. */
  ghost predicate WroteSome(s: Fs, p: nat, name: string, off: nat, data: seq<byte>, s': Fs) {
    var n := FindName(s.table, p, name);
    if n < |s.table| then Stored(s, n, off, data, s')
    else exists s1, m: nat :: Made(s, FileEntry(p, name), s1, m) && Stored(s1, m, off, data, s')
  }

  /** Head and disk after a write, complete or not. */
  lemma StoredHead(s: Fs, n: nat, off: nat, data: seq<byte>, s': Fs)
    requires Stored(s, n, off, data, s')
    ensures var t1 := GrowStep(s, n, off + |data|).value;
            && RoomMade(s, n, off + |data|, t1) && FsOk(s')
            && Touched(t1[n], s.disk, s'.disk)
            && OthersKept(t1, s'.table, n) && s'.table[n] == t1[n].(time := s'.table[n].time)
  {
    GrowStepOk(s, n, off, data);
    var t1 := GrowStep(s, n, off + |data|).value;
    if s'.table != t1 {
      var time: nat :| s'.table == Timed(t1, n, time);
      TimedOk(s.(table := t1), n, time);
    }
  }

  /** A write keeps the state, and every other file holds what it held. */
  lemma StoredKeeps(s: Fs, n: nat, off: nat, data: seq<byte>, s': Fs)
    requires Stored(s, n, off, data, s')
    ensures FsOk(s') && OthersKept(s.table, s'.table, n) && s'.table[n].file && off + |data| <= s'.table[n].size
    ensures s'.table[n].name == s.table[n].name && s'.table[n].parent == s.table[n].parent
    ensures forall i: nat :: IsHead(s.table, i) && s.table[i].file && i != n ==>
              && HeadReadable(s.table[i], s.disk) && HeadReadable(s.table[i], s'.disk)
              && Bytes(s.table[i], s'.disk) == Bytes(s.table[i], s.disk)
  {
    StoredHead(s, n, off, data, s');
    var t1 := GrowStep(s, n, off + |data|).value;
    forall i: nat | IsHead(s.table, i) && s.table[i].file && i != n
      ensures HeadReadable(s.table[i], s.disk) && HeadReadable(s.table[i], s'.disk)
      ensures Bytes(s.table[i], s'.disk) == Bytes(s.table[i], s.disk)
    {
      StoredOther(s, n, off, data, s', i);
    }
  }

  lemma StoredOther(s: Fs, n: nat, off: nat, data: seq<byte>, s': Fs, i: nat)
    requires Stored(s, n, off, data, s') && IsHead(s.table, i) && s.table[i].file && i != n
    ensures HeadReadable(s.table[i], s.disk) && HeadReadable(s.table[i], s'.disk)
    ensures Bytes(s.table[i], s'.disk) == Bytes(s.table[i], s.disk)
  {
    var t1 := GrowStep(s, n, off + |data|).value;
    GrowStepOk(s, n, off, data);
    assert t1[i] == s.table[i] && IsHead(t1, i) && IsHead(t1, n) && FsOk(s.(table := t1));
    assert Touched(t1[n], s.disk, s'.disk);
    FileOwnsBlocks(s, i);
    hide Stored, GrowStep, FsOk, IsHead, RoomMade, Touched;
    FilesApart(s.(table := t1), n, i);
    TouchedElsewhere(t1[n], t1[i], s.disk, s'.disk);
  }

  /** A write to a head refines splicing: the file holds its old bytes with the data put in at the
      offset, and every other file holds what it held. */
  lemma WriteRefines(s: Fs, n: nat, off: nat, data: seq<byte>, time: nat, s': Fs)
    requires FsOk(s) && IsHead(s.table, n) && Written(s, n, off, data, time, s')
    ensures FsOk(s') && OthersKept(s.table, s'.table, n) && s'.table[n].file
    ensures HeadReadable(s.table[n], s.disk) && HeadReadable(s'.table[n], s'.disk)
    ensures Bytes(s'.table[n], s'.disk) == Splice(Bytes(s.table[n], s.disk), off, data)
    ensures forall i: nat :: IsHead(s.table, i) && s.table[i].file && i != n ==>
              && HeadReadable(s.table[i], s.disk) && HeadReadable(s.table[i], s'.disk)
              && Bytes(s.table[i], s'.disk) == Bytes(s.table[i], s.disk)
    ensures Reserved(s') == Reserved(s)
  {
    WrittenWrote(s, n, off, data, time, s');
    StoredHead(s, n, off, data, s');
    StoredKeeps(s, n, off, data, s');
    StoredReserved(s, n, off, data, s');
    RoomBytes(s, n, off, data);
    var t1 := GrowStep(s, n, off + |data|).value;
    hide Stored, Written, GrowStep, FsOk, OthersKept;
    RoomPrefix(t1[n], s'.table[n], s'.disk);
    SpliceGrown(Bytes(s.table[n], s.disk), Bytes(t1[n], s.disk), off, data);
  }

  // ----- the blocks before the data

  /** The boot block, the super block and the table, as far as they are blocks of the disk. */
  function Reserved(s: Fs): seq<seq<byte>> {
    s.disk[..Min(FirstDataBlock(|s.table|), |s.disk|)]
  }

  /** The state is good, and nothing but data blocks has changed since state s. */
  ghost predicate Intact(s: Fs, s': Fs) {
    FsOk(s') && |s'.table| == |s.table| && Reserved(s') == Reserved(s)
  }

  lemma StoredReserved(s: Fs, n: nat, off: nat, data: seq<byte>, s': Fs)
    requires Stored(s, n, off, data, s')
    ensures |s'.table| == |s.table| && Reserved(s') == Reserved(s)
  {
    StoredHead(s, n, off, data, s');
    GrowStepOk(s, n, off, data);
    var t1 := GrowStep(s, n, off + |data|).value;
    hide Stored, GrowStep, FsOk, RoomMade, OthersKept, OwnBlocks;
    assert FsOk(s.(table := t1)) && IsHead(t1, n) && t1[n].file by { RoomHead(s, n, off + |data|, t1); }
    DataAbove(s.(table := t1), n);
    TouchedAbove(t1[n], s.disk, s'.disk, FirstDataBlock(|t1|));
  }

  lemma RoomHead(s: Fs, n: nat, size: nat, t1: Table)
    requires RoomMade(s, n, size, t1) && IsHead(s.table, n)
    ensures FsOk(s.(table := t1)) && IsHead(t1, n) && t1[n].file
  {
  }

  /** The blocks of a file are data blocks. */
  lemma DataAbove(s: Fs, n: nat)
    requires FsOk(s) && IsHead(s.table, n) && s.table[n].file
    ensures n < |s.table| && forall b :: 0 <= b < FirstDataBlock(|s.table|) ==> !BlockOf(s.table[n], b)
  {
    assert EntryOk(s.table, n);
    FileOwnsBlocks(s, n);
  }

  lemma TouchedAbove(e: Entry, disk: Disk, disk': Disk, m: nat)
    requires Touched(e, disk, disk') && forall b :: 0 <= b < m ==> !BlockOf(e, b)
    ensures disk'[..Min(m, |disk'|)] == disk[..Min(m, |disk|)]
  {
  }

  // ----- writing through the link of a file

  /** A link of a file that has one is found below the file, under its name. Its references are
      all 0, and so it is block 0 that data goes to. */
  lemma LinkWritten(s: Fs, n: nat, off: nat, data: seq<byte>, time: nat, s': Fs)
    requires FsOk(s) && !IsHead(s.table, n) && Written(s, n, off, data, time, s') && off + |data| <= s.table[n].size
    ensures 0 < |s.disk| && |s.disk[0]| == BLOCK_SIZE
    ensures s'.disk == s.disk[0 := Around(s.disk[0], off, data)] && s'.table == s.table[n := s.table[n].(time := time)]
    ensures FsOk(s') && OthersKept(s.table, s'.table, n)
    ensures forall i: nat :: IsHead(s.table, i) && s.table[i].file ==>
              && HeadReadable(s.table[i], s.disk) && HeadReadable(s.table[i], s'.disk)
              && Bytes(s.table[i], s'.disk) == Bytes(s.table[i], s.disk)
  {
    hide FsOk, OthersKept, Lay, Written, IsSpare, Bytes, Around, GrowStep, HeadReadable;
    WrittenParts(s, n, off, data, time, s');
    LinkOfFile(s, n);
    assert GrowStep(s, n, off + |data|) == Some(s.table) by { NoGrowth(s, n, off + |data|); }
    TimedShort(s.table, n, time);
    BootLaid(s.table[n], s.disk, off, data);
    LinkTimed(s, n, time);
    forall i: nat | IsHead(s.table, i) && s.table[i].file
      ensures && HeadReadable(s.table[i], s.disk) && HeadReadable(s.table[i], s'.disk)
              && Bytes(s.table[i], s'.disk) == Bytes(s.table[i], s.disk)
    {
      BootApart(s, i, Around(s.disk[0], off, data));
    }
    assert FsOk(s') by { BootFsOk(s.(table := s'.table), Around(s.disk[0], off, data), s'); }
  }

  lemma NoGrowth(s: Fs, n: nat, size: nat)
    requires n < |s.table| && s.table[n].next < |s.table| && size <= s.table[n].size
    ensures GrowStep(s, n, size) == Some(s.table)
  {
  }

  /** The link of a file: its head uses a block, so that there is a boot block. */
  lemma LinkOfFile(s: Fs, n: nat)
    requires FsOk(s) && n < |s.table| && s.table[n].file && !IsHead(s.table, n)
    ensures var h := s.table[n].parent;
            && n != 0 && s.table[n].next == 0 && s.table[n].refs == Zeros(SFS_ENTRYREFS)
            && IsHead(s.table, h) && h < |s.table| && s.table[h].file && s.table[h].next == n && h != n
    ensures 0 < |s.disk| && |s.disk[0]| == BLOCK_SIZE
  {
    var t, h := s.table, s.table[n].parent;
    assert EntryOk(t, n) && RootOk(t[0]);
    assert EntryOk(t, h) && SpareOk(t, h, n);
    LinkOfHead(t, h, n);
    FileOwnsBlocks(s, h);
    assert LiveRef(t, h, 0);
  }

  lemma BootLaid(e: Entry, disk: Disk, off: nat, data: seq<byte>)
    requires Reaches(e, disk, off + |data|) && e.refs == Zeros(SFS_ENTRYREFS) && |data| <= BLOCK_SIZE
    requires 0 < |disk| && |disk[0]| == BLOCK_SIZE
    ensures Lay(e, disk, off, data) == disk[0 := Around(disk[0], off, data)]
  {
    if data == [] {
      LayNone(e, disk, off);
      AroundSame(disk[0], off, []);
    } else {
      LayBoot(e, disk, off, data);
    }
  }

  /** Setting the time of a link changes nothing that matters. */
  lemma LinkTimed(s: Fs, n: nat, time: nat)
    requires FsOk(s) && n < |s.table| && s.table[n].file && !IsHead(s.table, n)
    ensures var t' := s.table[n := s.table[n].(time := time)];
            FsOk(s.(table := t')) && OthersKept(s.table, t', n)
  {
    LinkOfFile(s, n);
    var t, h := s.table, s.table[n].parent;
    var t' := t[n := t[n].(time := time)];
    assert EntryOk(t, h) && EntryOk(t, n);
    assert Respare(t, t', h);
    hide FsOk, IsHead, Respare, EntryOk;
    LinkTimedTree(s, h, t');
  }

  lemma LinkTimedTree(s: Fs, h: nat, t': Table)
    requires FsOk(s) && IsHead(s.table, h) && s.table[h].file && Respare(s.table, t', h) && t'[h] == s.table[h]
    ensures FsOk(s.(table := t')) && OthersKept(s.table, t', h)
    ensures forall i: nat :: IsHead(s.table, i) ==> t'[i] == s.table[i]
  {
    var t := s.table;
    assert EntryOk(t, h);
    RespareTree(t, t', h, {}, {});
    RespareKeeps(t, t', h);
    RespareFiles(t, t', h, {});
    FilesFromOwned(t, t', BlockLimit(s.size));
  }

  /** No file has the boot block. */
  lemma BootApart(s: Fs, i: nat, block: seq<byte>)
    requires FsOk(s) && IsHead(s.table, i) && s.table[i].file && 0 < |s.disk| && |block| == BLOCK_SIZE
    ensures i < |s.table| && HeadReadable(s.table[i], s.disk) && HeadReadable(s.table[i], s.disk[0 := block])
    ensures Bytes(s.table[i], s.disk[0 := block]) == Bytes(s.table[i], s.disk)
  {
    DataAbove(s, i);
    FileOwnsBlocks(s, i);
    var e, disk' := s.table[i], s.disk[0 := block];
    forall k | 0 <= k < e.size ensures Bytes(e, disk')[k] == Bytes(e, s.disk)[k] {
      assert InBlocks(k, e.size);
      assert BlockOf(e, e.refs[k / BLOCK_SIZE]);
    }
  }

  lemma BootFsOk(s: Fs, block: seq<byte>, s': Fs)
    requires FsOk(s) && 0 < |s.disk| && |block| == BLOCK_SIZE && s' == s.(disk := s.disk[0 := block])
    ensures FsOk(s')
  {
  }

  /** Growing through a link gives the link a link. */
  lemma LinkGrown(s: Fs, n: nat, off: nat, data: seq<byte>, time: nat, s': Fs)
    requires FsOk(s) && !IsHead(s.table, n) && Written(s, n, off, data, time, s') && s.table[n].size < off + |data|
    ensures !FsOk(s')
  {
    hide FsOk, Lay, Written, GrowStep, IsSpare;
    WrittenParts(s, n, off, data, time, s');
    LinkOfFile(s, n);
    var t, t1, h := s.table, GrowStep(s, n, off + |data|).value, s.table[n].parent;
    GrownLink(s, n, off + |data|);
    TimedShort(t1, n, time);
    assert s'.table[h].next == n && s'.table[n].next != 0;
    assert !FsOk(s') by { LinkedLinkBad(s', h, n); }
  }

  lemma GrownLink(s: Fs, n: nat, size: nat)
    requires FsOk(s) && n < |s.table| && s.table[n].file && s.table[n].next == 0 && s.table[n].parent < |s.table|
    requires s.table[n].size < size <= SFS_ENTRYREFS * BLOCK_SIZE && IsHead(s.table, s.table[n].parent)
    requires s.table[n].parent != n
    ensures match GrowStep(s, n, size)
            case None => true
            case Some(t1) => && n < |t1| && 0 != t1[n].next < |t1| && t1[n].next != n
                             && t1[n].next != s.table[n].parent && t1[s.table[n].parent] == s.table[s.table[n].parent]
  {
    assert RootOk(s.table[0]);
    var e := GrownHead(s.table[n], size, LowestFree(s.table, FirstDataBlock(|s.table|), BlockLimit(s.size)));
    assert RefCount(e) > 0;
  }

  lemma LinkedLinkBad(s: Fs, h: nat, n: nat)
    requires h < |s.table| && n < |s.table| && n != 0 && s.table[h].next == n && s.table[n].next != 0
    ensures !FsOk(s)
  {
    assert !EntryOk(s.table, h);
  }

  /** A write keeps the state and the blocks before the data exactly when what is written is a
      head, or a link that takes the data without growing while the boot block has it already. */
  lemma WrittenOkIff(s: Fs, n: nat, off: nat, data: seq<byte>, time: nat, s': Fs)
    requires FsOk(s) && Written(s, n, off, data, time, s')
    ensures Intact(s, s') <==>
              IsHead(s.table, n) || (off + |data| <= s.table[n].size && BootHolds(s.disk, off, data))
  {
    hide FsOk, Written, BootHolds, IsHead, Around, OthersKept, GrowStep, Lay;
    WrittenParts(s, n, off, data, time, s');
    if IsHead(s.table, n) {
      WriteRefines(s, n, off, data, time, s');
      WrittenWrote(s, n, off, data, time, s');
      StoredReserved(s, n, off, data, s');
    } else if s.table[n].size < off + |data| {
      LinkGrown(s, n, off, data, time, s');
    } else {
      LinkWritten(s, n, off, data, time, s');
      BootSame(s.disk, off, data, Min(FirstDataBlock(|s.table|), |s.disk|));
    }
  }

  lemma BootSame(disk: Disk, off: nat, data: seq<byte>, m: nat)
    requires 0 < m <= |disk| && |disk[0]| == BLOCK_SIZE && |data| <= BLOCK_SIZE
    ensures disk[0 := Around(disk[0], off, data)][..m] == disk[..m] <==> BootHolds(disk, off, data)
  {
    AroundSame(disk[0], off, data);
    var d := disk[0 := Around(disk[0], off, data)];
    assert d[..m] == disk[..m] ==> d[..m][0] == disk[..m][0];
  }
}
