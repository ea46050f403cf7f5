/** Runs of operations: exactly when a step, and so a run, keeps a good state good; and what
    listing and lookup have to do with each other. */
module NsfsRuns {
  import opened NsfsTypes
  import opened NsfsTree
  import opened NsfsDir
  import opened NsfsSubtree
  import opened NsfsOps
  import opened NsfsBlocks
  import opened NsfsState
  import opened NsfsWrite
  import opened NsfsStray
  import opened NsfsPlace
  import opened NsfsMove
  import opened NsfsSteps

  lemma MakeDirOkIff(s: Fs, p: nat, name: string, time: nat, s': Fs)
    requires FsOk(s) && Next(s, Op.MakeDir(p, name, time), s')
    ensures Intact(s, s') <==> HasRoom(s.table, p)
  {
    var e := DirEntry(p, name, time);
    var n: nat :| Made(s, e, s', n);
    if HasRoom(s.table, p) {
      MadeOk(s, e, s', n);
    } else {
      MadeMisplaced(s, e, s', n);
      MisplacedBad(s'.table, n, p);
    }
  }

  /** Writing to a new file below anything but a directory with room leaves the file out of place. */
  lemma MadeWrittenBad(s: Fs, p: nat, name: string, s1: Fs, m: nat, off: nat, data: seq<byte>, time: nat, s': Fs)
    requires FsOk(s) && Made(s, FileEntry(p, name), s1, m) && Written(s1, m, off, data, time, s')
    requires !HasRoom(s.table, p)
    ensures !FsOk(s')
  {
    hide Made, Written, GrowStep, Lay, FsOk, Misplaced, TreeOk, HasRoom, Reaches, LinksTo;
    MadeMisplaced(s, FileEntry(p, name), s1, m);
    WrittenParts(s1, m, off, data, time, s');
    GrownMisplaced(s1, m, off + |data|, p);
    var t1 := GrowStep(s1, m, off + |data|).value;
    TimedMisplaced(t1, m, p, time);
    MisplacedBad(s'.table, m, p);
    assert !FsOk(s') by { NotTreeOk(s'); }
  }

  lemma NotTreeOk(s: Fs)
    requires !TreeOk(s.table)
    ensures !FsOk(s)
  {
  }

  lemma WriteOkIff(s: Fs, p: nat, name: string, off: nat, data: seq<byte>, create: bool, time: nat, s': Fs)
    requires FsOk(s) && Next(s, Op.Write(p, name, off, data, create, time), s')
    ensures Intact(s, s') <==> Sound(s, Op.Write(p, name, off, data, create, time))
  {
    hide FsOk, Made, Written, HasRoom, IsHead, BootHolds;
    var n := FindName(s.table, p, name);
    if n < |s.table| {
      WrittenOkIff(s, n, off, data, time, s');
    } else {
      var s1, m: nat :| Made(s, FileEntry(p, name), s1, m) && Written(s1, m, off, data, time, s');
      if HasRoom(s.table, p) {
        MadeOk(s, FileEntry(p, name), s1, m);
        NewHeadWritten(s1, m, off, data, time, s', p);
        MadeSame(s, FileEntry(p, name), s1, m);
      } else {
        MadeWrittenBad(s, p, name, s1, m, off, data, time, s');
      }
    }
  }

  lemma NewHeadWritten(s: Fs, m: nat, off: nat, data: seq<byte>, time: nat, s': Fs, p: nat)
    requires FsOk(s) && IsChild(s.table, m, p) && Written(s, m, off, data, time, s')
    ensures Intact(s, s')
  {
    WrittenOkIff(s, m, off, data, time, s');
  }

  lemma MadeSame(s: Fs, e: Entry, s1: Fs, m: nat)
    requires Made(s, e, s1, m)
    ensures |s1.table| == |s.table| && Reserved(s1) == Reserved(s)
  {
  }

  lemma DeleteOkIff(s: Fs, p: nat, name: string, s': Fs)
    requires FsOk(s) && Next(s, Op.Delete(p, name), s')
    ensures Intact(s, s') <==> Clear(s.table, p, name)
  {
    var x := FindName(s.table, p, name);
    ProperFound(s.table, p, name);
    if Proper(s.table, x) {
      DeletedOk(s, x, s'.table);
    } else {
      StrayDeletedBad(s.table, x, s'.table);
    }
  }

  lemma MoveOkIff(s: Fs, sp: nat, sname: string, p: nat, name: string, s': Fs)
    requires FsOk(s) && Next(s, Op.Move(sp, sname, p, name), s')
    ensures Intact(s, s') <==> Sound(s, Op.Move(sp, sname, p, name))
  {
    hide MoveLeaves, Clear, Under, Tree, Names, Acyclic, IsHead, RoomFor, Owned, Proper, MoveLists;
    var x := FindName(s.table, sp, sname);
    ProperFound(s.table, sp, sname);
    if !RoomFor(s.table, p, x) {
      MoveElsewhere(s.table, x, p, name, s'.table);
    } else if !Proper(s.table, x) {
      MoveListed(s.table, x, p, name, s'.table);
      StrayMoved(s.table, x, p, name, s'.table);
    } else if Under(s.table, p, x) {
      MoveListed(s.table, x, p, name, s'.table);
      LoopMoved(s.table, x, p, name, s'.table);
    } else {
      MovedOk(s, x, p, name, s'.table);
      MoveSame(s.table, x, p, name, s'.table);
    }
  }

  lemma StrayMoved(t: Table, x: nat, p: nat, name: string, t': Table)
    requires TreeOk(t) && x < |t| && Used(t[x]) && !Proper(t, x) && RoomFor(t, p, x)
    requires FindName(t, p, name) == |t| && MoveLists(t, x, p, name, t')
    ensures !TreeOk(t')
  {
    StrayMovedBad(t, x, p, name, t');
  }

  lemma LoopMoved(t: Table, x: nat, p: nat, name: string, t': Table)
    requires TreeOk(t) && Proper(t, x) && RoomFor(t, p, x) && p < |t| && Under(t, p, x) && MoveLists(t, x, p, name, t')
    ensures !TreeOk(t')
  {
    LoopMovedBad(t, x, p, name, t');
  }

  lemma MoveSame(t: Table, x: nat, p: nat, name: string, t': Table)
    requires TreeOk(t) && Proper(t, x) && MoveLeaves(t, x, p, name, t')
    ensures |t'| == |t|
  {
    var t1: Table :| TakenOut(t, x, t1) && x < |t1| && Open(Renamed(t1, x, p, name), p)
              && AddedTo(Renamed(t1, x, p, name), p, x) == Some(t');
    ProperTaken(t, x, t1);
  }

  /** A successful operation keeps the directory tree, the ownership of blocks and the blocks
      before the data exactly when it is sound. */
  lemma NextOkIff(s: Fs, op: Op, s': Fs)
    requires FsOk(s) && Next(s, op, s')
    ensures Intact(s, s') <==> Sound(s, op)
  {
    match op
    case MakeDir(p, name, time) => MakeDirOkIff(s, p, name, time, s');
    case Write(p, name, off, data, create, time) => WriteOkIff(s, p, name, off, data, create, time, s');
    case Delete(p, name) => DeleteOkIff(s, p, name, s');
    case Move(sp, sname, p, name) => MoveOkIff(s, sp, sname, p, name, s');
  }

  /** States passed through by operations, of which only what each does in a good state is
      known. */
  ghost predicate Run(ss: seq<Fs>, ops: seq<Op>) {
    && |ss| == |ops| + 1
    && forall j, k :: 0 <= j < |ops| && 0 <= j < k < |ss| && k == j + 1 && FsOk(ss[j]) ==> Next(ss[j], ops[j], ss[k])
  }

  /** From a good state on, as long as and only as long as the operations are sound, no block is
      live twice or out of range, every directory lists exactly its children, and the blocks
      before the data are as they were. */
  lemma {:induction false} RunOkIff(ss: seq<Fs>, ops: seq<Op>, n: nat)
    requires Run(ss, ops) && FsOk(ss[0]) && n < |ss|
    ensures (forall k :: 0 <= k <= n ==> Intact(ss[0], ss[k])) <==> forall j :: 0 <= j < n ==> Sound(ss[j], ops[j])
    decreases n
  {
    hide Next, FsOk, Sound, Reserved;
    if n > 0 {
      RunOkIff(ss, ops, n - 1);
      if Intact(ss[0], ss[n - 1]) {
        NextOkIff(ss[n - 1], ops[n - 1], ss[n]);
      }
    }
  }

  /** A block handed out by the scan is in no file. */
  lemma FreeBlockUnused(s: Fs)
    requires FsOk(s)
    ensures var b := LowestFree(s.table, FirstDataBlock(|s.table|), BlockLimit(s.size));
            b < BlockLimit(s.size) ==>
              && FirstDataBlock(|s.table|) <= b
              && forall i: nat, a: nat :: LiveRef(s.table, i, a) ==> s.table[i].refs[a] != b
  {
    var b := LowestFree(s.table, FirstDataBlock(|s.table|), BlockLimit(s.size));
    BusyIsLive(s.table, {}, b);
  }

  // ----- lookup and listing

  /** Looking up a name in directory d finds just the item that has it. */
  ghost predicate LookupFaithful(t: Table, d: nat, name: string)
    requires d < |t|
  {
    forall c: nat :: c < |t| ==> (FindName(t, d, name) == c <==> c in Items(t[d]) && t[c].name == name)
  }

  lemma UsedChild(t: Table, d: nat, i: nat)
    requires Tree(t, {}) && IsDir(t, d) && 0 < i < |t| && Used(t[i]) && t[i].parent == d
    ensures i in Items(t[d]) || LinksTo(t[d], i)
    ensures i in Items(t[d]) <==> !LinksTo(t[d], i)
  {
    assert EntryOk(t, i) && EntryOk(t, d) && ListOk(t, {}, d);
    assert IsChild(t, i, d) <==> IsHead(t, i);
  }

  /** Listing and lookup agree, apart from the root's own name, exactly when the directory's
      spare link does not carry the name, or lies behind an item that does. */
  lemma LookupListed(t: Table, d: nat, name: string)
    requires TreeOk(t) && IsDir(t, d) && (d != 0 || name != ROOT_DIR_NAME)
    ensures LookupFaithful(t, d, name) <==>
              Shadowed(t, d, name) ==> exists c :: c in Items(t[d]) && t[c].name == name && c < t[d].next
  {
    var f := FindName(t, d, name);
    assert EntryOk(t, d) && ListOk(t, {}, d) && RootOk(t[0]);
    forall c: nat | c in Items(t[d]) && t[c].name == name
      ensures IsHead(t, c) && Matches(t[c], d, name) && f <= c
    {
      assert IsChild(t, c, d);
    }
    if f < |t| {
      UsedChild(t, d, f);
    }
    if Shadowed(t, d, name) {
      assert Matches(t[t[d].next], d, name) && f <= t[d].next;
      UsedChild(t, d, t[d].next);
    }
  }
}
