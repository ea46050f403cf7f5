/** The kernel at work on an image of the builder: reading its files, and runs that start from
    it. */
module NsfsImage {
  import opened NsfsTypes
  import opened NsfsTree
  import opened NsfsDir
  import opened NsfsSubtree
  import opened NsfsDelete
  import opened NsfsOps
  import opened NsfsBlocks
  import opened NsfsGrow
  import opened NsfsState
  import opened NsfsWrite
  import opened NsfsStray
  import opened NsfsPlace
  import opened NsfsSteps
  import opened NsfsOutcome
  import opened NsfsCopy
  import opened NsfsTrust
  import opened NsfsRuns
  import opened NsfsVolume
  import opened Mkfs

  // ----- reading a file of the image

  /** Reading any range of a file of the image yields that range of the input, if the lookup of
      its name leads to it. */
  method ReadInput(v: Volume, buff: array<byte>, ghost files: seq<Input>, ghost blocks: nat, ghost f: nat,
                   name: string, offset: nat, count: nat)
    returns (result: nat)
    requires Fits(files, blocks) && Mkfs.Made(files, blocks, v.table, v.disk)
    requires f < |files| && name == Short(files[f].name)
    requires name != ROOT_DIR_NAME && forall g :: 0 <= g < f ==> Short(files[g].name) != name
    requires offset < 0x1_0000 && count <= buff.Length
    modifies buff
    ensures || result == ERROR_IO
            || (result <= buff.Length && buff[..result] == ReadRange(files[f].data, offset, count))
  {
    MadeFound(files, blocks, v.table, v.disk, f);
    MadeReads(files, blocks, v.table, v.disk, f);
    HeadMatches(files, blocks, v.table, v.disk, f);
    assert v.table[EntryStart(files, f)].file by { HeadIsFile(files, blocks, v.table, v.disk, f); }
    hide Mkfs.Made, Fits, Readable, Content, FindName, ReadRange;
    result := v.ReadFile(buff, 0, name, offset, count, ChainFrom(EntryStart(files, f), EntriesFor(|files[f].data|)));
  }

  lemma HeadIsFile(files: seq<Input>, blocks: nat, t: Table, disk: Disk, f: nat)
    requires Mkfs.Made(files, blocks, t, disk) && f < |files|
    ensures EntryStart(files, f) < |t| <= MAX_ENTRIES && t[EntryStart(files, f)].file
  {
    var n, e := |files[f].data|, EntryStart(files, f);
    assert FileMade(files, f, t, disk, FirstDataBlock(|t|));
    assert LinkAt(t, e, BlockStart(files, f, FirstDataBlock(|t|)), Short(files[f].name), n, EntriesFor(n), e);
  }

  // ----- runs from an image

  /** From an image of files of up to 120 blocks, runs keep the tree, the ownership of blocks and
      the blocks before the data as long as, and only as long as, their operations are sound. */
  lemma RunFromImage(files: seq<Input>, blocks: nat, t: Table, disk: Disk, ss: seq<Fs>, ops: seq<Op>, n: nat)
    requires Fits(files, blocks) && GoodNames(files) && Mkfs.Made(files, blocks, t, disk) && blocks < 0x1_0000
    requires forall f :: 0 <= f < |files| ==> |files[f].data| <= ENTRY_BYTES
    requires Run(ss, ops) && ss[0] == Fs(t, disk, blocks) && n < |ss|
    ensures (forall k :: 0 <= k <= n ==> Intact(ss[0], ss[k])) <==> forall j :: 0 <= j < n ==> Sound(ss[j], ops[j])
  {
    Mkfs.MadeOk(files, blocks, t, disk);
    RunOkIff(ss, ops, n);
  }

  // ----- runs that go wrong

  /** An empty or filled directory, as made at time 0. */
  function Dir(p: nat, name: string, items: seq<nat>): (e: Entry)
    requires |items| <= SFS_ENTRYREFS
    ensures |e.refs| == SFS_ENTRYREFS
  {
    DirEntry(p, name, 0).(size := |items|, refs := items + Zeros(SFS_ENTRYREFS - |items|))
  }

  /** The entries es, then free ones. */
  ghost predicate Starts(t: Table, es: seq<Entry>) {
    |es| <= |t| && forall i: nat :: i < |t| ==> t[i] == if i < |es| then es[i] else Zero()
  }

  lemma DirAdded(p: nat, name: string, items: seq<nat>, n: nat)
    requires |items| < SFS_ENTRYREFS
    ensures AddItem(Dir(p, name, items), n) == Dir(p, name, items + [n])
  {
    assert AddItem(Dir(p, name, items), n).refs == Dir(p, name, items + [n]).refs;
  }

  /** The lookup of a name that no entry has, and of the first free entry. */
  lemma StartsLookup(t: Table, es: seq<Entry>, p: nat, name: string)
    requires Starts(t, es) && forall i :: 0 <= i < |es| ==> Used(es[i]) && !Matches(es[i], p, name)
    ensures FindName(t, p, name) == |t| && FirstFree(t) == |es|
  {
    assert forall i: nat :: i < |es| ==> Used(t[i]);
    assert |es| < |t| ==> !Used(t[|es|]);
  }

  lemma FindsAt(t: Table, es: seq<Entry>, p: nat, name: string, x: nat)
    requires Starts(t, es) && x < |es| && Matches(es[x], p, name)
    requires forall i :: 0 <= i < x ==> !Matches(es[i], p, name)
    ensures FindName(t, p, name) == x
  {
    assert forall i: nat :: i < x ==> !Matches(t[i], p, name);
    assert Matches(t[x], p, name);
  }

  /** Making a directory in the one at p, with no links about, makes es' of the entries es. */
  lemma MakesDir(s: Fs, es: seq<Entry>, p: nat, name: string, es': seq<Entry>, q: nat, pname: string, items: seq<nat>)
    returns (s': Fs)
    requires FsOk(s) && Starts(s.table, es) && p < |es| < |s.table| && |items| < SFS_ENTRYREFS
    requires es[p] == Dir(q, pname, items) && ValidName(name)
    requires forall i :: 0 <= i < |es| ==> Used(es[i]) && es[i].next == 0 && !Matches(es[i], p, name)
    requires es' == es[p := Dir(q, pname, items + [|es|])] + [Dir(p, name, [])]
    ensures FsOk(s') && Next(s, Op.MakeDir(p, name, 0), s') && Sound(s, Op.MakeDir(p, name, 0))
    ensures |s'.table| == |s.table| && Starts(s'.table, es')
  {
    hide FsOk, Next, Tree, Names, Acyclic, IsHead, CreateLeaves;
    var t, n, e := s.table, |es|, DirEntry(p, name, 0);
    StartsLookup(t, es, p, name);
    DirFound(s, p, q, pname, items);
    s' := s.(table := Created(t, n, p, e));
    CreatedRoom(t, p, e, n);
    assert Next(s, Op.MakeDir(p, name, 0), s') by { MadeNext(s, p, name, s', n); }
    NextOkIff(s, Op.MakeDir(p, name, 0), s');
    DirAdded(q, pname, items, n);
    assert Zeros(SFS_ENTRYREFS) == [] + Zeros(SFS_ENTRYREFS);
    assert s'.table == t[n := e][p := Dir(q, pname, items + [n])];
  }

  lemma DirFound(s: Fs, p: nat, q: nat, name: string, items: seq<nat>)
    requires FsOk(s) && p < |s.table| && |items| < SFS_ENTRYREFS && s.table[p] == Dir(q, name, items)
    requires forall i :: 0 <= i < |s.table| && Used(s.table[i]) ==> s.table[i].next == 0
    ensures TreeOk(s.table) && IsHead(s.table, p) && HasRoom(s.table, p)
  {
    assert EntryOk(s.table, p) && EntryOk(s.table, q);
  }

  lemma MadeNext(s: Fs, p: nat, name: string, s': Fs, n: nat)
    requires NsfsSteps.Made(s, DirEntry(p, name, 0), s', n)
    ensures Next(s, Op.MakeDir(p, name, 0), s')
  {
  }

  /** Directory a, with a/b and a/c in it. */
  function Filled(): seq<Entry> {
    [Dir(0, ".", [1]), Dir(0, "a", [2, 3]), Dir(1, "b", []), Dir(1, "c", [])]
  }

  /** The same after the deletion of a/c: the directory has its link, under its own name. */
  function Linked(): seq<Entry> {
    [Dir(0, ".", [1]), Dir(0, "a", [2]).(next := 4), Dir(1, "b", []), Zero(),
     Dir(1, "a", []).(size := 65417)]
  }

  lemma SubOfLast(t: Table)
    requires Acyclic(t) && Starts(t, Filled())
    ensures Sub(t, 3) == {3}
  {
    assert !Under(t, 0, 3);
    assert t[1].parent == 0 && !Under(t, 1, 3);
    assert t[2].parent == 1 && !Under(t, 2, 3);
  }

  lemma DropsLast()
    ensures Items(Dir(0, "a", [2, 3])) == [2, 3]
    ensures DropItem(Dir(0, "a", [2, 3]), 3) == Dir(0, "a", [2])
  {
    var e := Dir(0, "a", [2, 3]);
    assert Items(e) == [2, 3];
    assert Find([2, 3], 3) == 1 + Find([2, 3][1..], 3);
    assert DropItem(e, 3).refs == Dir(0, "a", [2]).refs;
  }

  /** What the deletion of a/c starts from. */
  lemma LastFound(t: Table)
    requires TreeOk(t) && Starts(t, Filled()) && 4 < |t|
    ensures FindName(t, 1, "c") == 3 && FirstFree(t) == 4 && Proper(t, 3) && Deletable(t, {}, 3)
    ensures t[3].parent == 1 && t[1] == Dir(0, "a", [2, 3]) && Clear(t, 1, "c")
  {
    FindsAt(t, Filled(), 1, "c", 3);
    assert FirstFree(t) == 4 by {
      assert Used(t[0]) && Used(t[1]) && Used(t[2]) && !Used(t[4]);
    }
    assert t[1].next == 0 && t[3] == Dir(1, "c", []);
  }

  /** What becomes of a, and its link. */
  lemma LastParts()
    ensures RefCount(Dir(0, "a", [2])) == 1 && Dir(0, "a", [2, 3]).next == 0
    ensures var e, e' := Dir(0, "a", [2, 3]), Dir(0, "a", [2]);
            NsfsChain.Link(e, 1).(size := NsfsChain.SizeAfter(e', e'.size)) == Dir(1, "a", []).(size := 65417)
  {
    assert Zeros(SFS_ENTRYREFS) == [] + Zeros(SFS_ENTRYREFS);
  }

  /** The directory gets its link in the lowest free entry. */
  lemma LastDetached(t: Table)
    requires FirstFree(t) == 4 < |t| && t[1] == Dir(0, "a", [2, 3])
    ensures 3 in Items(t[1]) && t[1].next < |t|
    ensures Detached(t, 1, 3) == Some(t[1 := Dir(0, "a", [2]).(next := 4)][4 := Dir(1, "a", []).(size := 65417)])
  {
    hide DropItem, Items, FirstFree, Starts, Dir, Zeros, RefCount, NsfsChain.Link, NsfsChain.SizeAfter;
    DropsLast();
    LastParts();
    assert |t[1].refs| == SFS_ENTRYREFS && t[1].size <= SFS_ENTRYREFS by { DirShape(0, "a", [2, 3]); }
  }

  lemma DirShape(p: nat, name: string, items: seq<nat>)
    requires |items| <= SFS_ENTRYREFS
    ensures |Dir(p, name, items).refs| == SFS_ENTRYREFS && Dir(p, name, items).size == |items|
  {
  }

  lemma DeletesLast(s: Fs) returns (s': Fs)
    requires FsOk(s) && Starts(s.table, Filled()) && 4 < |s.table|
    ensures FsOk(s') && Next(s, Op.Delete(1, "c"), s') && Sound(s, Op.Delete(1, "c")) && Starts(s'.table, Linked())
  {
    var t := s.table;
    hide FindName, FirstFree, Deletable, Clear, Proper, Tree, Names, Owned, DropItem, Items;
    LastFound(t);
    LastDetached(t);
    SubOfLast(t);
    s' := s.(table := Deleted(t, {}, 3).value);
    NextOkIff(s, Op.Delete(1, "c"), s');
  }

  lemma DeletesLink(s: Fs) returns (s': Fs)
    requires FsOk(s) && Starts(s.table, Linked())
    ensures Next(s, Op.Delete(1, "a"), s') && !FsOk(s')
    ensures IsDir(s.table, 1) && !LookupFaithful(s.table, 1, "a")
  {
    var t := s.table;
    FindsAt(t, Linked(), 1, "a", 4);
    assert t[1].next == 4 && t[0].next == 0 && t[4].size == 65417;
    s' := s.(table := seq(|t|, _ => Zero()));
    assert IsSpare(t, 4) && StrayDeleted(t, 4, s'.table);
    NextOkIff(s, Op.Delete(1, "a"), s');
    LookupListed(t, 1, "a");
  }

  /** mkdir a, mkdir a/b, mkdir a/c, delete a/c, delete a/a. */
  function ShadowOps(): seq<Op> {
    [Op.MakeDir(0, "a", 0), Op.MakeDir(1, "b", 0), Op.MakeDir(1, "c", 0), Op.Delete(1, "c"), Op.Delete(1, "a")]
  }

  lemma BlankStarts(blocks: nat, t: Table, disk: Disk)
    requires Fits([], blocks) && Mkfs.Made([], blocks, t, disk) && 50 <= blocks < 0x1_0000
    ensures FsOk(Fs(t, disk, blocks)) && Starts(t, [Dir(0, ".", [])]) && 5 <= |t|
  {
    Mkfs.MadeOk([], blocks, t, disk);
    assert Root([], 0).refs == Zeros(SFS_ENTRYREFS) == Dir(0, ".", []).refs;
  }

  /** Directory a with a/b in it. */
  function Begun(): seq<Entry> {
    [Dir(0, ".", [1]), Dir(0, "a", [2]), Dir(1, "b", [])]
  }

  lemma MakesBegun(s0: Fs) returns (s1: Fs, s2: Fs)
    requires FsOk(s0) && Starts(s0.table, [Dir(0, ".", [])]) && 5 <= |s0.table|
    ensures FsOk(s1) && FsOk(s2) && Starts(s2.table, Begun()) && |s2.table| == |s0.table|
    ensures Next(s0, ShadowOps()[0], s1) && Sound(s0, ShadowOps()[0])
    ensures Next(s1, ShadowOps()[1], s2) && Sound(s1, ShadowOps()[1])
  {
    hide FsOk, Next, Sound, Starts, Zeros;
    var es := [Dir(0, ".", [1]), Dir(0, "a", [])];
    assert [] + [1] == [1] && [] + [2] == [2];
    s1 := MakesDir(s0, [Dir(0, ".", [])], 0, "a", es, 0, ".", []);
    s2 := MakesDir(s1, es, 1, "b", Begun(), 0, "a", []);
  }

  lemma MakesFilled(s2: Fs) returns (s3: Fs)
    requires FsOk(s2) && Starts(s2.table, Begun()) && 5 <= |s2.table|
    ensures FsOk(s3) && Starts(s3.table, Filled()) && |s3.table| == |s2.table|
    ensures Next(s2, ShadowOps()[2], s3) && Sound(s2, ShadowOps()[2])
  {
    hide FsOk, Next, Sound, Starts, Zeros;
    assert [2] + [3] == [2, 3];
    s3 := MakesDir(s2, Begun(), 1, "c", Filled(), 0, "a", [2]);
  }

  /** On a blank image, four sound operations lead to a state in which deleting a name that is
      not listed is not refused, and takes the root with it. */
  lemma ShadowedRun(blocks: nat, t: Table, disk: Disk) returns (ss: seq<Fs>)
    requires Fits([], blocks) && Mkfs.Made([], blocks, t, disk) && 50 <= blocks < 0x1_0000
    ensures |ss| == 6 && Run(ss, ShadowOps()) && ss[0] == Fs(t, disk, blocks)
    ensures forall j :: 0 <= j < 4 ==> FsOk(ss[j]) && Sound(ss[j], ShadowOps()[j])
    ensures FsOk(ss[4]) && Next(ss[4], ShadowOps()[4], ss[5]) && !FsOk(ss[5])
    ensures IsDir(ss[4].table, 1) && !LookupFaithful(ss[4].table, 1, "a")
  {
    hide FsOk, Next, Sound, Starts, IsDir, LookupFaithful, Mkfs.Made, Fits;
    var s0 := Fs(t, disk, blocks);
    BlankStarts(blocks, t, disk);
    var s1, s2 := MakesBegun(s0);
    var s3 := MakesFilled(s2);
    var s4 := DeletesLast(s3);
    var s5 := DeletesLink(s4);
    ss := [s0, s1, s2, s3, s4, s5];
  }

  // ----- runs on a file

  /** The root and an empty file f. */
  function OneFile(): seq<Entry> {
    [Dir(0, ".", [1]), FileEntry(0, "f")]
  }

  lemma OneFileStarts(blocks: nat, t: Table, disk: Disk)
    requires Fits([Input("f", [])], blocks) && Mkfs.Made([Input("f", [])], blocks, t, disk) && 50 <= blocks < 0x1_0000
    ensures FsOk(Fs(t, disk, blocks)) && Starts(t, OneFile()) && 5 <= |t| && FirstDataBlock(|t|) < blocks
  {
    var files := [Input("f", [])];
    Mkfs.MadeOk(files, blocks, t, disk);
    assert FileMade(files, 0, t, disk, FirstDataBlock(|t|));
    assert LinkAt(t, 1, FirstDataBlock(|t|), "f", 0, 1, 1);
    assert EntryStart(files, 1) == 2;
    assert t[1].refs == Zeros(SFS_ENTRYREFS);
    assert t[0].refs == Dir(0, ".", [1]).refs;
  }

  lemma OneFileLookup(t: Table)
    requires Starts(t, OneFile())
    ensures FindName(t, 0, "f") == 1 && FindName(t, 1, "x") == |t| && FirstFree(t) == 2
  {
    FindsAt(t, OneFile(), 0, "f", 1);
    StartsLookup(t, OneFile(), 1, "x");
  }

  /** A directory can be made below a file: its index becomes the file's first reference. */
  lemma MakesBelow(s: Fs) returns (s': Fs)
    requires FsOk(s) && Starts(s.table, OneFile()) && 5 <= |s.table|
    ensures Next(s, Op.MakeDir(1, "x", 0), s') && !FsOk(s')
  {
    var t, e := s.table, DirEntry(1, "x", 0);
    var t0 := t[2 := e];
    OneFileLookup(t);
    CreateOpen(t, 1, e, 2);
    assert AddedTo(t0, 1, 2) == Some(WithRef(t0, 1, 0, 2));
    s' := s.(table := WithRef(t0, 1, 0, 2));
    assert NsfsSteps.Made(s, e, s', 2);
    MakeDirOkIff(s, 1, "x", 0, s');
    MadeSame(s, e, s', 2);
  }

  /** On an image with one empty file f, making directory f/x is not refused. */
  lemma BelowFileRun(blocks: nat, t: Table, disk: Disk) returns (ss: seq<Fs>)
    requires Fits([Input("f", [])], blocks) && Mkfs.Made([Input("f", [])], blocks, t, disk) && 50 <= blocks < 0x1_0000
    ensures |ss| == 2 && Run(ss, [Op.MakeDir(1, "x", 0)]) && ss[0] == Fs(t, disk, blocks)
    ensures FindName(t, 0, "f") == 1 && FsOk(ss[0]) && Next(ss[0], Op.MakeDir(1, "x", 0), ss[1]) && !FsOk(ss[1])
  {
    hide FsOk, Next, Starts, Mkfs.Made, Fits;
    var s0 := Fs(t, disk, blocks);
    OneFileStarts(blocks, t, disk);
    OneFileLookup(t);
    var s1 := MakesBelow(s0);
    ss := [s0, s1];
  }

  /** File f after a first write of n bytes, and its link, under its name. */
  function Lengthened(b: nat, n: nat): seq<Entry> {
    [Dir(0, ".", [1]), FileEntry(0, "f").(size := n, refs := Zeros(SFS_ENTRYREFS)[0 := b], next := 2),
     FileEntry(1, "f").(size := 4096 + n)]
  }

  lemma LengthenedStep(s: Fs, n: nat)
    requires FsOk(s) && Starts(s.table, OneFile()) && 5 <= |s.table| && FirstDataBlock(|s.table|) < s.size < 0x1_0000
    requires 0 < n <= BLOCK_SIZE
    ensures s.table[1].next == 0
    ensures match GrowStep(s, 1, n)
            case None => false
            case Some(t1) => Starts(t1, Lengthened(FirstDataBlock(|t1|), n)) && |t1| == |s.table|
  {
    var t, b := s.table, FirstDataBlock(|s.table|);
    OneFileLookup(t);
    forall i: nat | i < |t| ensures !Refers(t[i], b) {
    }
    assert !Busy(t, b) && LowestFree(t, b, BlockLimit(s.size)) == b;
    assert GrownHead(t[1], n, b) == FileEntry(0, "f").(size := n, refs := Zeros(SFS_ENTRYREFS)[0 := b]);
  }

  lemma WritesFirst(s: Fs, data: seq<byte>) returns (s': Fs)
    requires FsOk(s) && Starts(s.table, OneFile()) && 5 <= |s.table| && FirstDataBlock(|s.table|) < s.size < 0x1_0000
    requires 0 < |data| <= BLOCK_SIZE
    ensures Next(s, Op.Write(0, "f", 0, data, false, 0), s') && Sound(s, Op.Write(0, "f", 0, data, false, 0))
    ensures FsOk(s') && Starts(s'.table, Lengthened(FirstDataBlock(|s'.table|), |data|)) && 5 <= |s'.table|
    ensures s'.size == s.size
  {
    var t, n := s.table, |data|;
    OneFileLookup(t);
    LengthenedStep(s, n);
    var t1 := GrowStep(s, 1, n).value;
    assert IsHead(t, 1) && Placed(t, 1, 0, data);
    hide FsOk, GrowStep, Lay, Busy, IsHead;
    assert Reaches(t1[1], s.disk, n) by { assert DiskOk(s.disk) && s.size == |s.disk| by { DiskOf(s); } }
    TimedShort(t1, 1, 0);
    assert Timed(t1, 1, 0) == t1;
    s' := Fs(t1, Lay(t1[1], s.disk, 0, data), s.size);
    WrittenTimed(s, 1, 0, data, 0, t1, s');
    NextOkIff(s, Op.Write(0, "f", 0, data, false, 0), s');
  }

  lemma DiskOf(s: Fs)
    requires FsOk(s)
    ensures DiskOk(s.disk) && |s.disk| == s.size && |s.table| <= MAX_ENTRIES
  {
  }

  lemma ReachesFirst(e: Entry, disk: Disk)
    requires DiskOk(disk) && 0 < |disk| && e.refs == Zeros(SFS_ENTRYREFS)
    ensures Reaches(e, disk, 1)
  {
  }

  /** A write to the file's name below the file itself goes to the boot block. */
  lemma WritesThrough(s: Fs, data: seq<byte>) returns (s': Fs)
    requires FsOk(s) && Starts(s.table, Lengthened(FirstDataBlock(|s.table|), 1)) && 5 <= |s.table| && |data| == 1
    requires 0 < |s.disk| && (|s.disk[0]| > 0 ==> data[0] != s.disk[0][0])
    ensures Next(s, Op.Write(1, "f", 0, data, false, 0), s') && FsOk(s')
    ensures |s'.table| == |s.table| && Reserved(s') != Reserved(s)
  {
    hide FsOk, GrowStep, Lay, Around, NeededBlocks, Timed, FindName;
    var t := s.table;
    FindsAt(t, Lengthened(FirstDataBlock(|t|), 1), 1, "f", 2);
    assert !IsHead(t, 2) && Placed(t, 2, 0, data);
    NoGrowth(s, 2, 1);
    LinkOfFile(s, 2);
    DiskOf(s);
    ReachesFirst(t[2], s.disk);
    TimedShort(t, 2, 0);
    assert Timed(t, 2, 0) == t;
    s' := Fs(t, Lay(t[2], s.disk, 0, data), s.size);
    WrittenTimed(s, 2, 0, data, 0, t, s');
    LinkWritten(s, 2, 0, data, 0, s');
    WrittenOkIff(s, 2, 0, data, 0, s');
  }

  /** On an image with one empty file f, two one-byte writes, to f and to f/f, change the boot
      block. */
  lemma LinkWriteRun(blocks: nat, t: Table, disk: Disk) returns (ss: seq<Fs>, ops: seq<Op>)
    requires Fits([Input("f", [])], blocks) && Mkfs.Made([Input("f", [])], blocks, t, disk) && 50 <= blocks < 0x1_0000
    ensures |ss| == 3 && |ops| == 2 && Run(ss, ops) && ss[0] == Fs(t, disk, blocks)
    ensures ops[0].Write? && ops[0].p == 0 && ops[0].name == "f" && FindName(t, 0, "f") == 1 && Sound(ss[0], ops[0])
    ensures ops[1].Write? && ops[1].p == 1 && ops[1].name == "f" && !Sound(ss[1], ops[1])
    ensures FsOk(ss[0]) && FsOk(ss[1]) && FsOk(ss[2]) && Next(ss[0], ops[0], ss[1]) && Next(ss[1], ops[1], ss[2])
    ensures Reserved(ss[1]) == Reserved(ss[0]) && Reserved(ss[2]) != Reserved(ss[0])
  {
    hide FsOk, Next, Starts, Sound, Reserved, Mkfs.Made, Fits;
    var s0 := Fs(t, disk, blocks);
    OneFileStarts(blocks, t, disk);
    OneFileLookup(t);
    var s1 := WritesFirst(s0, [0]);
    NextOkIff(s0, Op.Write(0, "f", 0, [0], false, 0), s1);
    DiskOf(s1);
    var x := if s1.disk[0][0] == 0 then [1] else [0];
    var s2 := WritesThrough(s1, x);
    NextOkIff(s1, Op.Write(1, "f", 0, x, false, 0), s2);
    ss, ops := [s0, s1, s2], [Op.Write(0, "f", 0, [0], false, 0), Op.Write(1, "f", 0, x, false, 0)];
  }

  // ----- results that are not to be believed

  /** What a drive that does not find an address mark leaves in a register: the status, in the high
      byte. It is the number of bytes of a block. */
  const NO_ADDRESS_MARK: nat := 0x0200

  /** On an image with one empty file f, on a drive that has this code, fs_write_file can return
      the number of bytes of a block that is not in the file. */
  lemma LostWrite(blocks: nat, t: Table, disk: Disk, data: seq<byte>) returns (s': Fs)
    requires Fits([Input("f", [])], blocks) && Mkfs.Made([Input("f", [])], blocks, t, disk) && 50 <= blocks < 0x1_0000
    requires |data| == BLOCK_SIZE
    ensures FileOutcome(Fs(t, disk, blocks), 0, "f", 0, data, false, 0, {NO_ADDRESS_MARK}, s', |data|)
    ensures Lost(Fs(t, disk, blocks), 0, "f", 0, data, s')
  {
    hide FsOk, Next, Starts, Sound, Lost, FileOutcome, Mkfs.Made, Fits;
    var s := Fs(t, disk, blocks);
    OneFileStarts(blocks, t, disk);
    OneFileLookup(t);
    var s0 := WritesFirst(s, data);
    assert IsDir(t, 0) by { RootIs(s); }
    s' := WriteLost(s, 0, "f", 0, data, false, 0, {NO_ADDRESS_MARK}, NO_ADDRESS_MARK, s0);
  }

  lemma RootIs(s: Fs)
    requires FsOk(s)
    ensures IsDir(s.table, 0)
  {
    assert RootOk(s.table[0]);
  }

  /** The root and a file f of one block. */
  function OneBlock(b: nat): seq<Entry> {
    [Dir(0, ".", [1]), FileEntry(0, "f").(size := BLOCK_SIZE, refs := Zeros(SFS_ENTRYREFS)[0 := b])]
  }

  lemma OneBlockStarts(blocks: nat, t: Table, disk: Disk, data: seq<byte>)
    requires |data| == BLOCK_SIZE && 50 <= blocks < 0x1_0000
    requires Fits([Input("f", data)], blocks) && Mkfs.Made([Input("f", data)], blocks, t, disk)
    ensures FsOk(Fs(t, disk, blocks)) && Starts(t, OneBlock(FirstDataBlock(|t|))) && 5 <= |t|
    ensures FirstDataBlock(|t|) + 1 < blocks
  {
    var files := [Input("f", data)];
    Mkfs.MadeOk(files, blocks, t, disk);
    assert FileMade(files, 0, t, disk, FirstDataBlock(|t|));
    assert EntriesFor(BLOCK_SIZE) == 1 && NeededBlocks(BLOCK_SIZE) == 1;
    assert LinkAt(t, 1, FirstDataBlock(|t|), "f", BLOCK_SIZE, 1, 1);
    assert EntryStart(files, 1) == 2;
    assert t[1].refs == Zeros(SFS_ENTRYREFS)[0 := FirstDataBlock(|t|)];
    assert t[0].refs == Dir(0, ".", [1]).refs;
  }

  lemma OneBlockLookup(t: Table)
    requires Starts(t, OneBlock(FirstDataBlock(|t|)))
    ensures FindName(t, 0, "f") == 1 && FindName(t, 0, "g") == |t| && FirstFree(t) == 2
  {
    FindsAt(t, OneBlock(FirstDataBlock(|t|)), 0, "f", 1);
    StartsLookup(t, OneBlock(FirstDataBlock(|t|)), 0, "g");
  }

  /** The empty file g is made. */
  function WithG(b: nat): seq<Entry> {
    [Dir(0, ".", [1, 2]), OneBlock(b)[1], FileEntry(0, "g")]
  }

  lemma MakesG(s: Fs) returns (s1: Fs)
    requires FsOk(s) && Starts(s.table, OneBlock(FirstDataBlock(|s.table|))) && 5 <= |s.table|
    ensures NsfsSteps.Made(s, FileEntry(0, "g"), s1, 2) && FsOk(s1) && IsHead(s1.table, 2)
    ensures Starts(s1.table, WithG(FirstDataBlock(|s1.table|))) && |s1.table| == |s.table|
    ensures s1 == s.(table := s1.table)
  {
    hide FsOk, Tree, Names, Acyclic, IsHead, CreateLeaves;
    var t, e := s.table, FileEntry(0, "g");
    OneBlockLookup(t);
    assert [1] + [2] == [1, 2];
    DirFound(s, 0, 0, ".", [1]);
    s1 := s.(table := Created(t, 2, 0, e));
    CreatedRoom(t, 0, e, 2);
    MadeHead(s, 0, "g", s1, 2);
    DirAdded(0, ".", [1], 2);
    assert s1.table == t[2 := e][0 := Dir(0, ".", [1, 2])];
  }

  /** Its block is the one after that of f. */
  lemma GrowsG(s: Fs)
    requires Starts(s.table, WithG(FirstDataBlock(|s.table|))) && 5 <= |s.table| <= MAX_ENTRIES
    requires FirstDataBlock(|s.table|) + 1 < s.size < 0x1_0000
    ensures s.table[2].next == 0
    ensures match GrowStep(s, 2, BLOCK_SIZE)
            case None => false
            case Some(t1) =>
              && |t1| == |s.table| && t1[2].next == 3 && t1[3].time == 0 && t1[3].next == 0 && t1[2].time == 0
              && t1[2].refs == Zeros(SFS_ENTRYREFS)[0 := FirstDataBlock(|t1|) + 1]
  {
    var t, b := s.table, FirstDataBlock(|s.table|);
    assert FirstFree(t) == 3 by { assert Used(t[0]) && Used(t[1]) && Used(t[2]) && !Used(t[3]); }
    assert Refers(t[1], b) by { assert t[1].refs[0] == b; }
    assert Busy(t, b);
    forall i: nat | i < |t| ensures !Refers(t[i], b + 1) {
    }
    assert !Busy(t, b + 1);
    assert LowestFree(t, b, BlockLimit(s.size)) == LowestFree(t, b + 1, BlockLimit(s.size)) == b + 1;
    assert GrownHead(t[2], BLOCK_SIZE, b + 1).refs == Zeros(SFS_ENTRYREFS)[0 := b + 1];
  }

  lemma WritesG(s: Fs, data: seq<byte>) returns (s': Fs)
    requires FsOk(s) && Starts(s.table, OneBlock(FirstDataBlock(|s.table|))) && 5 <= |s.table|
    requires FirstDataBlock(|s.table|) + 1 < s.size < 0x1_0000 && |data| == BLOCK_SIZE
    ensures Next(s, Op.Write(0, "g", 0, data, true, 0), s')
  {
    hide FsOk, GrowStep, Lay, Busy, IsHead, NsfsSteps.Made, Written, CreateLeaves;
    OneBlockLookup(s.table);
    DiskOf(s);
    var s1 := MakesG(s);
    GrowsG(s1);
    var t1 := GrowStep(s1, 2, BLOCK_SIZE).value;
    assert Placed(s1.table, 2, 0, data);
    assert Reaches(t1[2], s1.disk, BLOCK_SIZE);
    TimedShort(t1, 2, 0);
    assert Timed(t1, 2, 0) == t1;
    s' := Fs(t1, Lay(t1[2], s1.disk, 0, data), s1.size);
    WrittenTimed(s1, 2, 0, data, 0, t1, s');
    assert NsfsSteps.Made(s, FileEntry(0, "g"), s1, 2) && Written(s1, 2, 0, data, 0, s');
  }

  /** On an image with a file f of one block, on such a drive, fs_copy of f to g can return 0 and leave
      something else in g. */
  lemma LostCopy(blocks: nat, t: Table, disk: Disk, data: seq<byte>) returns (s': Fs)
    requires |data| == BLOCK_SIZE && 50 <= blocks < 0x1_0000
    requires Fits([Input("f", data)], blocks) && Mkfs.Made([Input("f", data)], blocks, t, disk)
    ensures CopyOutcome(Fs(t, disk, blocks), 0, "f", 0, "g", 0, {NO_ADDRESS_MARK}, s')
    ensures !Copied(Fs(t, disk, blocks), 0, "f", 0, "g", s')
  {
    hide FsOk, Next, Starts, CopyOutcome, Copied, Copyable, Mkfs.Made, Fits, FileBytes;
    var s := Fs(t, disk, blocks);
    OneBlockStarts(blocks, t, disk, data);
    OneBlockLookup(t);
    assert Copyable(s, 0, "f", 0, "g") && FileBytes(s, 1) != [] && |FileBytes(s, 1)| == BLOCK_SIZE by {
      OneBlockCopyable(s);
    }
    var s0 := WritesG(s, FileBytes(s, 1));
    assert CopyOutcome(s, 0, "f", 0, "g", 0, {}, s0) by { OneTurn(s, s0); }
    s' := CopyLost(s, 0, "f", 0, "g", 0, {NO_ADDRESS_MARK}, NO_ADDRESS_MARK, s0);
  }

  lemma OneBlockCopyable(s: Fs)
    requires FsOk(s) && Starts(s.table, OneBlock(FirstDataBlock(|s.table|))) && 5 <= |s.table|
    ensures FindName(s.table, 0, "f") == 1 && IsFile(s, 1)
    ensures Copyable(s, 0, "f", 0, "g") && |FileBytes(s, 1)| == BLOCK_SIZE
  {
    OneBlockLookup(s.table);
    DirFound(s, 0, 0, ".", [1]);
    assert IsHead(s.table, 1);
  }

  /** A copy of one block is one write. */
  lemma OneTurn(s: Fs, s0: Fs)
    requires FsOk(s) && FindName(s.table, 0, "f") == 1 && IsFile(s, 1) && |FileBytes(s, 1)| == BLOCK_SIZE
    requires FindName(s.table, 0, "g") == |s.table|
    requires Next(s, Op.Write(0, "g", 0, FileBytes(s, 1), true, 0), s0)
    ensures CopyOutcome(s, 0, "f", 0, "g", 0, {}, s0)
  {
    hide FsOk, Next, FileOutcome, FileBytes;
    var b := FileBytes(s, 1);
    assert b[0..0 + BLOCK_SIZE] == b;
    NextOutcome(s, 0, "g", 0, b, true, 0, {}, s0);
    StepIs(s, 0, "g", b, 0, BLOCK_SIZE, 0, {}, s0, BLOCK_SIZE);
    assert CopyUpto(s, 0, "g", b, 0, {}, 0, s);
    CopyMore(s, 0, "g", b, 0, {}, 0, s, BLOCK_SIZE, s0);
  }
}
