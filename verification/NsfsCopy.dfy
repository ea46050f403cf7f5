/** What a write leaves for the next read and write of a copy: names are found where they
    were, and the files not written to hold the same bytes. */
module NsfsCopy {
  import opened NsfsTypes
  import opened NsfsTree
  import opened NsfsFit
  import opened NsfsDir
  import opened NsfsOps
  import opened NsfsBlocks
  import opened NsfsGrow
  import opened NsfsState
  import opened NsfsWrite
  import opened NsfsPlace
  import opened NsfsSteps
  import opened NsfsOutcome

  /** The same entries match the name. */
  ghost predicate SameMatches(t: Table, t': Table, p: nat, name: string) {
    |t| == |t'| && forall i :: 0 <= i < |t| ==> (Matches(t'[i], p, name) <==> Matches(t[i], p, name))
  }

  lemma {:induction false} SameFound(t: Table, t': Table, p: nat, name: string, n: nat)
    requires SameMatches(t, t', p, name) && n <= |t|
    ensures FindName(t', p, name, n) == FindName(t, p, name, n)
    decreases |t| - n
  {
    if n < |t| {
      SameFound(t, t', p, name, n + 1);
    }
  }

  /** Changing a file and its link does not change what is found in a directory. */
  lemma RespareMatches(t: Table, t': Table, h: nat, p: nat, name: string)
    requires TreeOk(t) && Respare(t, t', h) && t[h].file && IsDir(t, p)
    ensures SameMatches(t, t', p, name)
  {
    assert EntryOk(t, h) && p != h;
    forall i | 0 <= i < |t|
      ensures Matches(t'[i], p, name) <==> Matches(t[i], p, name)
    {
      assert EntryOk(t, i);
    }
  }

  lemma GrownMatches(t: Table, n: nat, size: nat, b: nat, p: nat, name: string)
    requires TreeOk(t) && Growable(t, {}, n, size) && FirstDataBlock(|t|) <= b && IsDir(t, p)
    ensures EntryOk(t, n)
    ensures match Grown(t, n, size, b)
            case None => true
            case Some(t1) => SameMatches(t, t1, p, name) && IsDir(t1, p)
  {
    GrownTree(t, {}, n, size, b);
    if Grown(t, n, size, b).Some? {
      var t1 := Grown(t, n, size, b).value;
      assert t[n].file;
      hide Grown, Growable, HeadOk;
      RespareMatches(t, t1, n, p, name);
      RespareHeads(t, t1, n, {});
      assert EntryOk(t, p) && EntryOk(t, n);
    }
  }

  lemma GrowMatches(s: Fs, n: nat, off: nat, data: seq<byte>, p: nat, name: string)
    requires FsOk(s) && Writable(s, n, off, data) && IsDir(s.table, p)
    ensures match GrowStep(s, n, off + |data|)
            case None => true
            case Some(t1) => SameMatches(s.table, t1, p, name) && IsDir(t1, p)
  {
    hide Grown, Growable, Busy, NeededBlocks, LowestFree, IsHead, IsDir, Owned, Tree, Names, Acyclic;
    var t := s.table;
    if t[n].size < off + |data| {
      GrowBounds(s, n, off, data);
      GrownMatches(t, n, off + |data|, LowestFree(t, FirstDataBlock(|t|), BlockLimit(s.size)), p, name);
    }
  }

  lemma TimedMatches(s: Fs, n: nat, time: nat, p: nat, name: string)
    requires FsOk(s) && IsHead(s.table, n) && s.table[n].file && IsDir(s.table, p)
    ensures EntryOk(s.table, n)
    ensures SameMatches(s.table, Timed(s.table, n, time), p, name) && IsDir(Timed(s.table, n, time), p)
  {
    var t := s.table;
    TimedOk(s, n, time);
    TimedRespares(t, n, time, {});
    RespareMatches(t, Timed(t, n, time), n, p, name);
    assert EntryOk(t, n) && n != p;
  }

  lemma StoredMatches(s: Fs, n: nat, off: nat, data: seq<byte>, s': Fs, p: nat, name: string)
    requires Stored(s, n, off, data, s') && IsDir(s.table, p)
    ensures SameMatches(s.table, s'.table, p, name) && IsDir(s'.table, p)
  {
    var t1 := GrowStep(s, n, off + |data|).value;
    GrowMatches(s, n, off, data, p, name);
    GrowStepOk(s, n, off, data);
    assert FsOk(s.(table := t1)) && IsHead(t1, n) && t1[n].file;
    if s'.table != t1 {
      var time: nat :| s'.table == Timed(t1, n, time);
      hide FsOk, GrowStep, IsHead, RoomMade;
      TimedMatches(s.(table := t1), n, time, p, name);
    }
  }

  /** A new head matches its own name only. */
  lemma MadeMatches(s: Fs, e: Entry, s1: Fs, m: nat, p: nat, name: string)
    requires FsOk(s) && Made(s, e, s1, m) && HasRoom(s.table, e.parent)
    requires e == FileEntry(e.parent, e.name) && IsDir(s.table, p)
    ensures m < |s.table| && !Used(s.table[m]) && IsDir(s1.table, p)
    ensures (e.parent, e.name) != (p, name) ==> SameMatches(s.table, s1.table, p, name)
    ensures FindName(s1.table, e.parent, e.name) == m
  {
    hide Tree, Names, Acyclic, Owned, IsHead, Created, NewHead, CreateLeaves, EntryOk;
    var t, t1 := s.table, s1.table;
    CreatedFacts(s, e, s1, m);
    LookupFree(t, e.parent, e.name);
    CreatedHeads(t, m, e);
    CreatedSame(t, m, e);
    MatchOnly(t1, e.parent, e.name, m, 0);
  }

  lemma CreatedFacts(s: Fs, e: Entry, s1: Fs, m: nat)
    requires FsOk(s) && Made(s, e, s1, m) && HasRoom(s.table, e.parent)
    requires e == DirEntry(e.parent, e.name, e.time) || e == FileEntry(e.parent, e.name)
    ensures m < |s.table| && !Used(s.table[m]) && m != e.parent && EntryOk(s.table, e.parent)
    ensures NewHead(s.table, e.parent, e) && s1.table == Created(s.table, m, e.parent, e) && s1.table[m] == e
  {
    CreatedRoom(s.table, e.parent, e, m);
    MadeOk(s, e, s1, m);
  }

  lemma CreatedSame(t: Table, f: nat, e: Entry)
    requires TreeOk(t) && f < |t| && !Used(t[f]) && NewHead(t, e.parent, e) && HasRoom(t, e.parent)
    ensures EntryOk(t, e.parent)
    ensures var t1 := Created(t, f, e.parent, e);
            forall i :: 0 <= i < |t| && i != f ==>
              t1[i].name == t[i].name && t1[i].parent == t[i].parent && (Used(t1[i]) <==> Used(t[i]))
  {
    assert EntryOk(t, e.parent);
  }

  lemma CreatedHeads(t: Table, f: nat, e: Entry)
    requires TreeOk(t) && f < |t| && !Used(t[f]) && NewHead(t, e.parent, e) && HasRoom(t, e.parent)
    ensures f != e.parent && EntryOk(t, e.parent)
    ensures forall i: nat :: IsHead(Created(t, f, e.parent, e), i) <==> i == f || IsHead(t, i)
    ensures forall i: nat :: IsDir(t, i) ==> IsDir(Created(t, f, e.parent, e), i)
  {
    assert EntryOk(t, e.parent);
    var t1, t' := t[f := e], Created(t, f, e.parent, e);
    NewHeadTree(t, {}, f, e.parent, e);
    assert {} + {f} == {f};
    forall i: nat ensures IsHead(t1, i) <==> i == f || IsHead(t, i) {
      NewHeadHeads(t, {}, f, e.parent, e, i);
    }
    AttachTree(t1, e.parent, f, {f});
    RespareHeads(t1, t', e.parent, {f});
  }

  lemma {:induction false} MatchOnly(t: Table, p: nat, name: string, m: nat, n: nat)
    requires n <= m < |t| && Matches(t[m], p, name)
    requires forall i :: 0 <= i < |t| && i != m ==> !Matches(t[i], p, name)
    ensures FindName(t, p, name, n) == m
    decreases m - n
  {
    if n < m {
      MatchOnly(t, p, name, m, n + 1);
    }
  }

  // ----- files by name

  /** The name is found in directory p, and is the file with head y. */
  ghost predicate HasFile(s: Fs, p: nat, name: string, y: nat) {
    && FsOk(s) && IsDir(s.table, p) && y == FindName(s.table, p, name)
    && IsHead(s.table, y) && s.table[y].file
  }

  ghost predicate IsFile(s: Fs, i: nat) {
    FsOk(s) && IsHead(s.table, i) && s.table[i].file
  }

  ghost function FileBytes(s: Fs, i: nat): (b: seq<byte>)
    requires IsFile(s, i)
    ensures |b| == s.table[i].size
  {
    FileOwnsBlocks(s, i);
    Bytes(s.table[i], s.disk)
  }

  /** File i is still there and holds the same bytes. */
  ghost predicate KeptFile(s: Fs, s': Fs, i: nat)
    requires IsFile(s, i)
  {
    IsFile(s', i) && FileBytes(s', i) == FileBytes(s, i)
  }

  ghost predicate OtherFilesKept(s: Fs, s': Fs, y: nat) {
    forall i: nat :: i != y && IsFile(s, i) ==> KeptFile(s, s', i)
  }

  lemma StoredFiles(s: Fs, n: nat, off: nat, data: seq<byte>, s': Fs)
    requires Stored(s, n, off, data, s')
    ensures IsFile(s', n) && off + |data| <= s'.table[n].size && OtherFilesKept(s, s', n)
  {
    StoredKeeps(s, n, off, data, s');
    forall i: nat | i != n && IsFile(s, i) ensures KeptFile(s, s', i) {
      assert s'.table[i] == s.table[i];
    }
  }

  lemma MadeFiles(s: Fs, e: Entry, s1: Fs, m: nat)
    requires FsOk(s) && Made(s, e, s1, m) && HasRoom(s.table, e.parent) && e == FileEntry(e.parent, e.name)
    ensures IsFile(s1, m) && FileBytes(s1, m) == [] && !IsFile(s, m)
    ensures OtherFilesKept(s, s1, m)
  {
    MadeOk(s, e, s1, m);
    forall i: nat | i != m && IsFile(s, i) ensures KeptFile(s, s1, i) {
      FileOwnsBlocks(s, i);
      FileOwnsBlocks(s1, i);
      RoomPrefix(s.table[i], s1.table[i], s.disk);
    }
  }

  lemma KeptTrans(s: Fs, s1: Fs, s2: Fs, y: nat)
    requires OtherFilesKept(s, s1, y) && OtherFilesKept(s1, s2, y)
    ensures OtherFilesKept(s, s2, y)
  {
    forall i: nat | i != y && IsFile(s, i) ensures KeptFile(s, s2, i) {
      assert KeptFile(s, s1, i) && KeptFile(s1, s2, i);
    }
  }

  /** After a write to a name, complete or not, the name is a file as long as the write
      reached, the other files are as they were, and other names are found as before. */
  lemma WroteSomeFacts(s: Fs, p: nat, name: string, off: nat, data: seq<byte>, s': Fs)
    requires FsOk(s) && IsDir(s.table, p) && WroteSome(s, p, name, off, data, s')
    requires FindName(s.table, p, name) == |s.table| ==> HasRoom(s.table, p)
    ensures var y := FindName(s'.table, p, name);
            && HasFile(s', p, name, y) && off + |data| <= s'.table[y].size && OtherFilesKept(s, s', y)
            && (FindName(s.table, p, name) < |s.table| ==> y == FindName(s.table, p, name))
            && (FindName(s.table, p, name) == |s.table| ==> !IsFile(s, y))
  {
    var n := FindName(s.table, p, name);
    if n < |s.table| {
      StoredFiles(s, n, off, data, s');
      StoredMatches(s, n, off, data, s', p, name);
      SameFound(s.table, s'.table, p, name, 0);
    } else {
      var s1, m: nat :| Made(s, FileEntry(p, name), s1, m) && Stored(s1, m, off, data, s');
      MadeFiles(s, FileEntry(p, name), s1, m);
      MadeMatches(s, FileEntry(p, name), s1, m, p, name);
      StoredFiles(s1, m, off, data, s');
      StoredMatches(s1, m, off, data, s', p, name);
      SameFound(s1.table, s'.table, p, name, 0);
      KeptTrans(s, s1, s', m);
    }
  }

  lemma WroteSomeNames(s: Fs, p: nat, name: string, off: nat, data: seq<byte>, s': Fs, sp: nat, sname: string)
    requires FsOk(s) && IsDir(s.table, p) && WroteSome(s, p, name, off, data, s')
    requires FindName(s.table, p, name) == |s.table| ==> HasRoom(s.table, p)
    requires IsDir(s.table, sp) && (sp, sname) != (p, name)
    ensures FindName(s'.table, sp, sname) == FindName(s.table, sp, sname) && IsDir(s'.table, sp)
  {
    var n := FindName(s.table, p, name);
    if n < |s.table| {
      StoredMatches(s, n, off, data, s', sp, sname);
      SameFound(s.table, s'.table, sp, sname, 0);
    } else {
      var s1, m: nat :| Made(s, FileEntry(p, name), s1, m) && Stored(s1, m, off, data, s');
      MadeMatches(s, FileEntry(p, name), s1, m, sp, sname);
      StoredMatches(s1, m, off, data, s', sp, sname);
      SameFound(s.table, s1.table, sp, sname, 0);
      SameFound(s1.table, s'.table, sp, sname, 0);
    }
  }

  /** What is found in a directory is no file's link. */
  lemma FoundHead(s: Fs, p: nat, n: nat)
    requires FsOk(s) && IsDir(s.table, p) && n < |s.table| && s.table[n].parent == p && s.table[n].file
    ensures IsHead(s.table, n)
  {
    assert EntryOk(s.table, p);
    if !IsHead(s.table, n) {
      LinkOfFile(s, n);
    }
  }

  /** The name leads to a file that holds what it held, with the data spliced in, or just the data. */
  ghost predicate WroteAll(s: Fs, p: nat, name: string, off: nat, data: seq<byte>, s': Fs) {
    var n, y := FindName(s.table, p, name), FindName(s'.table, p, name);
    && HasFile(s', p, name, y)
    && if n < |s.table| then IsFile(s, n) && off <= s.table[n].size
                             && FileBytes(s', y) == Splice(FileBytes(s, n), off, data)
       else off == 0 && FileBytes(s', y) == data
  }

  /** A complete write splices the data into what the name held, or into nothing. */
  lemma WriteSplices(s: Fs, p: nat, name: string, off: nat, data: seq<byte>, create: bool, time: nat, s': Fs)
    requires FsOk(s) && IsDir(s.table, p) && Next(s, Op.Write(p, name, off, data, create, time), s')
    requires FindName(s.table, p, name) == |s.table| ==> HasRoom(s.table, p)
    ensures WroteAll(s, p, name, off, data, s')
  {
    hide FsOk, Made, Written, HasRoom, IsDir, WroteAll;
    var n := FindName(s.table, p, name);
    if n < |s.table| {
      FoundSplices(s, p, name, off, data, time, s');
    } else {
      var s1, m: nat :| Made(s, FileEntry(p, name), s1, m) && Written(s1, m, off, data, time, s');
      MadeSplices(s, p, name, s1, m, off, data, time, s');
    }
  }

  lemma FoundSplices(s: Fs, p: nat, name: string, off: nat, data: seq<byte>, time: nat, s': Fs)
    requires FsOk(s) && IsDir(s.table, p) && FindName(s.table, p, name) < |s.table|
    requires Written(s, FindName(s.table, p, name), off, data, time, s')
    ensures WroteAll(s, p, name, off, data, s')
  {
    hide FsOk, Tree, Names, Written, Stored, IsSpare, OthersKept, Bytes, Splice, GrowStep;
    var n := FindName(s.table, p, name);
    assert s.table[n].file && off <= s.table[n].size by { WrittenParts(s, n, off, data, time, s'); }
    FoundHead(s, p, n);
    WrittenWrote(s, n, off, data, time, s');
    WroteSomeFacts(s, p, name, off, data, s');
    WriteRefines(s, n, off, data, time, s');
  }

  lemma MadeSplices(s: Fs, p: nat, name: string, s1: Fs, m: nat, off: nat, data: seq<byte>, time: nat, s': Fs)
    requires FsOk(s) && IsDir(s.table, p) && FindName(s.table, p, name) == |s.table| && HasRoom(s.table, p)
    requires Made(s, FileEntry(p, name), s1, m) && Written(s1, m, off, data, time, s')
    ensures WroteAll(s, p, name, off, data, s')
  {
    hide FsOk, Written, Stored, HasRoom, Made, IsDir, Splice, GrowStep, IsSpare, OthersKept, Bytes;
    MadeFiles(s, FileEntry(p, name), s1, m);
    assert off <= s1.table[m].size by { WrittenParts(s1, m, off, data, time, s'); }
    WrittenWrote(s1, m, off, data, time, s');
    assert WroteSome(s, p, name, off, data, s');
    WroteSomeFacts(s, p, name, off, data, s');
    StoredTarget(s, p, name, s1, m, off, data, s');
    WriteRefines(s1, m, off, data, time, s');
    SpliceNone(data);
  }

  lemma SpliceNone(data: seq<byte>)
    ensures Splice([], 0, data) == data
  {
  }

  /** The name leads to the file that was made. */
  lemma StoredTarget(s: Fs, p: nat, name: string, s1: Fs, m: nat, off: nat, data: seq<byte>, s': Fs)
    requires FsOk(s) && IsDir(s.table, p) && HasRoom(s.table, p)
    requires Made(s, FileEntry(p, name), s1, m) && Stored(s1, m, off, data, s')
    ensures FindName(s'.table, p, name) == m
  {
    hide FsOk, Stored, HasRoom, Made, IsDir, SameMatches;
    MadeMatches(s, FileEntry(p, name), s1, m, p, name);
    StoredMatches(s1, m, off, data, s', p, name);
    SameFound(s1.table, s'.table, p, name, 0);
  }

  // ----- copying

  /** The target name has come to hold the bytes of the source, which with all other files is
      as it was; an empty source is not copied at all. */
  ghost predicate Copied(s: Fs, sp: nat, sname: string, p: nat, name: string, s': Fs) {
    var x := FindName(s.table, sp, sname);
    && IsFile(s, x) && FsOk(s') && FindName(s.table, p, name) == |s.table|
    && if s.table[x].size == 0 then s' == s else
       var y := FindName(s'.table, p, name);
       && HasFile(s', p, name, y) && !IsFile(s, y) && FileBytes(s', y) == FileBytes(s, x)
       && OtherFilesKept(s, s', y)
  }

  /** The state of a copy after offset bytes: if all writes were complete, they are the content
      of the target. */
  ghost predicate Copying(s: Fs, sp: nat, sname: string, p: nat, name: string, offset: nat, clean: bool, s': Fs) {
    var x := FindName(s.table, sp, sname);
    && IsFile(s, x) && FsOk(s') && IsDir(s'.table, p) && IsDir(s'.table, sp) && FindName(s.table, p, name) == |s.table|
    && FindName(s'.table, sp, sname) == x && offset <= s.table[x].size
    && if offset == 0 then s' == s else
       var y := FindName(s'.table, p, name);
       && HasFile(s', p, name, y) && !IsFile(s, y) && offset <= s'.table[y].size
       && (clean ==> FileBytes(s', y) == FileBytes(s, x)[..offset])
       && OtherFilesKept(s, s', y)
  }

  /** The source can be read, and holds what it held. */
  lemma CopySource(s: Fs, sp: nat, sname: string, p: nat, name: string, offset: nat, clean: bool, s': Fs)
    requires Copying(s, sp, sname, p, name, offset, clean, s')
    ensures var x := FindName(s.table, sp, sname);
            && IsFile(s', x) && x < |s'.table| <= MAX_ENTRIES && FindName(s'.table, sp, sname) == x
            && s'.table[x].next < |s'.table|
            && Readable(s'.table, ChainOf(s'.table, x), s'.disk) && ChainOf(s'.table, x)[0] == x
            && IsFile(s, x) && Content(s'.table, ChainOf(s'.table, x), s'.disk) == FileBytes(s, x)
            && s'.table[x].file && offset <= s.table[x].size <= SFS_ENTRYREFS * BLOCK_SIZE
            && |FileBytes(s, x)| == s.table[x].size
  {
    var x := FindName(s.table, sp, sname);
    if offset > 0 {
      var y := FindName(s'.table, p, name);
      assert KeptFile(s, s', x);
    }
    assert EntryOk(s'.table, x) && EntryOk(s.table, x);
    FileOwnsBlocks(s', x);
    BytesAreContent(s'.table, {}, x, s'.disk);
    HeadIsReadable(s'.table, {}, x, s'.disk);
  }

  /** The target can be written at the offset reached. */
  lemma CopyTarget(s: Fs, sp: nat, sname: string, p: nat, name: string, offset: nat, clean: bool, s': Fs)
    requires Copying(s, sp, sname, p, name, offset, clean, s') && HasRoom(s.table, p)
    ensures FsOk(s') && IsDir(s'.table, p) && p < |s'.table| && Used(s'.table[p]) && Aimed(s', p, name)
    ensures offset == 0 ==> HasRoom(s'.table, p)
    ensures var y := FindName(s'.table, p, name);
            if offset == 0 then y == |s'.table| else y < |s'.table| && offset <= s'.table[y].size
  {
  }

  lemma CopyEnds(s: Fs, sp: nat, sname: string, p: nat, name: string, offset: nat, clean: bool, s': Fs)
    requires Copying(s, sp, sname, p, name, offset, clean, s')
    requires offset == s.table[FindName(s.table, sp, sname)].size
    ensures clean ==> Copied(s, sp, sname, p, name, s')
  {
    var x := FindName(s.table, sp, sname);
    assert FileBytes(s, x)[..offset] == FileBytes(s, x);
  }

  /** A turn of the copying loop, with b the bytes of the source: the next of them, up to a block,
      were written, with a result that is no error. There are none left at the end only. */
  ghost predicate CopyStep(s1: Fs, p: nat, name: string, b: seq<byte>, offset: nat, copied: nat, time: nat,
                           codes: set<nat>, s2: Fs) {
    && offset + copied <= |b| && copied == Min(BLOCK_SIZE, |b| - offset)
    && if copied == 0 then s2 == s1 else WroteOn(s1, p, name, offset, b[offset..offset + copied], time, codes, s2)
  }

  ghost predicate WroteOn(s1: Fs, p: nat, name: string, offset: nat, data: seq<byte>, time: nat, codes: set<nat>,
                          s2: Fs) {
    exists r: nat :: r < ERROR_ANY && FileOutcome(s1, p, name, offset, data, true, time, codes, s2, r)
  }

  /** It takes the copy on; if no result below the error codes is a code of the device, the bytes
      are those of the source. */
  lemma CopyStepped(s: Fs, sp: nat, sname: string, p: nat, name: string, offset: nat, s1: Fs, copied: nat, time: nat,
                    codes: set<nat>, s2: Fs)
    requires HasRoom(s.table, p) && Copying(s, sp, sname, p, name, offset, Trusted(codes), s1)
    requires CopyStep(s1, p, name, FileBytes(s, FindName(s.table, sp, sname)), offset, copied, time, codes, s2)
    ensures Copying(s, sp, sname, p, name, offset + copied, Trusted(codes), s2)
  {
    hide Copying, HasRoom, FileOutcome, FsOk, IsDir, WroteSome, Next, FileBytes, HasFile, IsFile, FindName, Trusted;
    if copied > 0 {
      CopyOpen(s, sp, sname, p, name, offset, Trusted(codes), s1);
      var data := FileBytes(s, FindName(s.table, sp, sname))[offset..offset + copied];
      var r: nat :| r < ERROR_ANY && FileOutcome(s1, p, name, offset, data, true, time, codes, s2, r);
      CopyTarget(s, sp, sname, p, name, offset, Trusted(codes), s1);
      OutcomeSome(s1, p, name, offset, data, true, time, codes, s2, r);
      if Trusted(codes) {
        assert !Fails(codes, r) by { NoCode(codes, r); }
        OutcomeNext(s1, p, name, offset, data, true, time, codes, s2, r);
      }
      TurnCopying(s, sp, sname, p, name, offset, Trusted(codes), s1, data, time, s2);
    }
  }

  lemma CopyOpen(s: Fs, sp: nat, sname: string, p: nat, name: string, offset: nat, clean: bool, s': Fs)
    requires Copying(s, sp, sname, p, name, offset, clean, s')
    ensures IsFile(s, FindName(s.table, sp, sname))
  {
  }

  lemma NoCode(codes: set<nat>, r: nat)
    requires Trusted(codes) && r < ERROR_ANY
    ensures !Fails(codes, r)
  {
  }

  lemma TurnCopying(s: Fs, sp: nat, sname: string, p: nat, name: string, offset: nat, clean: bool, s1: Fs,
                 data: seq<byte>, time: nat, s2: Fs)
    requires Copying(s, sp, sname, p, name, offset, clean, s1) && data != []
    requires var b := FileBytes(s, FindName(s.table, sp, sname));
             offset + |data| <= |b| && data == b[offset..offset + |data|]
    requires WroteSome(s1, p, name, offset, data, s2) && (offset == 0 ==> HasRoom(s1.table, p))
    requires clean ==> Next(s1, Op.Write(p, name, offset, data, true, time), s2)
    ensures Copying(s, sp, sname, p, name, offset + |data|, clean, s2)
  {
    var x, y := FindName(s.table, sp, sname), FindName(s2.table, p, name);
    var b := FileBytes(s, x);
    WroteSomeFacts(s1, p, name, offset, data, s2);
    TurnNames(s, sp, sname, p, name, offset, clean, s1);
    if clean {
      TurnBytes(s, sp, sname, p, name, offset, s1, data, time, s2);
    }
    WroteSomeNames(s1, p, name, offset, data, s2, sp, sname);
    hide WroteSome, Next, FsOk, FileBytes, IsDir, IsHead;
    if offset > 0 {
      KeptTrans(s, s1, s2, y);
    }
  }

  lemma TurnNames(s: Fs, sp: nat, sname: string, p: nat, name: string, offset: nat, clean: bool, s1: Fs)
    requires Copying(s, sp, sname, p, name, offset, clean, s1)
    ensures (sp, sname) != (p, name)
  {
  }

  /** Writing at the end of the target extends the copied prefix. */
  lemma TurnBytes(s: Fs, sp: nat, sname: string, p: nat, name: string, offset: nat, s1: Fs,
                  data: seq<byte>, time: nat, s2: Fs)
    requires Copying(s, sp, sname, p, name, offset, true, s1) && data != []
    requires var b := FileBytes(s, FindName(s.table, sp, sname));
             offset + |data| <= |b| && data == b[offset..offset + |data|]
    requires offset == 0 ==> HasRoom(s1.table, p)
    requires Next(s1, Op.Write(p, name, offset, data, true, time), s2)
    ensures var y := FindName(s2.table, p, name);
            HasFile(s2, p, name, y) && FileBytes(s2, y) == FileBytes(s, FindName(s.table, sp, sname))[..offset + |data|]
  {
    hide Copying, Next, FsOk, FileBytes, IsDir, IsHead, IsFile, HasFile, FindName;
    TurnTarget(s, sp, sname, p, name, offset, s1);
    var b := FileBytes(s, FindName(s.table, sp, sname));
    WriteSplices(s1, p, name, offset, data, true, time, s2);
    SpliceAtEnd(b[..offset], data);
    assert b[..offset + |data|] == b[..offset] + data;
  }

  lemma TurnTarget(s: Fs, sp: nat, sname: string, p: nat, name: string, offset: nat, s1: Fs)
    requires Copying(s, sp, sname, p, name, offset, true, s1)
    ensures IsFile(s, FindName(s.table, sp, sname)) && FsOk(s1) && IsDir(s1.table, p)
    ensures var b, n := FileBytes(s, FindName(s.table, sp, sname)), FindName(s1.table, p, name);
            && offset <= |b|
            && if offset == 0 then n == |s1.table|
               else n < |s1.table| && IsFile(s1, n) && FileBytes(s1, n) == b[..offset]
  {
  }

  lemma SpliceAtEnd(b: seq<byte>, data: seq<byte>)
    ensures Splice(b, |b|, data) == b + data
  {
  }
}
