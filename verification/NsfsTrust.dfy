/** When a result of a write or a copy that is no error is to be believed. */
module NsfsTrust {
  import opened NsfsTypes
  import opened NsfsTree
  import opened NsfsBlocks
  import opened NsfsState
  import opened NsfsSteps
  import opened NsfsOutcome
  import opened NsfsCopy

  /** The write can be completed, in a directory that has room if the file is new. */
  ghost predicate Completes(s: Fs, p: nat, name: string, off: nat, data: seq<byte>, create: bool, time: nat, s0: Fs) {
    && FsOk(s) && IsDir(s.table, p) && (FindName(s.table, p, name) == |s.table| ==> HasRoom(s.table, p))
    && Next(s, Op.Write(p, name, off, data, create, time), s0)
  }

  /** The number of bytes, returned by fs_write_file, says that the data is in the file if and only if
      the device does not fail with that number as its code. */
  lemma WriteTrustedIff(s: Fs, p: nat, name: string, off: nat, data: seq<byte>, create: bool, time: nat,
                        codes: set<nat>, s0: Fs)
    requires Completes(s, p, name, off, data, create, time, s0)
    ensures (forall s' :: FileOutcome(s, p, name, off, data, create, time, codes, s', |data|)
                          ==> WroteAll(s, p, name, off, data, s'))
            <==> !Fails(codes, |data|)
  {
    hide FsOk, FileOutcome, WroteAll, IsDir, HasRoom, Next;
    WriteSmall(s, p, name, off, data, create, time, s0);
    if Fails(codes, |data|) {
      var s' := WriteLost(s, p, name, off, data, create, time, codes, |data|, s0);
      NotAll(s, p, name, off, data, s');
    } else {
      forall s' | FileOutcome(s, p, name, off, data, create, time, codes, s', |data|)
        ensures WroteAll(s, p, name, off, data, s')
      {
        OutcomeNext(s, p, name, off, data, create, time, codes, s', |data|);
        WriteSplices(s, p, name, off, data, create, time, s');
      }
    }
  }

  lemma WriteSmall(s: Fs, p: nat, name: string, off: nat, data: seq<byte>, create: bool, time: nat, s0: Fs)
    requires Next(s, Op.Write(p, name, off, data, create, time), s0)
    ensures |data| <= BLOCK_SIZE < ERROR_ANY
  {
    hide Made;
  }

  /** The name leads to a file whose byte at the offset is not the one that was to be written. */
  ghost predicate Lost(s: Fs, p: nat, name: string, off: nat, data: seq<byte>, s': Fs) {
    var y := FindName(s'.table, p, name);
    && HasFile(s', p, name, y) && IsFile(s', y) && data != [] && off < |FileBytes(s', y)|
    && FileBytes(s', y)[off] != data[0]
  }

  lemma NotAll(s: Fs, p: nat, name: string, off: nat, data: seq<byte>, s': Fs)
    requires Lost(s, p, name, off, data, s')
    ensures !WroteAll(s, p, name, off, data, s')
  {
    var n := FindName(s.table, p, name);
    if n < |s.table| && IsFile(s, n) && off <= s.table[n].size {
      assert Splice(FileBytes(s, n), off, data)[off] == data[0];
    }
  }

  /** A write that can be completed can fail at once instead, and return the code. */
  lemma WriteLost(s: Fs, p: nat, name: string, off: nat, data: seq<byte>, create: bool, time: nat,
                  codes: set<nat>, c: nat, s0: Fs)
    returns (s': Fs)
    requires Completes(s, p, name, off, data, create, time, s0) && data != [] && Fails(codes, c)
    ensures FileOutcome(s, p, name, off, data, create, time, codes, s', c) && Lost(s, p, name, off, data, s')
  {
    hide FsOk, Made, Written, HasRoom, IsDir, Lost, Failed;
    var n := FindName(s.table, p, name);
    if n < |s.table| {
      s' := FoundLost(s, p, name, off, data, time, s0);
      assert WriteOutcome(s, n, off, data, time, codes, s', c);
    } else {
      var s1, m: nat :| Made(s, FileEntry(p, name), s1, m) && Written(s1, m, off, data, time, s0);
      s' := MadeLost(s, p, name, s1, m, off, data, time, s0);
      assert WriteOutcome(s1, m, off, data, time, codes, s', c);
    }
  }

  lemma FoundLost(s: Fs, p: nat, name: string, off: nat, data: seq<byte>, time: nat, s0: Fs) returns (s': Fs)
    requires FsOk(s) && IsDir(s.table, p) && FindName(s.table, p, name) < |s.table| && data != []
    requires Written(s, FindName(s.table, p, name), off, data, time, s0)
    ensures Failed(s, FindName(s.table, p, name), off, data, s') && Lost(s, p, name, off, data, s')
  {
    hide FsOk, Written, Stored, IsSpare, GrowStep, Failed, Bytes, WroteSome;
    var n := FindName(s.table, p, name);
    WrittenParts(s, n, off, data, time, s0);
    FoundHead(s, p, n);
    s' := FailsAtOnce(s, n, off, data);
    assert WroteSome(s, p, name, off, data, s') by { FoundSome(s, p, name, off, data, s'); }
    WroteSomeFacts(s, p, name, off, data, s');
    LostAt(s', n, off, data[0]);
  }

  lemma FoundSome(s: Fs, p: nat, name: string, off: nat, data: seq<byte>, s': Fs)
    requires FindName(s.table, p, name) < |s.table| && Stored(s, FindName(s.table, p, name), off, data, s')
    ensures WroteSome(s, p, name, off, data, s')
  {
  }

  lemma LostAt(s: Fs, n: nat, off: nat, x: byte)
    requires FsOk(s) && IsHead(s.table, n) && s.table[n].file && HeadReadable(s.table[n], s.disk)
    requires off < s.table[n].size && Bytes(s.table[n], s.disk)[off] != x
    ensures IsFile(s, n) && off < |FileBytes(s, n)| && FileBytes(s, n)[off] != x
  {
  }

  lemma MadeLost(s: Fs, p: nat, name: string, s1: Fs, m: nat, off: nat, data: seq<byte>, time: nat, s0: Fs)
    returns (s': Fs)
    requires FsOk(s) && IsDir(s.table, p) && FindName(s.table, p, name) == |s.table| && HasRoom(s.table, p)
    requires Made(s, FileEntry(p, name), s1, m) && Written(s1, m, off, data, time, s0) && data != []
    ensures Failed(s1, m, off, data, s') && Lost(s, p, name, off, data, s')
  {
    hide FsOk, Made, Written, Stored, HasRoom, IsDir, IsSpare, GrowStep, Failed, Bytes, WroteSome;
    WrittenParts(s1, m, off, data, time, s0);
    MadeHead(s, p, name, s1, m);
    s' := FailsAtOnce(s1, m, off, data);
    assert WroteSome(s, p, name, off, data, s') by { MadeSome(s, p, name, s1, m, off, data, s'); }
    WroteSomeFacts(s, p, name, off, data, s');
    StoredTarget(s, p, name, s1, m, off, data, s');
    LostAt(s', m, off, data[0]);
  }

  lemma MadeSome(s: Fs, p: nat, name: string, s1: Fs, m: nat, off: nat, data: seq<byte>, s': Fs)
    requires FindName(s.table, p, name) == |s.table| && Made(s, FileEntry(p, name), s1, m)
    requires Stored(s1, m, off, data, s')
    ensures WroteSome(s, p, name, off, data, s')
  {
  }

  // ----- copying

  /** The turns of the copying loop up to offset bytes. */
  ghost predicate CopyUpto(s: Fs, p: nat, name: string, b: seq<byte>, time: nat, codes: set<nat>, offset: nat, s': Fs)
    decreases offset
  {
    if offset == 0 then s' == s else
    exists s1, prev: nat :: prev < offset && CopyUpto(s, p, name, b, time, codes, prev, s1)
                            && CopyStep(s1, p, name, b, prev, offset - prev, time, codes, s')
  }

  /** What fs_copy can leave when it returns 0. */
  ghost predicate CopyOutcome(s: Fs, sp: nat, sname: string, p: nat, name: string, time: nat, codes: set<nat>, s': Fs) {
    var x := FindName(s.table, sp, sname);
    && IsFile(s, x) && FindName(s.table, p, name) == |s.table|
    && CopyUpto(s, p, name, FileBytes(s, x), time, codes, |FileBytes(s, x)|, s')
  }

  lemma CopyMore(s: Fs, p: nat, name: string, b: seq<byte>, time: nat, codes: set<nat>, offset: nat, s1: Fs,
                 copied: nat, s2: Fs)
    requires CopyUpto(s, p, name, b, time, codes, offset, s1)
    requires CopyStep(s1, p, name, b, offset, copied, time, codes, s2)
    ensures CopyUpto(s, p, name, b, time, codes, offset + copied, s2)
  {
    hide CopyStep;
    if copied > 0 {
      assert CopyStep(s1, p, name, b, offset, (offset + copied) - offset, time, codes, s2);
    } else {
      assert s2 == s1 by { StepNone(s1, p, name, b, offset, time, codes, s2); }
    }
  }

  lemma CopyLast(s: Fs, p: nat, name: string, b: seq<byte>, time: nat, codes: set<nat>, offset: nat, s': Fs)
    returns (s1: Fs, prev: nat)
    requires CopyUpto(s, p, name, b, time, codes, offset, s') && offset > 0
    ensures prev < offset && CopyUpto(s, p, name, b, time, codes, prev, s1)
    ensures CopyStep(s1, p, name, b, prev, offset - prev, time, codes, s')
  {
    hide CopyStep;
    var s2, q: nat :| q < offset && CopyUpto(s, p, name, b, time, codes, q, s2)
                      && CopyStep(s2, p, name, b, q, offset - q, time, codes, s');
    s1, prev := s2, q;
  }

  lemma StepNone(s1: Fs, p: nat, name: string, b: seq<byte>, offset: nat, time: nat, codes: set<nat>, s2: Fs)
    requires CopyStep(s1, p, name, b, offset, 0, time, codes, s2)
    ensures s2 == s1 && offset == |b|
  {
  }

  /** The file at the source name is to be copied to a free name in a directory with room. */
  ghost predicate Copyable(s: Fs, sp: nat, sname: string, p: nat, name: string) {
    && FsOk(s) && HasRoom(s.table, p) && IsDir(s.table, sp) && FindName(s.table, p, name) == |s.table|
    && HasFile(s, sp, sname, FindName(s.table, sp, sname)) && IsFile(s, FindName(s.table, sp, sname))
  }

  lemma {:induction false} CopyGoes(s: Fs, sp: nat, sname: string, p: nat, name: string, time: nat, codes: set<nat>,
                                    offset: nat, s': Fs)
    requires Copyable(s, sp, sname, p, name)
    requires CopyUpto(s, p, name, FileBytes(s, FindName(s.table, sp, sname)), time, codes, offset, s')
    ensures Copying(s, sp, sname, p, name, offset, Trusted(codes), s')
    decreases offset
  {
    hide FsOk, HasFile, HasRoom, Copying, CopyStep, FileBytes, Trusted, IsFile;
    var b := FileBytes(s, FindName(s.table, sp, sname));
    if offset == 0 {
      CopyBegins(s, sp, sname, p, name, Trusted(codes));
    } else {
      var s1, prev := CopyLast(s, p, name, b, time, codes, offset, s');
      CopyGoes(s, sp, sname, p, name, time, codes, prev, s1);
      CopyStepped(s, sp, sname, p, name, prev, s1, offset - prev, time, codes, s');
      assert prev + (offset - prev) == offset;
    }
  }

  lemma CopyBegins(s: Fs, sp: nat, sname: string, p: nat, name: string, clean: bool)
    requires Copyable(s, sp, sname, p, name)
    ensures Copying(s, sp, sname, p, name, 0, clean, s)
  {
  }

  /** A device without codes does what any device can do. */
  lemma {:induction false} CopyAnyCodes(s: Fs, p: nat, name: string, b: seq<byte>, time: nat, codes: set<nat>,
                                        offset: nat, s': Fs)
    requires CopyUpto(s, p, name, b, time, {}, offset, s')
    ensures CopyUpto(s, p, name, b, time, codes, offset, s')
    decreases offset
  {
    hide CopyStep;
    if offset > 0 {
      var s1, prev := CopyLast(s, p, name, b, time, {}, offset, s');
      CopyAnyCodes(s, p, name, b, time, codes, prev, s1);
      StepAnyCodes(s1, p, name, b, prev, offset - prev, time, codes, s');
    }
  }

  lemma StepAnyCodes(s1: Fs, p: nat, name: string, b: seq<byte>, offset: nat, copied: nat, time: nat, codes: set<nat>,
                     s2: Fs)
    requires CopyStep(s1, p, name, b, offset, copied, time, {}, s2)
    ensures CopyStep(s1, p, name, b, offset, copied, time, codes, s2)
  {
    hide FileOutcome;
    if copied > 0 {
      StepNext(s1, p, name, b, offset, copied, time, s2);
      NextOutcome(s1, p, name, offset, b[offset..offset + copied], true, time, codes, s2);
      assert WroteOn(s1, p, name, offset, b[offset..offset + copied], time, codes, s2);
    }
  }

  lemma StepNext(s1: Fs, p: nat, name: string, b: seq<byte>, offset: nat, copied: nat, time: nat, s2: Fs)
    requires CopyStep(s1, p, name, b, offset, copied, time, {}, s2) && copied > 0
    ensures offset + copied <= |b| && copied == Min(BLOCK_SIZE, |b| - offset)
    ensures Next(s1, Op.Write(p, name, offset, b[offset..offset + copied], true, time), s2)
  {
    hide FileOutcome, Next;
    var data := b[offset..offset + copied];
    var r: nat :| r < ERROR_ANY && FileOutcome(s1, p, name, offset, data, true, time, {}, s2, r);
    OutcomeNext(s1, p, name, offset, data, true, time, {}, s2, r);
  }

  /** If a copy can be completed, the result 0 of fs_copy says that the target holds the bytes of the
      source if and only if the source is empty or no code of the device is below the error codes. */
  lemma CopyTrustedIff(s: Fs, sp: nat, sname: string, p: nat, name: string, time: nat, codes: set<nat>, s0: Fs)
    requires Copyable(s, sp, sname, p, name) && CopyOutcome(s, sp, sname, p, name, time, {}, s0)
    ensures (forall s' :: CopyOutcome(s, sp, sname, p, name, time, codes, s') ==> Copied(s, sp, sname, p, name, s'))
            <==> FileBytes(s, FindName(s.table, sp, sname)) == [] || Trusted(codes)
  {
    hide FsOk, HasFile, HasRoom, CopyUpto, FileBytes, IsFile, Copied;
    if FileBytes(s, FindName(s.table, sp, sname)) == [] || Trusted(codes) {
      forall s' | CopyOutcome(s, sp, sname, p, name, time, codes, s') ensures Copied(s, sp, sname, p, name, s') {
        CopyRight(s, sp, sname, p, name, time, codes, s');
      }
    } else {
      var c: nat :| Fails(codes, c) && c < ERROR_ANY;
      var s' := CopyLost(s, sp, sname, p, name, time, codes, c, s0);
    }
  }

  lemma CopyRight(s: Fs, sp: nat, sname: string, p: nat, name: string, time: nat, codes: set<nat>, s': Fs)
    requires Copyable(s, sp, sname, p, name) && CopyOutcome(s, sp, sname, p, name, time, codes, s')
    requires FileBytes(s, FindName(s.table, sp, sname)) == [] || Trusted(codes)
    ensures Copied(s, sp, sname, p, name, s')
  {
    var b := FileBytes(s, FindName(s.table, sp, sname));
    assert |b| == s.table[FindName(s.table, sp, sname)].size;
    hide FsOk, HasFile, HasRoom, Trusted;
    CopyGoes(s, sp, sname, p, name, time, codes, |b|, s');
    CopyEnds(s, sp, sname, p, name, |b|, Trusted(codes), s');
  }

  /** Whatever failed, the target is a file of its own and as long as the source, and all other files are
      as they were. */
  ghost predicate CopiedSome(s: Fs, sp: nat, sname: string, p: nat, name: string, s': Fs) {
    var x, y := FindName(s.table, sp, sname), FindName(s'.table, p, name);
    && IsFile(s, x) && FsOk(s')
    && if s.table[x].size == 0 then s' == s
       else HasFile(s', p, name, y) && !IsFile(s, y) && s.table[x].size <= s'.table[y].size && OtherFilesKept(s, s', y)
  }

  /** What the result 0 of a copy says. */
  lemma CopyMeans(s: Fs, sp: nat, sname: string, p: nat, name: string, time: nat, codes: set<nat>, s': Fs)
    requires Copyable(s, sp, sname, p, name)
    requires var b := FileBytes(s, FindName(s.table, sp, sname)); CopyUpto(s, p, name, b, time, codes, |b|, s')
    ensures CopyOutcome(s, sp, sname, p, name, time, codes, s') && CopiedSome(s, sp, sname, p, name, s')
    ensures Trusted(codes) ==> Copied(s, sp, sname, p, name, s')
  {
    var b := FileBytes(s, FindName(s.table, sp, sname));
    assert |b| == s.table[FindName(s.table, sp, sname)].size;
    hide FsOk, HasFile, HasRoom, Trusted, CopyUpto;
    CopyGoes(s, sp, sname, p, name, time, codes, |b|, s');
    if Trusted(codes) {
      CopyRight(s, sp, sname, p, name, time, codes, s');
    }
  }

  /** The last transfer of a copy that can be completed may fail, and the copy returns 0. */
  lemma CopyLost(s: Fs, sp: nat, sname: string, p: nat, name: string, time: nat, codes: set<nat>, c: nat, s0: Fs)
    returns (s': Fs)
    requires Copyable(s, sp, sname, p, name) && CopyOutcome(s, sp, sname, p, name, time, {}, s0)
    requires FileBytes(s, FindName(s.table, sp, sname)) != [] && Fails(codes, c) && c < ERROR_ANY
    ensures CopyOutcome(s, sp, sname, p, name, time, codes, s') && !Copied(s, sp, sname, p, name, s')
  {
    hide FsOk, HasFile, HasRoom, FileBytes, IsFile, Copied, CopyStep, FileOutcome, Lost, Next, Completes;
    var b := FileBytes(s, FindName(s.table, sp, sname));
    var s1, prev := CopyLast(s, p, name, b, time, {}, |b|, s0);
    StepNext(s1, p, name, b, prev, |b| - prev, time, s0);
    CopyGoes(s, sp, sname, p, name, time, {}, prev, s1);
    var data := b[prev..prev + (|b| - prev)];
    assert Completes(s1, p, name, prev, data, true, time, s0) by {
      CopyCompletes(s, sp, sname, p, name, prev, Trusted({}), s1, data, time, s0);
    }
    s' := WriteLost(s1, p, name, prev, data, true, time, codes, c, s0);
    assert CopyStep(s1, p, name, b, prev, |b| - prev, time, codes, s') by {
      StepIs(s1, p, name, b, prev, |b| - prev, time, codes, s', c);
    }
    CopyAnyCodes(s, p, name, b, time, codes, prev, s1);
    CopyMore(s, p, name, b, time, codes, prev, s1, |b| - prev, s');
    assert !Copied(s, sp, sname, p, name, s') by { LostCopied(s, sp, sname, p, name, s1, prev, data, s'); }
  }

  lemma CopyCompletes(s: Fs, sp: nat, sname: string, p: nat, name: string, offset: nat, clean: bool, s1: Fs,
                      data: seq<byte>, time: nat, s0: Fs)
    requires Copying(s, sp, sname, p, name, offset, clean, s1) && HasRoom(s.table, p)
    requires Next(s1, Op.Write(p, name, offset, data, true, time), s0)
    ensures Completes(s1, p, name, offset, data, true, time, s0)
  {
    hide Next, FsOk;
  }

  lemma StepIs(s1: Fs, p: nat, name: string, b: seq<byte>, offset: nat, copied: nat, time: nat, codes: set<nat>,
                  s2: Fs, c: nat)
    requires offset + copied <= |b| && copied == Min(BLOCK_SIZE, |b| - offset) && copied > 0 && c < ERROR_ANY
    requires FileOutcome(s1, p, name, offset, b[offset..offset + copied], true, time, codes, s2, c)
    ensures CopyStep(s1, p, name, b, offset, copied, time, codes, s2)
  {
    hide FileOutcome;
    assert WroteOn(s1, p, name, offset, b[offset..offset + copied], time, codes, s2);
  }

  lemma LostCopied(s: Fs, sp: nat, sname: string, p: nat, name: string, s1: Fs, offset: nat, data: seq<byte>, s': Fs)
    requires IsFile(s, FindName(s.table, sp, sname)) && data != []
    requires offset < |FileBytes(s, FindName(s.table, sp, sname))|
    requires data[0] == FileBytes(s, FindName(s.table, sp, sname))[offset]
    requires Lost(s1, p, name, offset, data, s')
    ensures !Copied(s, sp, sname, p, name, s')
  {
    hide FsOk, HasFile;
    assert |FileBytes(s, FindName(s.table, sp, sname))| == s.table[FindName(s.table, sp, sname)].size;
  }
}
