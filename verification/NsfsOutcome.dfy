/** What a write can leave and return when transfers of data fail: the kernel returns the code of the
    device as it is. */
module NsfsOutcome {
  import opened NsfsTypes
  import opened NsfsTree
  import opened NsfsBlocks
  import opened NsfsState
  import opened NsfsWrite
  import opened NsfsSteps

  /** Code r is one that a failed transfer of data returns. */
  predicate Fails(codes: set<nat>, r: nat) {
    r != 0 && r in codes
  }

  /** All of them are error codes of the file system as well. */
  ghost predicate Trusted(codes: set<nat>) {
    forall c: nat :: Fails(codes, c) ==> c >= ERROR_ANY
  }

  /** Some pieces of the data were laid, and the transfer of the next one failed: it may have left
      anything in its block. */
  ghost predicate LayFails(e: Entry, disk: Disk, off: nat, data: seq<byte>, disk': Disk)
    requires Reaches(e, disk, off + |data|)
    decreases |data|
  {
    data != [] &&
    (PieceReached(e, disk, off, |data|, off + |data|);
     var k := PieceSize(off, |data|);
     var b := e.refs[NeededBlocks(off + k) - 1];
     || Spoiled(disk, b, disk')
     || LayFails(e, WriteIn(disk, b, off % BLOCK_SIZE, data[..k]), off + k, data[k..], disk'))
  }

  predicate Spoiled(disk: Disk, b: nat, disk': Disk) {
    b < |disk| == |disk'| && |disk'[b]| == BLOCK_SIZE && disk' == disk[b := disk'[b]]
  }

  /** The first transfer fails. */
  lemma LayFailsNow(e: Entry, disk: Disk, off: nat, data: seq<byte>, junk: seq<byte>)
    requires Reaches(e, disk, off + |data|) && data != [] && |junk| == BLOCK_SIZE
    ensures var a := off / BLOCK_SIZE;
            a < |e.refs| && e.refs[a] < |disk| && LayFails(e, disk, off, data, disk[e.refs[a] := junk])
  {
    hide Reaches, NeededBlocks, Splice, Spoiled, WriteIn;
    var a, k := off / BLOCK_SIZE, PieceSize(off, |data|);
    PieceReached(e, disk, off, |data|, off + |data|);
    SpoiledBy(disk, e.refs[a], junk);
    FirstSpoiled(e, disk, off, data, disk[e.refs[a] := junk], k, e.refs[a]);
  }

  lemma FirstSpoiled(e: Entry, disk: Disk, off: nat, data: seq<byte>, disk': Disk, k: nat, b: nat)
    requires Reaches(e, disk, off + |data|) && data != [] && k == PieceSize(off, |data|)
    requires 0 < NeededBlocks(off + k) <= |e.refs| && b == e.refs[NeededBlocks(off + k) - 1] && Spoiled(disk, b, disk')
    ensures LayFails(e, disk, off, data, disk')
  {
    hide Reaches, NeededBlocks, Splice, Spoiled, WriteIn, PieceSize;
  }

  lemma SpoiledBy(disk: Disk, b: nat, junk: seq<byte>)
    requires b < |disk| && |junk| == BLOCK_SIZE
    ensures Spoiled(disk, b, disk[b := junk])
  {
  }

  /** The first transfer works, and a later one fails. */
  lemma LayFailsLater(e: Entry, disk: Disk, off: nat, data: seq<byte>, disk': Disk)
    requires Reaches(e, disk, off + |data|) && data != []
    ensures var a, k := off / BLOCK_SIZE, PieceSize(off, |data|);
            && a < |e.refs| && e.refs[a] < |disk| && |disk[e.refs[a]]| == BLOCK_SIZE
            && var d := WriteIn(disk, e.refs[a], off % BLOCK_SIZE, data[..k]);
               && Reaches(e, d, off + k + |data[k..]|)
               && (LayFails(e, d, off + k, data[k..], disk') ==> LayFails(e, disk, off, data, disk'))
  {
    hide Reaches, NeededBlocks, Splice;
    PieceReached(e, disk, off, |data|, off + |data|);
    LayStep(e, disk, off, data);
  }

  /** Room was made in the file of entry n, but the data did not get there. */
  ghost predicate Failed(s: Fs, n: nat, off: nat, data: seq<byte>, s': Fs) {
    && Placed(s.table, n, off, data) && s'.size == s.size
    && match GrowStep(s, n, off + |data|)
       case None => false
       case Some(t1) =>
         && n < |t1| && t1[n].next < |t1| && Reaches(t1[n], s.disk, off + |data|) && s'.table == t1
         && LayFails(t1[n], s.disk, off, data, s'.disk) && Confined(t1[n], s.disk, s'.disk)
  }

  /** What a write to the file of entry n can return and leave: an error, the number of bytes after a
      complete write, or the code of the transfer that failed. */
  ghost predicate WriteOutcome(s: Fs, n: nat, off: nat, data: seq<byte>, time: nat, codes: set<nat>,
                               s': Fs, r: nat) {
    || r >= ERROR_ANY
    || (r == |data| && Written(s, n, off, data, time, s'))
    || (Fails(codes, r) && Failed(s, n, off, data, s'))
  }

  /** The same for a name, whose file may have to be made first. */
  ghost predicate FileOutcome(s: Fs, p: nat, name: string, off: nat, data: seq<byte>, create: bool, time: nat,
                              codes: set<nat>, s': Fs, r: nat) {
    var n := FindName(s.table, p, name);
    || r >= ERROR_ANY
    || if n < |s.table| then WriteOutcome(s, n, off, data, time, codes, s', r)
       else create && exists s1, m: nat :: Made(s, FileEntry(p, name), s1, m)
                                           && WriteOutcome(s1, m, off, data, time, codes, s', r)
  }

  /** The number of bytes is to be believed unless the device has it as a code; no result below the
      error codes is any other code, if the device has none there. */
  lemma OutcomeNext(s: Fs, p: nat, name: string, off: nat, data: seq<byte>, create: bool, time: nat,
                    codes: set<nat>, s': Fs, r: nat)
    requires FileOutcome(s, p, name, off, data, create, time, codes, s', r) && r < ERROR_ANY && !Fails(codes, r)
    ensures r == |data| && Next(s, Op.Write(p, name, off, data, create, time), s')
  {
    hide Made, Written, Failed;
    var n := FindName(s.table, p, name);
    if n == |s.table| {
      var s1, m: nat :| Made(s, FileEntry(p, name), s1, m) && WriteOutcome(s1, m, off, data, time, codes, s', r);
      assert Written(s1, m, off, data, time, s');
    }
  }

  lemma NextOutcome(s: Fs, p: nat, name: string, off: nat, data: seq<byte>, create: bool, time: nat,
                    codes: set<nat>, s': Fs)
    requires Next(s, Op.Write(p, name, off, data, create, time), s')
    ensures FileOutcome(s, p, name, off, data, create, time, codes, s', |data|)
  {
    hide Made, Written, Failed;
    if FindName(s.table, p, name) == |s.table| {
      var s1, m: nat :| Made(s, FileEntry(p, name), s1, m) && Written(s1, m, off, data, time, s');
      assert WriteOutcome(s1, m, off, data, time, codes, s', |data|);
    }
  }

  /** The write goes to a head, or to a new file in a directory with room. */
  ghost predicate Aimed(s: Fs, p: nat, name: string) {
    var n := FindName(s.table, p, name);
    if n < |s.table| then IsHead(s.table, n) else HasRoom(s.table, p)
  }

  /** Then any result that is no error says that the file is there, as long as it should be, and that
      nothing else was touched. */
  lemma OutcomeSome(s: Fs, p: nat, name: string, off: nat, data: seq<byte>, create: bool, time: nat,
                    codes: set<nat>, s': Fs, r: nat)
    requires FsOk(s) && FileOutcome(s, p, name, off, data, create, time, codes, s', r) && r < ERROR_ANY
    requires Aimed(s, p, name)
    ensures WroteSome(s, p, name, off, data, s')
  {
    hide Made, Written, Failed, FsOk, Stored, IsHead, HasRoom;
    var n := FindName(s.table, p, name);
    if n < |s.table| {
      OutcomeStored(s, n, off, data, time, codes, s', r);
    } else {
      var s1, m: nat :| Made(s, FileEntry(p, name), s1, m) && WriteOutcome(s1, m, off, data, time, codes, s', r);
      assert FsOk(s1) && IsHead(s1.table, m) by { MadeHead(s, p, name, s1, m); }
      OutcomeStored(s1, m, off, data, time, codes, s', r);
    }
  }

  lemma MadeHead(s: Fs, p: nat, name: string, s1: Fs, m: nat)
    requires FsOk(s) && Made(s, FileEntry(p, name), s1, m) && HasRoom(s.table, p)
    ensures FsOk(s1) && IsHead(s1.table, m)
  {
    hide Made, FsOk, HasRoom;
    MadeOk(s, FileEntry(p, name), s1, m);
  }

  lemma OutcomeStored(s: Fs, n: nat, off: nat, data: seq<byte>, time: nat, codes: set<nat>, s': Fs, r: nat)
    requires FsOk(s) && IsHead(s.table, n) && WriteOutcome(s, n, off, data, time, codes, s', r) && r < ERROR_ANY
    ensures Stored(s, n, off, data, s')
  {
    hide FsOk, IsHead, Written, Failed, Stored;
    if Written(s, n, off, data, time, s') {
      WrittenWrote(s, n, off, data, time, s');
    } else {
      FailedStored(s, n, off, data, s');
    }
  }

  lemma FailedStored(s: Fs, n: nat, off: nat, data: seq<byte>, s': Fs)
    requires FsOk(s) && IsHead(s.table, n) && Failed(s, n, off, data, s')
    ensures Stored(s, n, off, data, s')
  {
    hide FsOk, IsHead, GrowStep, LayFails, Reaches, Confined, Touched, OwnBlocks;
    RoomReady(s, n, off, data);
    ConfinedTouched(s'.table[n], s.disk, s'.disk);
  }

  // ----- a write that fails at once

  /** Data goes to a head, there is room for it, and the first transfer fails: the file has another
      byte at the offset. */
  lemma FailsAtOnce(s: Fs, n: nat, off: nat, data: seq<byte>) returns (s': Fs)
    requires FsOk(s) && Writable(s, n, off, data) && data != [] && GrowStep(s, n, off + |data|).Some?
    ensures Failed(s, n, off, data, s') && Stored(s, n, off, data, s')
    ensures FsOk(s') && IsHead(s'.table, n) && s'.table[n].file && HeadReadable(s'.table[n], s'.disk)
    ensures off < s'.table[n].size && Bytes(s'.table[n], s'.disk)[off] != data[0]
  {
    hide FsOk, IsHead, GrowStep, LayFails, Reaches, Confined, Touched, OwnBlocks, HeadReadable, Bytes, Stored;
    RoomReady(s, n, off, data);
    var t1, a := GrowStep(s, n, off + |data|).value, off / BLOCK_SIZE;
    OwnReaches(t1[n], s.disk, off, data);
    var junk := seq(BLOCK_SIZE, _ => if data[0] == 0 then 1 else 0);
    LayFailsNow(t1[n], s.disk, off, data, junk);
    s' := Fs(t1, s.disk[t1[n].refs[a] := junk], s.size);
    assert Confined(t1[n], s.disk, s'.disk) by { ConfinedFirst(t1[n], s.disk, off, data, junk); }
    FailedStored(s, n, off, data, s');
    StoredKeeps(s, n, off, data, s');
    assert IsHead(s'.table, n) by { KeptHead(s.table, s'.table, n); }
    FileOwnsBlocks(s', n);
    ByteAt(s'.table[n], s'.disk, off);
  }

  lemma KeptHead(t: Table, t': Table, n: nat)
    requires OthersKept(t, t', n) && IsHead(t, n)
    ensures IsHead(t', n)
  {
  }

  /** A file that owns its blocks and is long enough reaches the data. */
  lemma OwnReaches(e: Entry, disk: Disk, off: nat, data: seq<byte>)
    requires OwnBlocks(e, disk) && off + |data| <= e.size
    ensures Reaches(e, disk, off + |data|)
  {
    NeededUp(off + |data|, e.size);
  }

  lemma ConfinedFirst(e: Entry, disk: Disk, off: nat, data: seq<byte>, junk: seq<byte>)
    requires OwnBlocks(e, disk) && off + |data| <= e.size && data != [] && |junk| == BLOCK_SIZE
    ensures var a := off / BLOCK_SIZE;
            a < |e.refs| && e.refs[a] < |disk| && Confined(e, disk, disk[e.refs[a] := junk])
  {
    NeededUp(off + 1, e.size);
    assert BlockOf(e, e.refs[off / BLOCK_SIZE]);
  }

  lemma ByteAt(e: Entry, disk: Disk, k: nat)
    requires HeadReadable(e, disk) && k < e.size
    ensures k / BLOCK_SIZE < |e.refs| && e.refs[k / BLOCK_SIZE] < |disk| && |disk[e.refs[k / BLOCK_SIZE]]| == BLOCK_SIZE
    ensures Bytes(e, disk)[k] == disk[e.refs[k / BLOCK_SIZE]][k % BLOCK_SIZE]
  {
    SizeInBlocks(e.size);
    assert InBlocks(k, e.size);
  }
}
