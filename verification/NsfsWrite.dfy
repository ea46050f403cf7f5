/** Writing to a file refines splicing into its bytes. */
module NsfsWrite {
  import opened NsfsTypes
  import opened NsfsChain
  import opened NsfsTree
  import opened NsfsFit
  import opened NsfsDir
  import opened NsfsBlocks
  import opened NsfsGrow
  import opened NsfsState

  /** Some references of e's blocks are on disk, and no block comes up twice. */
  ghost predicate OwnBlocks(e: Entry, disk: Disk) {
    && HeadReadable(e, disk)
    && forall j: nat, k: nat :: j < k < NeededBlocks(e.size) ==> e.refs[j] != e.refs[k]
  }

  /** A file of the state owns its blocks. */
  lemma FileOwnsBlocks(s: Fs, n: nat)
    requires FsOk(s) && IsHead(s.table, n) && s.table[n].file
    ensures OwnBlocks(s.table[n], s.disk) && RefCount(s.table[n]) == NeededBlocks(s.table[n].size)
  {
    var t := s.table;
    FileReadable(t, {}, n, BlockLimit(s.size), s.disk);
    forall j: nat, k: nat | j < k < NeededBlocks(t[n].size) ensures t[n].refs[j] != t[n].refs[k] {
      assert LiveRef(t, n, j) && LiveRef(t, n, k);
    }
  }

  /** Block b holds bytes of e. */
  ghost predicate BlockOf(e: Entry, b: nat) {
    exists a: nat :: a < NeededBlocks(e.size) && a < |e.refs| && e.refs[a] == b
  }

  /** From disk to disk' only blocks of e changed. */
  ghost predicate Touched(e: Entry, disk: Disk, disk': Disk) {
    && OwnBlocks(e, disk) && OwnBlocks(e, disk') && |disk'| == |disk|
    && forall b :: 0 <= b < |disk| && !BlockOf(e, b) ==> disk'[b] == disk[b]
  }

  /** Moreover the bytes of e at off became data. */
  ghost predicate Wrote(e: Entry, disk: Disk, disk': Disk, off: nat, data: seq<byte>) {
    && Touched(e, disk, disk')
    && off + |data| <= e.size && Bytes(e, disk') == Splice(Bytes(e, disk), off, data)
  }

  lemma WroteTouched(e: Entry, disk: Disk, disk': Disk, off: nat, data: seq<byte>)
    requires Wrote(e, disk, disk', off, data)
    ensures Touched(e, disk, disk')
  {
  }

  lemma WroteNothing(e: Entry, disk: Disk, off: nat)
    requires OwnBlocks(e, disk) && off <= e.size
    ensures Touched(e, disk, disk) && Wrote(e, disk, disk, off, [])
  {
    assert Splice(Bytes(e, disk), off, []) == Bytes(e, disk);
  }

  /** One more piece, inside a single block. */
  lemma WroteMore(e: Entry, disk: Disk, disk1: Disk, off: nat, x: seq<byte>, y: seq<byte>, a: nat, k: nat)
    requires Wrote(e, disk, disk1, off, x) && off + |x| + |y| <= e.size && y != []
    requires a * BLOCK_SIZE + k == off + |x| && k + |y| <= BLOCK_SIZE
    ensures a < NeededBlocks(e.size) && a < |e.refs| && e.refs[a] < |disk1| && |disk1[e.refs[a]]| == BLOCK_SIZE
    ensures Wrote(e, disk, WriteIn(disk1, e.refs[a], k, y), off, x + y)
  {
    hide Splice, Bytes, NeededBlocks, BlockOf, Touched;
    WroteOwn(e, disk, disk1, off, x);
    SizeInBlocks(e.size);
    assert InBlocks(off + |x|, e.size) && (off + |x|) / BLOCK_SIZE == a;
    WriteInSplices(e, disk1, a, k, y);
    TouchedMore(e, disk, disk1, a, Splice(disk1[e.refs[a]], k, y));
    SpliceTwice(Bytes(e, disk), off, x, y);
  }

  lemma WroteOwn(e: Entry, disk: Disk, disk1: Disk, off: nat, x: seq<byte>)
    requires Wrote(e, disk, disk1, off, x)
    ensures OwnBlocks(e, disk) && OwnBlocks(e, disk1)
  {
  }

  /** A write to a block of e that goes wrong may leave anything in it. */
  lemma TouchedMore(e: Entry, disk: Disk, disk1: Disk, a: nat, junk: seq<byte>)
    requires Touched(e, disk, disk1) && a < NeededBlocks(e.size) && a < |e.refs| && |junk| == BLOCK_SIZE
    ensures e.refs[a] < |disk1| && Touched(e, disk, disk1[e.refs[a] := junk])
  {
    assert BlockOf(e, e.refs[a]);
  }

  // ----- where data goes, whoever owns the blocks

  /** The references for the first size bytes are on the disk. */
  ghost predicate Reaches(e: Entry, disk: Disk, size: nat) {
    && DiskOk(disk) && |e.refs| == SFS_ENTRYREFS && size <= SFS_ENTRYREFS * BLOCK_SIZE
    && forall a: nat :: a < NeededBlocks(size) ==> e.refs[a] < |disk|
  }

  /** Number of bytes of the next piece of data, which ends with a block. */
  function PieceSize(off: nat, left: nat): (k: nat)
    requires left > 0
    ensures 0 < k <= left && off % BLOCK_SIZE + k <= BLOCK_SIZE
  {
    Min(left, BLOCK_SIZE - off % BLOCK_SIZE)
  }

  lemma PieceReached(e: Entry, disk: Disk, off: nat, left: nat, size: nat)
    requires Reaches(e, disk, size) && 0 < left && off + left <= size
    ensures |e.refs| == SFS_ENTRYREFS
    ensures var a := NeededBlocks(off + PieceSize(off, left)) - 1;
            && 0 <= a == off / BLOCK_SIZE < SFS_ENTRYREFS && a < NeededBlocks(size)
            && e.refs[a] < |disk| && |disk[e.refs[a]]| == BLOCK_SIZE
  {
    var k := PieceSize(off, left);
    NeededUp(off + k, size);
  }

  lemma NeededUp(a: nat, b: nat)
    requires a <= b
    ensures NeededBlocks(a) <= NeededBlocks(b)
  {
  }

  /** The disk after writing data at off through the references of e, piece by piece. */
  ghost function Lay(e: Entry, disk: Disk, off: nat, data: seq<byte>): (d: Disk)
    requires Reaches(e, disk, off + |data|)
    ensures |d| == |disk| && Reaches(e, d, off + |data|)
    decreases |data|
  {
    if data == [] then disk else
    PieceReached(e, disk, off, |data|, off + |data|);
    var k := PieceSize(off, |data|);
    Lay(e, WriteIn(disk, e.refs[NeededBlocks(off + k) - 1], off % BLOCK_SIZE, data[..k]), off + k, data[k..])
  }

  /** Only blocks that e refers to changed. */
  ghost predicate Confined(e: Entry, disk: Disk, disk': Disk) {
    && DiskOk(disk') && |disk'| == |disk|
    && forall b :: 0 <= b < |disk| && !BlockOf(e, b) ==> disk'[b] == disk[b]
  }

  lemma ConfinedTouched(e: Entry, disk: Disk, disk': Disk)
    requires OwnBlocks(e, disk) && Confined(e, disk, disk')
    ensures Touched(e, disk, disk')
  {
  }

  lemma ConfinedMore(e: Entry, disk: Disk, disk1: Disk, a: nat, block: seq<byte>)
    requires Confined(e, disk, disk1) && a < NeededBlocks(e.size) && a < |e.refs| && e.refs[a] < |disk1|
    requires |block| == BLOCK_SIZE
    ensures Confined(e, disk, disk1[e.refs[a] := block])
  {
    assert BlockOf(e, e.refs[a]);
  }

  /** The first piece, and the rest. */
  lemma LayStep(e: Entry, disk: Disk, off: nat, data: seq<byte>)
    requires Reaches(e, disk, off + |data|) && data != []
    ensures var a, k := off / BLOCK_SIZE, PieceSize(off, |data|);
            && a < SFS_ENTRYREFS && e.refs[a] < |disk| && |disk[e.refs[a]]| == BLOCK_SIZE
            && var d := WriteIn(disk, e.refs[a], off % BLOCK_SIZE, data[..k]);
               && off + k + |data[k..]| == off + |data| && Reaches(e, d, off + |data|)
               && Lay(e, disk, off, data) == Lay(e, d, off + k, data[k..])
  {
    hide Reaches, NeededBlocks, Splice;
    var a, k := off / BLOCK_SIZE, PieceSize(off, |data|);
    PieceReached(e, disk, off, |data|, off + |data|);
    ReachesKept(e, disk, e.refs[a], off % BLOCK_SIZE, data[..k], off + |data|);
  }

  lemma ReachesKept(e: Entry, disk: Disk, b: nat, off: nat, data: seq<byte>, size: nat)
    requires Reaches(e, disk, size) && b < |disk| && |disk[b]| == BLOCK_SIZE && off + |data| <= BLOCK_SIZE
    ensures Reaches(e, WriteIn(disk, b, off, data), size)
  {
  }

  /** A file that owns its blocks comes to hold the data. */
  lemma {:induction false} LayWrote(e: Entry, disk: Disk, disk1: Disk, off: nat, x: seq<byte>, y: seq<byte>)
    requires Wrote(e, disk, disk1, off, x) && Reaches(e, disk1, off + |x| + |y|) && off + |x| + |y| <= e.size
    ensures Wrote(e, disk, Lay(e, disk1, off + |x|, y), off, x + y)
    decreases |y|
  {
    hide Wrote, WriteIn, Reaches, NeededBlocks, Lay;
    if y == [] {
      LayNone(e, disk1, off + |x|);
      assert x + y == x;
    } else {
      var at := off + |x|;
      var k := PieceSize(at, |y|);
      LayStep(e, disk1, at, y);
      WroteMore(e, disk, disk1, off, x, y[..k], at / BLOCK_SIZE, at % BLOCK_SIZE);
      var disk2 := WriteIn(disk1, e.refs[at / BLOCK_SIZE], at % BLOCK_SIZE, y[..k]);
      LayWrote(e, disk, disk2, off, x + y[..k], y[k..]);
      assert (x + y[..k]) + y[k..] == x + y;
    }
  }

  lemma LayNone(e: Entry, disk: Disk, off: nat)
    requires Reaches(e, disk, off)
    ensures Lay(e, disk, off, []) == disk
  {
  }

  // ----- data that goes to the boot block

  /** The boot block has data at off, modulo the size of a block. */
  predicate BootHolds(disk: Disk, off: nat, data: seq<byte>) {
    && 0 < |disk| && |disk[0]| == BLOCK_SIZE
    && forall j :: 0 <= j < |data| ==> disk[0][(off + j) % BLOCK_SIZE] == data[j]
  }

  /** The block after its bytes from off on, modulo its size, became data. */
  function Around(block: seq<byte>, off: nat, data: seq<byte>): (r: seq<byte>)
    requires |block| == BLOCK_SIZE && |data| <= BLOCK_SIZE
    ensures |r| == BLOCK_SIZE
  {
    seq(BLOCK_SIZE, i requires 0 <= i < BLOCK_SIZE =>
      var j := (i + BLOCK_SIZE - off % BLOCK_SIZE) % BLOCK_SIZE; if j < |data| then data[j] else block[i])
  }

  lemma AroundOff(off: nat, i: nat, j: nat)
    requires i < BLOCK_SIZE && j < BLOCK_SIZE
    ensures (i + BLOCK_SIZE - off % BLOCK_SIZE) % BLOCK_SIZE == j <==> i == (off + j) % BLOCK_SIZE
    ensures off % BLOCK_SIZE + j < BLOCK_SIZE ==> (off + j) % BLOCK_SIZE == off % BLOCK_SIZE + j
    ensures off % BLOCK_SIZE + j >= BLOCK_SIZE ==> (off + j) % BLOCK_SIZE == off % BLOCK_SIZE + j - BLOCK_SIZE
  {
    InBlock(off, j);
    InBlock(i, BLOCK_SIZE - off % BLOCK_SIZE);
  }

  lemma InBlock(a: nat, b: nat)
    requires b <= BLOCK_SIZE
    ensures var r := a % BLOCK_SIZE + b; (a + b) % BLOCK_SIZE == if r < BLOCK_SIZE then r else r - BLOCK_SIZE
  {
  }

  lemma AroundSame(block: seq<byte>, off: nat, data: seq<byte>)
    requires |block| == BLOCK_SIZE && |data| <= BLOCK_SIZE
    ensures Around(block, off, data) == block <==>
            forall j :: 0 <= j < |data| ==> block[(off + j) % BLOCK_SIZE] == data[j]
  {
    forall j | 0 <= j < |data| && Around(block, off, data) == block
      ensures block[(off + j) % BLOCK_SIZE] == data[j]
    {
      AroundOff(off, (off + j) % BLOCK_SIZE, j);
      assert Around(block, off, data)[(off + j) % BLOCK_SIZE] == data[j];
    }
    if forall j :: 0 <= j < |data| ==> block[(off + j) % BLOCK_SIZE] == data[j] {
      forall i | 0 <= i < BLOCK_SIZE ensures Around(block, off, data)[i] == block[i] {
        AroundOff(off, i, (i + BLOCK_SIZE - off % BLOCK_SIZE) % BLOCK_SIZE);
      }
    }
  }

  /** Through an entry without references, as a link is, up to a block of data goes to the boot
      block, and nothing else changes. */
  lemma LayBoot(e: Entry, disk: Disk, off: nat, data: seq<byte>)
    requires Reaches(e, disk, off + |data|) && e.refs == Zeros(SFS_ENTRYREFS) && 0 < |data| <= BLOCK_SIZE
    ensures 0 < |disk| && |disk[0]| == BLOCK_SIZE
    ensures Lay(e, disk, off, data) == disk[0 := Around(disk[0], off, data)]
  {
    hide Lay, Reaches, NeededBlocks, Around, Splice;
    var k := PieceSize(off, |data|);
    if k == |data| {
      LayPiece(e, disk, off, data);
      AroundOnce(disk[0], off, data);
    } else {
      NextBlock(off, k);
      LayStep(e, disk, off, data);
      LayPiece(e, WriteIn(disk, 0, off % BLOCK_SIZE, data[..k]), off + k, data[k..]);
      AroundTwice(disk[0], off, data, k);
    }
  }

  lemma NextBlock(off: nat, k: nat)
    ensures k == BLOCK_SIZE - off % BLOCK_SIZE ==> (off + k) % BLOCK_SIZE == 0
  {
  }

  /** Data that ends within the block it starts in. */
  lemma LayPiece(e: Entry, disk: Disk, off: nat, data: seq<byte>)
    requires Reaches(e, disk, off + |data|) && data != [] && off % BLOCK_SIZE + |data| <= BLOCK_SIZE
    ensures var a := off / BLOCK_SIZE;
            && a < |e.refs| && e.refs[a] < |disk| && |disk[e.refs[a]]| == BLOCK_SIZE
            && Lay(e, disk, off, data) == WriteIn(disk, e.refs[a], off % BLOCK_SIZE, data)
  {
    hide Lay, NeededBlocks, Splice;
    LayStep(e, disk, off, data);
    assert data[..|data|] == data && data[|data|..] == [];
    LayNone(e, WriteIn(disk, e.refs[off / BLOCK_SIZE], off % BLOCK_SIZE, data), off + |data|);
  }

  lemma AroundOnce(block: seq<byte>, off: nat, data: seq<byte>)
    requires |block| == BLOCK_SIZE && off % BLOCK_SIZE + |data| <= BLOCK_SIZE
    ensures Splice(block, off % BLOCK_SIZE, data) == Around(block, off, data)
  {
  }

  lemma AroundTwice(block: seq<byte>, off: nat, data: seq<byte>, k: nat)
    requires |block| == BLOCK_SIZE && k < |data| <= BLOCK_SIZE && k == BLOCK_SIZE - off % BLOCK_SIZE
    ensures Splice(Splice(block, off % BLOCK_SIZE, data[..k]), 0, data[k..]) == Around(block, off, data)
  {
    var x, y := Splice(Splice(block, off % BLOCK_SIZE, data[..k]), 0, data[k..]), Around(block, off, data);
    forall i | 0 <= i < BLOCK_SIZE ensures x[i] == y[i] {
    }
  }

  lemma SizeInBlocks(size: nat)
    ensures size <= NeededBlocks(size) * BLOCK_SIZE
    ensures forall k: nat :: k < size ==> InBlocks(k, size)
  {
  }

  /** f and e use no block in common. */
  ghost predicate Apart(e: Entry, f: Entry) {
    forall a: nat, b: nat :: a < NeededBlocks(e.size) && a < |e.refs| && b < NeededBlocks(f.size) && b < |f.refs|
      ==> e.refs[a] != f.refs[b]
  }

  /** Other files keep their content. */
  lemma TouchedElsewhere(e: Entry, f: Entry, disk: Disk, disk': Disk)
    requires Touched(e, disk, disk') && HeadReadable(f, disk) && Apart(e, f)
    ensures HeadReadable(f, disk') && Bytes(f, disk') == Bytes(f, disk)
  {
    forall k | 0 <= k < f.size
      ensures Bytes(f, disk')[k] == Bytes(f, disk)[k]
    {
      assert InBlocks(k, f.size);
      assert !BlockOf(e, f.refs[k / BLOCK_SIZE]);
    }
  }

  lemma FilesApart(s: Fs, i: nat, j: nat)
    requires FsOk(s) && IsHead(s.table, i) && IsHead(s.table, j) && s.table[i].file && s.table[j].file && i != j
    ensures Apart(s.table[i], s.table[j])
  {
    var t := s.table;
    FileOwnsBlocks(s, i);
    FileOwnsBlocks(s, j);
    forall a: nat, b: nat | a < NeededBlocks(t[i].size) && b < NeededBlocks(t[j].size)
      ensures t[i].refs[a] != t[j].refs[b]
    {
      assert LiveRef(t, i, a) && LiveRef(t, j, b);
    }
  }

  // ----- what a write needs

  /** Data can be put into the file of entry n: the entry starts a chain, and can be given more
      blocks if it needs them. */
  ghost predicate Fillable(s: Fs, n: nat, off: nat, data: seq<byte>) {
    && Placed(s.table, n, off, data) && Linked(s.table, ChainOf(s.table, n))
    && DiskOk(s.disk) && BlockLimit(s.size) <= |s.disk|
    && (s.table[n].size < off + |data| ==> Extendable(s.table, n, off + |data|))
    && forall a: nat :: a < NeededBlocks(s.table[n].size) && a < SFS_ENTRYREFS && a < |s.table[n].refs| ==>
         s.table[n].refs[a] < |s.disk|
  }

  /** After making room, all the data has blocks to go to. */
  lemma RoomReaches(s: Fs, n: nat, off: nat, data: seq<byte>)
    requires Fillable(s, n, off, data)
    ensures match GrowStep(s, n, off + |data|)
            case None => true
            case Some(t1) =>
              && n < |t1| <= MAX_ENTRIES && t1[n].next < |t1|
              && Reaches(t1[n], s.disk, off + |data|) && off + |data| <= t1[n].size
              && IsChain(t1, ChainOf(t1, n)) && ChainOf(t1, n)[0] == n
  {
    hide Grown, Linked, Extendable, LowestFree, ChainOf, DiskOk, IsChain, Reaches, NeededBlocks;
    if s.table[n].size < off + |data| {
      if GrowStep(s, n, off + |data|).Some? {
        GrownReaches(s, n, off + |data|, LowestFree(s.table, FirstDataBlock(|s.table|), BlockLimit(s.size)));
      }
    } else {
      RoomReached(s, n, off, data);
    }
  }

  lemma RoomReached(s: Fs, n: nat, off: nat, data: seq<byte>)
    requires Fillable(s, n, off, data) && off + |data| <= s.table[n].size
    ensures Reaches(s.table[n], s.disk, off + |data|)
    ensures IsChain(s.table, ChainOf(s.table, n)) && ChainOf(s.table, n)[0] == n && |s.table| <= MAX_ENTRIES
  {
    TreelessOpen(s.table, n);
    OpenChain(s.table, n);
    NeededUp(off + |data|, s.table[n].size);
  }

  lemma GrownReaches(s: Fs, n: nat, size: nat, b: nat)
    requires Extendable(s.table, n, size) && DiskOk(s.disk)
    requires forall a: nat :: a < NeededBlocks(s.table[n].size) && a < SFS_ENTRYREFS && a < |s.table[n].refs| ==>
               s.table[n].refs[a] < |s.disk|
    requires NeededBlocks(s.table[n].size) < NeededBlocks(size) ==> b < |s.disk|
    ensures match Grown(s.table, n, size, b)
            case None => true
            case Some(t1) =>
              && n < |t1| <= MAX_ENTRIES && t1[n].next < |t1| && t1[n].size == size && Reaches(t1[n], s.disk, size)
              && IsChain(t1, ChainOf(t1, n)) && ChainOf(t1, n)[0] == n
  {
    var t := s.table;
    ExtendableChain(t, n, size);
    var e := GrownHead(t[n], size, b);
    assert RefCount(e) == NeededBlocks(size) > 0;
    if Fit(t, n, e).Some? {
      var t1 := Fit(t, n, e).value;
      hide RefCount, NeededBlocks;
      assert t1[n] == e.(next := t1[n].next) && t1[n].next != 0 && t1[n].next != n;
      assert Used(t1[n]) && Used(t1[t1[n].next]) && t1[t1[n].next].next == 0;
    }
  }

  lemma HeadFillable(s: Fs, n: nat, off: nat, data: seq<byte>)
    requires FsOk(s) && Writable(s, n, off, data)
    ensures Fillable(s, n, off, data)
  {
    FileOwnsBlocks(s, n);
    ChainLinked(s.table, n, {});
    if s.table[n].size < off + |data| {
      HeadExtendable(s.table, n, off + |data|);
    }
  }

  lemma LinkFillable(s: Fs, n: nat, off: nat, data: seq<byte>)
    requires FsOk(s) && Placed(s.table, n, off, data) && IsSpare(s.table, n)
    requires s.table[n].refs == Zeros(SFS_ENTRYREFS) && 0 < |s.disk|
    ensures Fillable(s, n, off, data)
  {
    TreeOpen(s.table, n, {});
    if s.table[n].size < off + |data| {
      LinkExtendable(s.table, n, off + |data|);
    }
  }

  /** A file just made, wherever it is. */
  lemma FreshFillable(s: Fs, n: nat, p: nat, name: string, data: seq<byte>)
    requires n < |s.table| && s.table[n] == FileEntry(p, name) && Shaped(s.table) && Used(s.table[0])
    requires DiskOk(s.disk) && BlockLimit(s.size) <= |s.disk| && |data| <= BLOCK_SIZE && n != 0
    ensures Fillable(s, n, 0, data)
  {
    assert IsChain(s.table, [n]) && LinkedBack(s.table, [n]);
  }

  // ----- modification times

  function Timed(t: Table, n: nat, time: nat): (t': Table)
    requires n < |t| && t[n].next < |t|
    ensures |t'| == |t|
  {
    SetTimes(t, ChainOf(t, n), 0, time)
  }

  lemma TimedShort(t: Table, n: nat, time: nat)
    requires n < |t| && t[n].next < |t| && (t[n].next == 0 || t[n].next != n)
    ensures Timed(t, n, time) ==
            var t1 := t[n := t[n].(time := time)];
            if t[n].next == 0 then t1 else t1[t[n].next := t1[t[n].next].(time := time)]
  {
    var t1, c := t[n := t[n].(time := time)], ChainOf(t, n);
    assert SetTimes(t, c, 0, time) == SetTimes(t1, c, 1, time);
    if |c| == 2 {
      var t2 := t1[c[1] := t1[c[1]].(time := time)];
      assert SetTimes(t1, c, 1, time) == SetTimes(t2, c, 2, time);
    }
  }

  lemma TimedRespares(t: Table, n: nat, time: nat, det: set<nat>)
    requires Tree(t, det) && IsHead(t, n)
    ensures EntryOk(t, n)
    ensures var t' := Timed(t, n, time); Respare(t, t', n) && t'[n] == t[n].(time := time)
  {
    assert EntryOk(t, n) && EntryOk(t, t[n].next);
    TimedShort(t, n, time);
  }
}
