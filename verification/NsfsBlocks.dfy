/** Data blocks: who owns them, which are free, and the bytes of a file. */
module NsfsBlocks {
  import opened NsfsTypes
  import opened NsfsChain
  import opened NsfsTree
  import opened NsfsFit

  type byte = b: int | 0 <= b < 256
  type Disk = seq<seq<byte>>

  predicate DiskOk(disk: Disk) {
    forall b :: 0 <= b < |disk| ==> |disk[b]| == BLOCK_SIZE
  }

  /** Reference a of file head i is in use. */
  ghost predicate LiveRef(t: Table, i: nat, a: nat) {
    IsHead(t, i) && t[i].file && a < RefCount(t[i]) && a < |t[i].refs|
  }

  /** Every live reference is below hi, and no block is live twice. */
  ghost predicate Owned(t: Table, hi: nat) {
    && (forall i: nat, a: nat :: LiveRef(t, i, a) ==> t[i].refs[a] < hi)
    && (forall i: nat, a: nat, j: nat, b: nat ::
          LiveRef(t, i, a) && LiveRef(t, j, b) && t[i].refs[a] == t[j].refs[b] ==> i == j && a == b)
  }

  // ----- free blocks

  /** The scan of the entry table finds block b in an entry marked as a file, head or not. */
  ghost predicate Busy(t: Table, b: nat) {
    exists i: nat :: i < |t| && Refers(t[i], b)
  }

  ghost predicate Refers(e: Entry, b: nat) {
    e.file && exists a: nat :: a < Min(RefCount(e), SFS_ENTRYREFS) && a < |e.refs| && e.refs[a] == b
  }

  /** The lowest free block from b on, or hi. */
  ghost function LowestFree(t: Table, b: nat, hi: nat): (r: nat)
    ensures b <= hi ==> b <= r <= hi
    ensures r < hi ==> !Busy(t, r)
    ensures forall k :: b <= k < r && k < hi ==> Busy(t, k)
    decreases hi - b
  {
    if b >= hi then b else if !Busy(t, b) then b else LowestFree(t, b + 1, hi)
  }

  /** Scanning all entries finds exactly the blocks in use: spare links refer to block 0 only. */
  lemma BusyIsLive(t: Table, det: set<nat>, b: nat)
    requires Tree(t, det) && b != 0
    ensures Busy(t, b) <==> exists i: nat, a: nat :: LiveRef(t, i, a) && t[i].refs[a] == b
  {
    if Busy(t, b) {
      var i: nat :| i < |t| && Refers(t[i], b);
      var a: nat :| a < Min(RefCount(t[i]), SFS_ENTRYREFS) && a < |t[i].refs| && t[i].refs[a] == b;
      assert EntryOk(t, i) && EntryOk(t, t[i].parent);
      assert LiveRef(t, i, a);
    }
    if exists i: nat, a: nat :: LiveRef(t, i, a) && t[i].refs[a] == b {
      var i: nat, a: nat :| LiveRef(t, i, a) && t[i].refs[a] == b;
      assert EntryOk(t, i);
      assert Refers(t[i], b);
    }
  }

  // ----- the bytes of a file

  /** Block reference k of the chain c. */
  function RefAt(t: Table, c: seq<nat>, k: nat): nat
    requires k / SFS_ENTRYREFS < |c| && c[k / SFS_ENTRYREFS] < |t|
    requires |t[c[k / SFS_ENTRYREFS]].refs| == SFS_ENTRYREFS
  {
    t[c[k / SFS_ENTRYREFS]].refs[k % SFS_ENTRYREFS]
  }

  /** The chain c holds all the references its head's size asks for, and they are on the disk. */
  ghost predicate Readable(t: Table, c: seq<nat>, disk: Disk) {
    && IsChain(t, c) && DiskOk(disk)
    && (forall k :: 0 <= k < |c| ==> |t[c[k]].refs| == SFS_ENTRYREFS)
    && NeededBlocks(t[c[0]].size) <= |c| * SFS_ENTRYREFS
    && (forall k: nat :: k < NeededBlocks(t[c[0]].size) ==> k / SFS_ENTRYREFS < |c| && RefAt(t, c, k) < |disk|)
  }

  /** Content of the file with chain c. */
  ghost function Content(t: Table, c: seq<nat>, disk: Disk): (s: seq<byte>)
    requires Readable(t, c, disk)
    ensures |s| == t[c[0]].size
    ensures forall k :: 0 <= k < |s| ==> InBlocks(k, |s|) && s[k] == disk[RefAt(t, c, k / BLOCK_SIZE)][k % BLOCK_SIZE]
  {
    var size := t[c[0]].size;
    assert forall k: nat :: k < size ==> InBlocks(k, size);
    seq(size, k requires 0 <= k < size => assert InBlocks(k, size); disk[RefAt(t, c, k / BLOCK_SIZE)][k % BLOCK_SIZE])
  }

  /** Byte k lies in one of the blocks needed for size bytes. */
  predicate InBlocks(k: nat, size: nat) {
    k / BLOCK_SIZE < NeededBlocks(size)
  }

  /** A piece of the content within one block. */
  lemma ContentPiece(t: Table, c: seq<nat>, disk: Disk, at: nat, m: nat)
    requires Readable(t, c, disk) && 0 < m && at + m <= t[c[0]].size && at % BLOCK_SIZE + m <= BLOCK_SIZE
    ensures var k, off := at / BLOCK_SIZE, at % BLOCK_SIZE;
            && k < NeededBlocks(t[c[0]].size) && k / SFS_ENTRYREFS < |c| && RefAt(t, c, k) < |disk|
            && |disk[RefAt(t, c, k)]| == BLOCK_SIZE
            && Content(t, c, disk)[at..at + m] == disk[RefAt(t, c, k)][off..off + m]
  {
    var k, off, s := at / BLOCK_SIZE, at % BLOCK_SIZE, Content(t, c, disk);
    assert InBlocks(at, |s|);
    var x, y := s[at..at + m], disk[RefAt(t, c, k)][off..off + m];
    forall i | 0 <= i < m ensures x[i] == y[i] {
      assert InBlocks(at + i, |s|) && (at + i) / BLOCK_SIZE == k && (at + i) % BLOCK_SIZE == off + i;
    }
  }

  /** One more piece of content in a buffer. */
  lemma PieceRead(b: seq<byte>, content: seq<byte>, offset: nat, read: nat, m: nat)
    requires read + m <= |b| && offset + read + m <= |content|
    requires b[..read] == content[offset..offset + read]
    requires b[read..read + m] == content[offset + read..offset + read + m]
    ensures b[..read + m] == content[offset..offset + read + m]
  {
    assert b[..read + m] == b[..read] + b[read..read + m];
  }

  /** Position at in a file, as link pos of its chain, reference block there, byte off. */
  predicate AtPosition(at: nat, pos: nat, block: nat, off: nat) {
    (pos * SFS_ENTRYREFS + block) * BLOCK_SIZE + off == at && off < BLOCK_SIZE
  }

  lemma PositionParts(at: nat, pos: nat, block: nat, off: nat)
    requires AtPosition(at, pos, block, off) && block < 2 * SFS_ENTRYREFS
    ensures off == at % BLOCK_SIZE && pos * SFS_ENTRYREFS + block == at / BLOCK_SIZE
    ensures (at / BLOCK_SIZE) / SFS_ENTRYREFS == pos + block / SFS_ENTRYREFS
    ensures (at / BLOCK_SIZE) % SFS_ENTRYREFS == block % SFS_ENTRYREFS
  {
  }

  lemma NextPosition(at: nat, pos: nat, block: nat, off: nat)
    requires AtPosition(at, pos, block, off) && block < 2 * SFS_ENTRYREFS
    ensures block % SFS_ENTRYREFS + 1 < 2 * SFS_ENTRYREFS
    ensures AtPosition(at + (BLOCK_SIZE - off), pos + block / SFS_ENTRYREFS, block % SFS_ENTRYREFS + 1, 0)
  {
  }

  /** A head whose own references are all its file needs, and are on the disk. */
  ghost predicate HeadReadable(e: Entry, disk: Disk) {
    && DiskOk(disk) && |e.refs| == SFS_ENTRYREFS && NeededBlocks(e.size) <= SFS_ENTRYREFS
    && forall a: nat :: a < NeededBlocks(e.size) ==> e.refs[a] < |disk|
  }

  /** Content of a file of up to 120 blocks. */
  ghost function Bytes(e: Entry, disk: Disk): (s: seq<byte>)
    requires HeadReadable(e, disk)
    ensures |s| == e.size
    ensures forall k :: 0 <= k < |s| ==> InBlocks(k, |s|) && s[k] == disk[e.refs[k / BLOCK_SIZE]][k % BLOCK_SIZE]
  {
    assert forall k: nat :: k < e.size ==> InBlocks(k, e.size);
    seq(e.size, k requires 0 <= k < e.size => assert InBlocks(k, e.size); disk[e.refs[k / BLOCK_SIZE]][k % BLOCK_SIZE])
  }

  lemma HeadIsReadable(t: Table, det: set<nat>, i: nat, disk: Disk)
    requires Tree(t, det) && IsHead(t, i) && HeadReadable(t[i], disk)
    ensures Readable(t, ChainOf(t, i), disk) && ChainOf(t, i)[0] == i
    ensures forall k: nat :: k < NeededBlocks(t[i].size) ==>
              k / SFS_ENTRYREFS < |ChainOf(t, i)| && RefAt(t, ChainOf(t, i), k) == t[i].refs[k]
  {
    assert EntryOk(t, i) && EntryOk(t, t[i].next);
    ChainLinked(t, i, det);
    var c := ChainOf(t, i);
    forall k: nat | k < NeededBlocks(t[i].size)
      ensures k / SFS_ENTRYREFS < |c| && RefAt(t, c, k) == t[i].refs[k]
    {
      assert k / SFS_ENTRYREFS == 0;
    }
  }

  lemma BytesAreContent(t: Table, det: set<nat>, i: nat, disk: Disk)
    requires Tree(t, det) && IsHead(t, i) && HeadReadable(t[i], disk)
    ensures Readable(t, ChainOf(t, i), disk)
    ensures Content(t, ChainOf(t, i), disk) == Bytes(t[i], disk)
  {
    HeadIsReadable(t, det, i, disk);
    hide Tree, IsHead, Readable, ChainOf;
    forall k | 0 <= k < t[i].size
      ensures Content(t, ChainOf(t, i), disk)[k] == Bytes(t[i], disk)[k]
    {
      assert InBlocks(k, t[i].size);
    }
  }

  /** A file head of the tree can be read. */
  lemma FileReadable(t: Table, det: set<nat>, i: nat, hi: nat, disk: Disk)
    requires Tree(t, det) && IsHead(t, i) && t[i].file && Owned(t, hi) && DiskOk(disk) && hi <= |disk|
    ensures HeadReadable(t[i], disk) && RefCount(t[i]) == NeededBlocks(t[i].size)
  {
    assert EntryOk(t, i);
    RefCountBounds(t[i]);
    forall a: nat | a < NeededBlocks(t[i].size) ensures t[i].refs[a] < |disk| {
      assert LiveRef(t, i, a);
    }
  }

  // ----- writing bytes

  function Splice(s: seq<byte>, at: nat, data: seq<byte>): (r: seq<byte>)
    requires at <= |s|
    ensures |r| == if |s| < at + |data| then at + |data| else |s|
    ensures forall k :: 0 <= k < |r| ==> r[k] == if at <= k < at + |data| then data[k - at] else s[k]
  {
    s[..at] + data + if at + |data| < |s| then s[at + |data|..] else []
  }

  /** Writes data into block b from byte off on. */
  function WriteIn(disk: Disk, b: nat, off: nat, data: seq<byte>): (d: Disk)
    requires b < |disk| && off + |data| <= |disk[b]|
    ensures |d| == |disk|
  {
    disk[b := Splice(disk[b], off, data)]
  }

  /** One write inside block a of a file replaces just those bytes of it. */
  lemma WriteInSplices(e: Entry, disk: Disk, a: nat, off: nat, data: seq<byte>)
    requires HeadReadable(e, disk) && a < NeededBlocks(e.size)
    requires forall j: nat, k: nat :: j < k < NeededBlocks(e.size) ==> e.refs[j] != e.refs[k]
    requires off + |data| <= BLOCK_SIZE && a * BLOCK_SIZE + off + |data| <= e.size
    ensures HeadReadable(e, WriteIn(disk, e.refs[a], off, data))
    ensures Bytes(e, WriteIn(disk, e.refs[a], off, data)) == Splice(Bytes(e, disk), a * BLOCK_SIZE + off, data)
  {
    var disk' := WriteIn(disk, e.refs[a], off, data);
    var at := a * BLOCK_SIZE + off;
    forall k | 0 <= k < e.size
      ensures Bytes(e, disk')[k] == Splice(Bytes(e, disk), at, data)[k]
    {
      assert InBlocks(k, e.size);
      if k / BLOCK_SIZE != a {
        assert e.refs[k / BLOCK_SIZE] != e.refs[a];
      }
    }
  }

  lemma SpliceTwice(s: seq<byte>, at: nat, x: seq<byte>, y: seq<byte>)
    requires at + |x| <= |s|
    ensures Splice(Splice(s, at, x), at + |x|, y) == Splice(s, at, x + y)
  {
  }
}
