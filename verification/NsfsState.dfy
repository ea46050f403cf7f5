/** The state of a disk and what each operation, when it succeeds, makes of it. */
module NsfsState {
  import opened NsfsTypes
  import opened NsfsChain
  import opened NsfsTree
  import opened NsfsFit
  import opened NsfsDir
  import opened NsfsOps
  import opened NsfsBlocks
  import opened NsfsGrow

  /** Entry table, data blocks, and the size in blocks that the super block records. */
  datatype Fs = Fs(table: Table, disk: Disk, size: nat)

  /** Blocks from this one on are not given out: the scan counts in a 16-bit uint. */
  function BlockLimit(size: nat): nat {
    Lo16(size)
  }

  /** A block is used for data if its number is no error code. */
  function UsableLimit(size: nat): (hi: nat)
    ensures hi <= BlockLimit(size)
  {
    Min(BlockLimit(size), ERROR_ANY)
  }

  ghost predicate FsOk(s: Fs) {
    TreeOk(s.table) && Owned(s.table, BlockLimit(s.size)) && DiskOk(s.disk) && |s.disk| == s.size
  }

  // ----- names

  /** What fs_get_entry compares: any used entry, head or not. */
  predicate Matches(e: Entry, p: nat, name: string) {
    Used(e) && e.parent == p && e.name == name
  }

  /** The first entry with this parent and name from n on, or the table length. */
  function FindName(t: Table, p: nat, name: string, n: nat := 0): (r: nat)
    requires n <= |t|
    ensures n <= r <= |t|
    ensures r < |t| ==> Matches(t[r], p, name)
    ensures forall i :: n <= i < r ==> !Matches(t[i], p, name)
    decreases |t| - n
  {
    if n == |t| || Matches(t[n], p, name) then n else FindName(t, p, name, n + 1)
  }

  predicate ValidChar(c: char) {
    || '0' <= c <= '9' || 'A' <= c <= 'Z' || 'a' <= c <= 'z'
    || c == '.' || c == '-' || c == '_' || c == '(' || c == ')' || c == '[' || c == ']'
  }

  /** A name that string_to_name leaves as it is. */
  predicate ValidName(name: string) {
    0 < |name| < SFS_NAMESIZE && forall k :: 0 <= k < |name| ==> ValidChar(name[k])
  }

  // ----- what the operations compute

  function FileEntry(p: nat, name: string): Entry {
    Zero().(file := true, name := name, parent := p)
  }

  function DirEntry(p: nat, name: string, time: nat): Entry {
    Zero().(dir := true, name := name, parent := p, time := time)
  }

  /** A directory that can take one more item. */
  ghost predicate HasRoom(t: Table, p: nat) {
    IsDir(t, p) && t[p].size < SFS_ENTRYREFS
  }

  /** Table t' is t with head e in the lowest free entry n, and a reference to it in entry p,
      whatever p is. */
  ghost predicate CreateLeaves(t: Table, p: nat, e: Entry, t': Table, n: nat) {
    n == FirstFree(t) < |t| && Open(t[n := e], p) && AddedTo(t[n := e], p, n) == Some(t')
  }

  /** Data for offset off of entry n, which a file has: at most one block at a time, at or before
      the end of the file, and not past 120 blocks. */
  ghost predicate Placed(t: Table, n: nat, off: nat, data: seq<byte>) {
    && n < |t| && t[n].file && t[n].next < |t|
    && off <= t[n].size && |data| <= BLOCK_SIZE && off + |data| <= SFS_ENTRYREFS * BLOCK_SIZE
  }

  /** The entry is the head of the file. */
  ghost predicate Writable(s: Fs, n: nat, off: nat, data: seq<byte>) {
    IsHead(s.table, n) && Placed(s.table, n, off, data)
  }

  /** The table after making room for size bytes in the file of entry n. */
  ghost function GrowStep(s: Fs, n: nat, size: nat): (r: Option<Table>)
    requires n < |s.table| && s.table[n].next < |s.table|
    ensures r.Some? ==> |r.value| == |s.table|
  {
    var t := s.table;
    if size <= t[n].size then Some(t) else
    var b := LowestFree(t, FirstDataBlock(|t|), BlockLimit(s.size));
    if NeededBlocks(t[n].size) < NeededBlocks(size) && b >= UsableLimit(s.size) then None
    else Grown(t, n, size, b)
  }

  lemma WritableBounds(size: nat, off: nat, n: nat)
    requires off <= size && n <= BLOCK_SIZE
    ensures NeededBlocks(off + n) - NeededBlocks(size) <= 1
    ensures off + n <= NeededBlocks(off + n) * BLOCK_SIZE
  {
  }

  /** The same entries are heads, and all but n are unchanged. */
  ghost predicate OthersKept(t: Table, t': Table, n: nat) {
    && |t| == |t'|
    && (forall i: nat :: IsHead(t', i) <==> IsHead(t, i))
    && (forall i: nat :: i != n && IsHead(t, i) ==> t'[i] == t[i])
  }

  lemma RespareKeeps(t: Table, t': Table, h: nat)
    requires TreeOk(t) && Respare(t, t', h) && Tree(t', {})
    ensures TreeOk(t') && OthersKept(t, t', h)
  {
    RespareHeads(t, t', h, {});
    RespareNames(t, t', h, {});
    RespareAcyclic(t, t', h, {});
    forall i: nat | i != h && IsHead(t, i) ensures t'[i] == t[i] {
      assert EntryOk(t, i) && EntryOk(t, h);
    }
  }

  /** What is left after making room for data in file n. */
  ghost predicate RoomMade(s: Fs, n: nat, size: nat, t': Table) {
    && FsOk(s.(table := t')) && OthersKept(s.table, t', n) && n < |t'|
    && t'[n].file && size <= t'[n].size
    && t'[n].name == s.table[n].name && t'[n].parent == s.table[n].parent
    && t'[n].size == (if s.table[n].size < size then size else s.table[n].size)
    && |t'[n].refs| == |s.table[n].refs|
    && (forall a: nat :: a < NeededBlocks(s.table[n].size) && a < |t'[n].refs| ==>
          t'[n].refs[a] == s.table[n].refs[a])
  }

  /** Growing for a block of data keeps everything. */
  lemma GrowStepOk(s: Fs, n: nat, off: nat, data: seq<byte>)
    requires FsOk(s) && Writable(s, n, off, data)
    ensures s.table[n].next < |s.table|
    ensures match GrowStep(s, n, off + |data|)
            case None => true
            case Some(t') => RoomMade(s, n, off + |data|, t')
  {
    hide RoomMade, FsOk, Grown, Growable, Busy, IsHead, NeededBlocks, LowestFree;
    if s.table[n].size < off + |data| {
      GrowBounds(s, n, off, data);
      if GrowStep(s, n, off + |data|).Some? {
        GrownOk(s, n, off + |data|, LowestFree(s.table, FirstDataBlock(|s.table|), BlockLimit(s.size)));
      }
    } else {
      RoomThere(s, n, off + |data|);
    }
  }

  lemma GrowBounds(s: Fs, n: nat, off: nat, data: seq<byte>)
    requires FsOk(s) && Writable(s, n, off, data) && s.table[n].size < off + |data|
    ensures var t, size, b := s.table, off + |data|, LowestFree(s.table, FirstDataBlock(|s.table|), BlockLimit(s.size));
            && Growable(t, {}, n, size) && FirstDataBlock(|t|) <= b && (b < BlockLimit(s.size) ==> !Busy(t, b))
            && NeededBlocks(size) - NeededBlocks(t[n].size) <= 1
  {
    WritableBounds(s.table[n].size, off, |data|);
  }

  lemma RoomThere(s: Fs, n: nat, size: nat)
    requires FsOk(s) && n < |s.table| && IsHead(s.table, n) && s.table[n].file && size <= s.table[n].size
    ensures RoomMade(s, n, size, s.table)
  {
    assert s.(table := s.table) == s;
  }

  lemma GrownOk(s: Fs, n: nat, size: nat, b: nat)
    requires FsOk(s) && Growable(s.table, {}, n, size) && FirstDataBlock(|s.table|) <= b
    requires NeededBlocks(size) - NeededBlocks(s.table[n].size) <= 1
    requires NeededBlocks(s.table[n].size) < NeededBlocks(size) ==> b < BlockLimit(s.size) && !Busy(s.table, b)
    ensures EntryOk(s.table, n)
    ensures match Grown(s.table, n, size, b)
            case None => true
            case Some(t') => RoomMade(s, n, size, t')
  {
    var t := s.table;
    GrownTree(t, {}, n, size, b);
    GrownOwned(t, {}, n, size, b, BlockLimit(s.size));
    if Grown(t, n, size, b).Some? {
      RespareKeeps(t, Grown(t, n, size, b).value, n);
    }
  }

  // ----- the steps of growing

  lemma {:induction false} LowestFreeSame(t: Table, t1: Table, b: nat, hi: nat)
    requires forall k :: b <= k ==> (Busy(t, k) <==> Busy(t1, k))
    ensures LowestFree(t, b, hi) == LowestFree(t1, b, hi)
    decreases hi - b
  {
    if b < hi {
      LowestFreeSame(t, t1, b + 1, hi);
    }
  }

  /** An entry that a file has can be given more blocks: it starts a chain, and no reference is
      set past its count. */
  ghost predicate Extendable(t: Table, n: nat, size: nat) {
    && n < |t| && t[n].next < |t| && t[n].file && !t[n].dir && Linked(t, ChainOf(t, n))
    && ClearedFrom(t[n].refs, NeededBlocks(t[n].size))
    && (t[n].next != 0 ==> t[t[n].next].refs == Zeros(SFS_ENTRYREFS))
    && t[n].size < size <= SFS_ENTRYREFS * BLOCK_SIZE
  }

  lemma HeadExtendable(t: Table, n: nat, size: nat)
    requires Growable(t, {}, n, size)
    ensures Extendable(t, n, size)
  {
    assert EntryOk(t, n);
    ChainLinked(t, n, {});
    RefCountBounds(t[n]);
  }

  /** A link of a file, which has no link of its own. */
  lemma LinkExtendable(t: Table, n: nat, size: nat)
    requires Tree(t, {}) && IsSpare(t, n) && t[n].file && t[n].size < size <= SFS_ENTRYREFS * BLOCK_SIZE
    ensures Extendable(t, n, size)
  {
    assert EntryOk(t, n) && EntryOk(t, t[n].parent) && SpareOk(t, t[n].parent, n);
    TreeOpen(t, n, {});
  }

  /** The table between set_entry_size and the allocation of the first new block. */
  ghost predicate Sized(t: Table, n: nat, size: nat, t1: Table) {
    Extendable(t, n, size) && Fit(t, n, t[n].(size := size)) == Some(t1)
  }

  lemma ExtendableChain(t: Table, n: nat, size: nat)
    requires Extendable(t, n, size)
    ensures n < |t| && t[n].next < |t| && Shaped(t) && IsChain(t, ChainOf(t, n))
    ensures |t| <= MAX_ENTRIES && Used(t[n]) && Used(t[0]) && (t[n].next != 0 ==> t[n].next != n)
    ensures |t[n].refs| == SFS_ENTRYREFS && ChainOf(t, n)[0] == n
    ensures RefCount(t[n]) == NeededBlocks(t[n].size) <= NeededBlocks(size) <= SFS_ENTRYREFS
    ensures RefCount(t[n].(size := size)) == NeededBlocks(size) > 0
    ensures forall i :: 0 <= i < |t| ==> |t[i].refs| == SFS_ENTRYREFS
  {
    TreelessOpen(t, n);
    OpenChain(t, n);
    NeededMonotone(t[n].size, size);
    forall i | 0 <= i < |t| ensures |t[i].refs| == SFS_ENTRYREFS {
      assert EntryShaped(t, t[i]);
    }
  }

  lemma TreelessOpen(t: Table, n: nat)
    requires n < |t| && t[n].next < |t| && Linked(t, ChainOf(t, n))
    ensures Open(t, n)
  {
    assert ChainOf(t, n)[0] == n && Used(t[ChainOf(t, n)[0]]);
  }

  /** A larger size makes no more blocks busy: the references it takes in are all 0. */
  lemma LargerRefers(e: Entry, e': Entry, b: nat)
    requires e.file && e' == e.(size := e'.size, next := e'.next) && b != 0 && |e.refs| == SFS_ENTRYREFS
    requires ClearedFrom(e.refs, RefCount(e)) && RefCount(e) <= RefCount(e') <= SFS_ENTRYREFS
    ensures Refers(e, b) <==> Refers(e', b)
  {
  }

  lemma EmptyRefers(e: Entry, b: nat)
    requires (!Used(e) || e.refs == Zeros(SFS_ENTRYREFS)) && b != 0
    ensures !Refers(e, b)
  {
  }

  /** Entry i after the sizing: n itself grew, its link is empty, the rest is as it was. */
  lemma SizedEntry(t: Table, n: nat, size: nat, t1: Table, i: nat)
    requires Sized(t, n, size, t1) && i < |t|
    ensures |t1| == |t| && t1[n] == t[n].(size := size, next := t1[n].next)
    ensures i != n ==> t1[i] == t[i]
                       || ((!Used(t[i]) || t[i].refs == Zeros(SFS_ENTRYREFS)) && t1[i].refs == Zeros(SFS_ENTRYREFS))
  {
    ExtendableChain(t, n, size);
  }

  lemma SizedCounts(t: Table, n: nat, size: nat)
    requires Extendable(t, n, size)
    ensures t[n].file && |t[n].refs| == SFS_ENTRYREFS && ClearedFrom(t[n].refs, RefCount(t[n]))
    ensures RefCount(t[n]) <= RefCount(t[n].(size := size)) <= SFS_ENTRYREFS
  {
    ExtendableChain(t, n, size);
  }

  lemma SizedRefers(t: Table, n: nat, size: nat, t1: Table, b: nat, i: nat)
    requires Sized(t, n, size, t1) && b != 0 && i < |t|
    ensures |t1| == |t| && (Refers(t[i], b) <==> Refers(t1[i], b))
  {
    SizedEntry(t, n, size, t1, i);
    SizedCounts(t, n, size);
    hide Sized, Refers, ClearedFrom, Zeros;
    if i == n {
      LargerRefers(t[n], t1[n], b);
    } else if t1[i] != t[i] {
      EmptyRefers(t[i], b);
      EmptyRefers(t1[i], b);
    }
  }

  lemma SizedBusy(t: Table, n: nat, size: nat, t1: Table, b: nat)
    requires Sized(t, n, size, t1) && b != 0
    ensures |t1| == |t| && (Busy(t, b) <==> Busy(t1, b))
  {
    forall i: nat | i < |t| ensures Refers(t[i], b) <==> Refers(t1[i], b) {
      SizedRefers(t, n, size, t1, b, i);
    }
  }

  lemma SizedFree(t: Table, n: nat, size: nat, t1: Table, hi: nat)
    requires Sized(t, n, size, t1)
    ensures |t1| == |t|
    ensures LowestFree(t1, FirstDataBlock(|t1|), hi) == LowestFree(t, FirstDataBlock(|t|), hi)
  {
    forall k | FirstDataBlock(|t|) <= k ensures Busy(t, k) <==> Busy(t1, k) {
      SizedBusy(t, n, size, t1, k);
    }
    LowestFreeSame(t, t1, FirstDataBlock(|t|), hi);
  }

  /** Storing the new references completes the growth. */
  lemma SizedGrown(t: Table, n: nat, size: nat, t1: Table, block: nat)
    requires Sized(t, n, size, t1)
    ensures |t1| == |t| && n < |t1| && |t1[n].refs| == SFS_ENTRYREFS && t1[n].refs == t[n].refs
    ensures Grown(t, n, size, block)
            == Some(t1[n := t1[n].(refs := FillSlots(t[n].refs, NeededBlocks(t[n].size), NeededBlocks(size), block))])
  {
    ExtendableChain(t, n, size);
    var e, e' := t[n].(size := size), GrownHead(t[n], size, block);
    SizedEntry(t, n, size, t1, n);
    FitRefs(t, n, e, e'.refs);
  }

  /** The references of the new head do not matter to its link. */
  lemma FitRefs(t: Table, h: nat, e: Entry, refs: seq<nat>)
    requires h < |t| && t[h].next < |t| && (t[h].next == 0 || t[h].next != h) && Used(t[h])
    ensures match Fit(t, h, e)
            case None => Fit(t, h, e.(refs := refs)) == None
            case Some(t1) => Fit(t, h, e.(refs := refs)) == Some(t1[h := t1[h].(refs := refs)])
  {
    var e' := e.(refs := refs);
    if Fit(t, h, e).Some? {
      var t1, g := Fit(t, h, e).value, Fit(t, h, e').value;
      var g' := t1[h := t1[h].(refs := refs)];
      assert forall i :: 0 <= i < |t| ==> g[i] == g'[i];
      assert g == g';
    }
  }

  /** set_entry_refcount and set_entry_size on a file to be grown. */
  lemma GrowSteps(t: Table, n: nat, size: nat)
    requires Extendable(t, n, size)
    ensures NeededBlocks(t[n].size) <= NeededBlocks(size) <= SFS_ENTRYREFS && n < |t| && t[n].next < |t|
    ensures var c := ChainOf(t, n);
            && Linked(t, c) && c[0] == n
            && match Resize(t, c, NeededBlocks(size))
               case None => Fit(t, n, t[n].(size := size)) == None
               case Some((t2, c2)) =>
                 IsChain(t2, c2) && c2[0] == n && Sized(t, n, size, SetSizes(t2, c2, 0, size))
  {
    ExtendableChain(t, n, size);
    var e, c := t[n].(size := size), ChainOf(t, n);
    assert t[n := e.(size := t[n].size)] == t && c[0] == n;
    assert e == t[n].(refs := e.refs, size := size);
    hide NeededBlocks, RefCount, ChainOf, SetSizes, Resize, IsChain, Shaped, Fit;
    if t[n].next != 0 {
      FitsKept(t, n, e, NeededBlocks(size));
    } else {
      FitsTaken(t, n, e, NeededBlocks(size));
    }
    ResizeLinked(t, c, NeededBlocks(size));
  }
}
