/** The image builder: an entry table and data blocks made from a list of input files by a
    program of its own, which the kernel must be able to read and go on working with. */
module Mkfs {
  import opened NsfsTypes
  import opened NsfsChain
  import opened NsfsTree
  import opened NsfsBlocks
  import opened NsfsState
  import opened NsfsLayout

  datatype Input = Input(name: string, data: seq<byte>)

  const ENTRY_BYTES: nat := 61440  // what the references of one entry hold

  /** What strncpy leaves of a name. */
  function Short(name: string): string {
    if |name| < SFS_NAMESIZE then name else name[..SFS_NAMESIZE - 1]
  }

  // ----- the image, file by file

  /** Entries that a file of n bytes takes. */
  function EntriesFor(n: nat): (m: nat)
    ensures m > 0
  {
    if n == 0 then 1 else (n - 1) / ENTRY_BYTES + 1
  }

  function EntryStart(files: seq<Input>, f: nat): (e: nat)
    requires f <= |files|
    ensures e > f
  {
    if f == 0 then 1 else EntryStart(files, f - 1) + EntriesFor(|files[f - 1].data|)
  }

  function BlockStart(files: seq<Input>, f: nat, boot: nat): (b: nat)
    requires f <= |files|
    ensures b >= boot
  {
    if f == 0 then boot else BlockStart(files, f - 1, boot) + NeededBlocks(|files[f - 1].data|)
  }

  function RefsFrom(b: nat, from: nat, blocks: nat): (refs: seq<nat>)
    ensures |refs| == SFS_ENTRYREFS
    ensures forall a :: 0 <= a < |refs| ==> refs[a] == if from + a < blocks then b + from + a else 0
  {
    seq(SFS_ENTRYREFS, a requires 0 <= a => if from + a < blocks then b + from + a else 0)
  }

  /** Entry number j of the m entries, from e on, of a file of n bytes in blocks from b on. */
  function FileLink(name: string, n: nat, e: nat, b: nat, m: nat, j: nat): Entry
    requires j * ENTRY_BYTES <= n && (j > 0 ==> e > 0)
  {
    Entry(false, true, name, 0, n - j * ENTRY_BYTES,
          if j == 0 then 0 else e + j - 1,
          if j + 1 < m then e + j + 1 else 0,
          RefsFrom(b, j * SFS_ENTRYREFS, NeededBlocks(n)))
  }

  ghost predicate FileLinks(t: Table, e: nat, b: nat, name: string, n: nat, m: nat) {
    && 0 < e && 0 < m && e + m <= |t| && (m - 1) * ENTRY_BYTES <= n
    && forall i :: e <= i < e + m ==> LinkAt(t, e, b, name, n, m, i)
  }

  ghost predicate LinkAt(t: Table, e: nat, b: nat, name: string, n: nat, m: nat, i: nat) {
    0 < e <= i < |t| && (i - e) * ENTRY_BYTES <= n && t[i] == FileLink(name, n, e, b, m, i - e)
  }

  ghost predicate FileBlocks(disk: Disk, b: nat, data: seq<byte>) {
    && b + NeededBlocks(|data|) <= |disk|
    && forall k :: 0 <= k < |data| ==> ByteAt(disk, b, k, data[k])
  }

  ghost predicate ByteAt(disk: Disk, b: nat, k: nat, x: byte) {
    b + k / BLOCK_SIZE < |disk| && k % BLOCK_SIZE < |disk[b + k / BLOCK_SIZE]|
    && disk[b + k / BLOCK_SIZE][k % BLOCK_SIZE] == x
  }

  // ----- one more block

  lemma Counting(pos: nat, cc: nat)
    requires pos % BLOCK_SIZE == 0 && 0 < cc <= BLOCK_SIZE
    ensures NeededBlocks(pos) == pos / BLOCK_SIZE && NeededBlocks(pos + cc) == pos / BLOCK_SIZE + 1
    ensures pos / ENTRY_BYTES == pos / BLOCK_SIZE / SFS_ENTRYREFS
    ensures EntriesFor(pos + cc) == pos / ENTRY_BYTES + 1
    ensures EntriesFor(pos) == if pos % ENTRY_BYTES == 0 && pos > 0 then pos / ENTRY_BYTES else pos / ENTRY_BYTES + 1
  {
  }

  /** A new link, so far empty, goes behind the last one when that is full. */
  lemma LinkAdded(t: Table, e: nat, b: nat, name: string, n: nat, m: nat)
    requires FileLinks(t, e, b, name, n, m) && n == m * ENTRY_BYTES && e + m < |t| && t[e + m] == Zero()
    ensures FileLinks(t[e + m := Zero().(file := true, name := name, parent := e + m - 1)]
                       [e + m - 1 := t[e + m - 1].(next := e + m)], e, b, name, n, m + 1)
  {
    var t' := t[e + m := Zero().(file := true, name := name, parent := e + m - 1)]
               [e + m - 1 := t[e + m - 1].(next := e + m)];
    var m' := m + 1;
    forall i | e <= i < e + m' ensures LinkAt(t', e, b, name, n, m', i) {
      if i < e + m {
        assert LinkAt(t, e, b, name, n, m, i);
      } else {
        assert NeededBlocks(n) == m * SFS_ENTRYREFS;
        assert RefsFrom(b, m * SFS_ENTRYREFS, NeededBlocks(n)) == Zeros(SFS_ENTRYREFS);
      }
    }
  }

  /** t with cc added to the sizes of entries lo to hi. */
  ghost predicate SizesAdded(t: Table, t': Table, lo: nat, hi: int, cc: nat) {
    && |t'| == |t| && hi < |t|
    && forall i :: 0 <= i < |t| ==> t'[i] == if lo <= i <= hi then t[i].(size := t[i].size + cc) else t[i]
  }

  /** The next reference goes into the last link, and the sizes of all links grow. */
  lemma RefAdded(t: Table, t': Table, e: nat, b: nat, name: string, n: nat, m: nat, cc: nat)
    requires FileLinks(t, e, b, name, n, m) && n % BLOCK_SIZE == 0 && 0 < cc <= BLOCK_SIZE
    requires n / ENTRY_BYTES == m - 1
    ensures |t[e + m - 1].refs| == SFS_ENTRYREFS
    ensures var k, ec := n / BLOCK_SIZE, e + m - 1;
            var t1 := t[ec := t[ec].(refs := t[ec].refs[k % SFS_ENTRYREFS := b + k])];
            SizesAdded(t1, t', e, ec, cc) ==> FileLinks(t', e, b, name, n + cc, m)
  {
    var k, ec := n / BLOCK_SIZE, e + m - 1;
    assert LinkAt(t, e, b, name, n, m, ec);
    var t1 := t[ec := t[ec].(refs := t[ec].refs[k % SFS_ENTRYREFS := b + k])];
    Counting(n, cc);
    if SizesAdded(t1, t', e, ec, cc) {
      var n' := n + cc;
      forall i | e <= i < e + m ensures LinkAt(t', e, b, name, n', m, i) {
        assert LinkAt(t, e, b, name, n, m, i);
        RefsGrow(b, (i - e) * SFS_ENTRYREFS, k, i == ec);
      }
    }
  }

  lemma RefsGrow(b: nat, from: nat, k: nat, last: bool)
    requires from % SFS_ENTRYREFS == 0
    requires if last then from <= k < from + SFS_ENTRYREFS else from + SFS_ENTRYREFS <= k
    ensures RefsFrom(b, from, k + 1) ==
            if last then RefsFrom(b, from, k)[k % SFS_ENTRYREFS := b + k] else RefsFrom(b, from, k)
  {
    assert last ==> k % SFS_ENTRYREFS == k - from;
  }

  lemma BlockAdded(disk: Disk, b: nat, data: seq<byte>, pos: nat, cc: nat, buf: seq<byte>)
    requires pos % BLOCK_SIZE == 0 && 0 < cc <= BLOCK_SIZE && pos + cc <= |data| && |buf| == BLOCK_SIZE
    requires FileBlocks(disk, b, data[..pos]) && b + pos / BLOCK_SIZE < |disk|
    requires buf[..cc] == data[pos..pos + cc]
    ensures FileBlocks(disk[b + pos / BLOCK_SIZE := buf], b, data[..pos + cc])
  {
    Counting(pos, cc);
    var disk' := disk[b + pos / BLOCK_SIZE := buf];
    forall k | 0 <= k < pos + cc ensures ByteAt(disk', b, k, data[k]) {
      if k < pos {
        assert ByteAt(disk, b, k, data[..pos][k]);
      } else {
        assert buf[..cc][k - pos] == data[pos..pos + cc][k - pos];
      }
    }
  }

  // ----- the program

  ghost predicate ZeroFrom(t: Table, n: nat) {
    forall x :: n <= x < |t| ==> t[x] == Zero()
  }

  /** The first pos bytes of a file are in the image. */
  ghost predicate Building(t: Table, disk: Disk, e: nat, b: nat, name: string, data: seq<byte>, pos: nat) {
    && pos <= |data| && FileLinks(t, e, b, name, pos, EntriesFor(pos)) && FileBlocks(disk, b, data[..pos])
    && ZeroFrom(t, e + EntriesFor(pos)) && DiskOk(disk)
  }

  /** What copying a file leaves alone. */
  ghost predicate Before(t: Table, t': Table, e: nat, disk: Disk, disk': Disk, b: nat) {
    && |t'| == |t| && |disk'| == |disk|
    && (forall x :: 0 <= x < |t| && x < e ==> t'[x] == t[x])
    && (forall x :: 0 <= x < |disk| && x < b ==> disk'[x] == disk[x])
  }

  lemma StartFile(t: Table, disk: Disk, e: nat, b: nat, name: string, data: seq<byte>)
    requires 0 < e < |t| && ZeroFrom(t, e) && b <= |disk| && DiskOk(disk)
    ensures Building(t[e := Zero().(file := true, name := name)], disk, e, b, name, data, 0)
  {
    var t' := t[e := Zero().(file := true, name := name)];
    assert RefsFrom(b, 0, 0) == Zeros(SFS_ENTRYREFS);
    var m := EntriesFor(0);
    assert LinkAt(t', e, b, name, 0, m, e);
    assert data[..0] == [];
  }

  /** The entry index and position for the next reference, and whether the link is there. */
  lemma NextSlot(t: Table, disk: Disk, e: nat, b: nat, name: string, data: seq<byte>, pos: nat)
    requires Building(t, disk, e, b, name, data, pos) && pos % BLOCK_SIZE == 0
    requires e + EntriesFor(pos + 1) <= |t| && name != ""
    ensures var m, ec := EntriesFor(pos), e + t[e].size / ENTRY_BYTES;
            && e < |t| && ec < |t| && t[e].size == pos && t[e].name == name
            && EntriesFor(pos + 1) == pos / ENTRY_BYTES + 1
            && (e != ec && t[ec].name == "" <==> pos == m * ENTRY_BYTES)
            && (pos == m * ENTRY_BYTES ==> ec == e + m && t[ec] == Zero() && LinkAt(t, e, b, name, pos, m, ec - 1))
            && (pos != m * ENTRY_BYTES ==> ec == e + m - 1)
            && pos / ENTRY_BYTES == if pos == m * ENTRY_BYTES then m else m - 1
  {
    var m := EntriesFor(pos);
    assert LinkAt(t, e, b, name, pos, m, e);
    Counting(pos, 1);
    if pos == m * ENTRY_BYTES {
      var last := e + m - 1;
      assert LinkAt(t, e, b, name, pos, m, last);
    } else {
      var last := e + m - 1;
      assert LinkAt(t, e, b, name, pos, m, last);
    }
  }

  class Builder {
    var entries: Table  // the entry table
    var image: Disk     // the output file

    method WriteBlock(b: nat, buf: seq<byte>)
      requires b < |image|
      modifies this`image
      ensures image == old(image)[b := buf]
    {
      image := image[b := buf];
    }

    /** Adds cc to the sizes of entries e to ec0. */
    method AddSizes(e: nat, ec0: nat, cc: nat)
      requires 0 < e <= ec0 < |entries|
      modifies this`entries
      ensures SizesAdded(old(entries), entries, e, ec0, cc)
    {
      var ec := ec0;
      while ec >= e
        invariant e - 1 <= ec <= ec0 && |entries| == |old(entries)|
        invariant SizesAdded(old(entries), entries, ec + 1, ec0, cc)
        decreases ec
      {
        entries := entries[ec := entries[ec].(size := entries[ec].size + cc)];
        ec := ec - 1;
      }
    }

    /** One turn of the copying loop: the block buf, of which cc bytes were read, goes to block b. */
    method AddBlock(e: nat, b: nat, i0: nat, cc: nat, buf: seq<byte>,
                    ghost b0: nat, ghost name: string, ghost data: seq<byte>, ghost pos: nat)
      returns (i: nat)
      requires Building(entries, image, e, b0, name, data, pos) && pos % BLOCK_SIZE == 0
      requires name != "" && Short(name) == name
      requires 0 < cc <= BLOCK_SIZE && pos + cc <= |data| && |buf| == BLOCK_SIZE && buf[..cc] == data[pos..pos + cc]
      requires b == b0 + pos / BLOCK_SIZE < |image| && e + EntriesFor(pos + cc) <= |entries|
      requires i0 == pos / BLOCK_SIZE - (EntriesFor(pos) - 1) * SFS_ENTRYREFS
      modifies this
      ensures Building(entries, image, e, b0, name, data, pos + cc)
      ensures Before(old(entries), entries, e, old(image), image, b)
      ensures i == pos / BLOCK_SIZE + 1 - (EntriesFor(pos + cc) - 1) * SFS_ENTRYREFS
    {
      hide FileLinks, FileBlocks, SizesAdded, EntriesFor, LinkAt, Short;
      Counting(pos, cc);
      Counting(pos, 1);
      var ec;
      ec, i := PickLink(e, i0, b0, name, data, pos);
      ghost var t := entries;
      var k := pos / BLOCK_SIZE;
      LinkShape(t, e, b0, name, pos, pos / ENTRY_BYTES + 1, ec);
      entries := entries[ec := entries[ec].(refs := entries[ec].refs[i := b])];
      BlockAdded(image, b0, data, pos, cc, buf);
      WriteBlock(entries[ec].refs[i], buf);
      ghost var t1 := entries;
      AddSizes(e, ec, cc);
      i := i + 1;
      RefAdded(t, entries, e, b0, name, pos, pos / ENTRY_BYTES + 1, cc);
      SizesElsewhere(t, t1, entries, e, ec, cc);
    }

    /** The link for the next reference, made if the file has filled all it has, and the
        position of the reference in it. */
    method PickLink(e: nat, i0: nat, ghost b0: nat, ghost name: string, ghost data: seq<byte>, ghost pos: nat)
      returns (ec: nat, i: nat)
      requires Building(entries, image, e, b0, name, data, pos) && pos % BLOCK_SIZE == 0
      requires name != "" && Short(name) == name
      requires pos < |data| && e + EntriesFor(pos + 1) <= |entries|
      requires i0 == pos / BLOCK_SIZE - (EntriesFor(pos) - 1) * SFS_ENTRYREFS
      modifies this`entries
      ensures var m := pos / ENTRY_BYTES + 1;
              && FileLinks(entries, e, b0, name, pos, m) && ZeroFrom(entries, e + m) && ec == e + m - 1
      ensures i == pos / BLOCK_SIZE % SFS_ENTRYREFS
      ensures |entries| == |old(entries)| && forall x :: 0 <= x < |entries| && x < e ==> entries[x] == old(entries)[x]
    {
      hide FileBlocks, DiskOk, EntriesFor, FileLinks, LinkAt;
      NextSlot(entries, image, e, b0, name, data, pos);
      Counting(pos, 1);
      ec := e + entries[e].size / ENTRY_BYTES;
      i := i0;
      if e != ec && entries[ec].name == "" {
        LinkAdded(entries, e, b0, name, pos, EntriesFor(pos));
        entries := entries[ec := entries[ec].(name := Short(entries[e].name))];
        entries := entries[ec - 1 := entries[ec - 1].(next := ec)];
        entries := entries[ec := entries[ec].(dir := false, file := true, time := 0, size := 0,
                                              parent := ec - 1, next := 0)];
        i := 0;
        assert entries == old(entries)[ec := Zero().(file := true, name := name, parent := ec - 1)]
                                      [ec - 1 := old(entries)[ec - 1].(next := ec)];
      }
    }

    /** Copies one input file to the image; e0 is the next entry and b0 the next block. */
    method CopyFile(e0: nat, b0: nat, name: string, data: seq<byte>, buf0: seq<byte>)
      returns (e: nat, b: nat, buf: seq<byte>)
      requires 0 < e0 && ZeroFrom(entries, e0) && e0 + EntriesFor(|data|) < |entries|
      requires b0 + NeededBlocks(|data|) <= |image| && DiskOk(image) && name != "" && |buf0| == BLOCK_SIZE
      modifies this
      ensures e == e0 + EntriesFor(|data|) && b == b0 + NeededBlocks(|data|) && |buf| == BLOCK_SIZE
      ensures Building(entries, image, e0, b0, Short(name), data, |data|) && DiskOk(image)
      ensures Before(old(entries), entries, e0, old(image), image, b0)
    {
      hide FileLinks, FileBlocks, LinkAt, Building, EntriesFor;
      buf, e, b := buf0, e0, b0;
      StartFile(entries, image, e, b, Short(name), data);
      CountingStart();
      entries := entries[e := entries[e].(name := Short(name))];
      entries := entries[e := entries[e].(dir := false, file := true, time := 0, size := 0, parent := 0, next := 0)];
      var i, pos := 0, 0;
      assert entries == old(entries)[e := Zero().(file := true, name := Short(name))];
      while pos < |data|
        invariant pos <= |data| && (pos < |data| ==> pos % BLOCK_SIZE == 0) && |buf| == BLOCK_SIZE
        invariant Building(entries, image, e, b0, Short(name), data, pos)
        invariant b == b0 + NeededBlocks(pos) && i == NeededBlocks(pos) - (EntriesFor(pos) - 1) * SFS_ENTRYREFS
        invariant Before(old(entries), entries, e0, old(image), image, b0)
      {
        var cc := Min(BLOCK_SIZE, |data| - pos);
        buf := data[pos..pos + cc] + buf[cc..];
        Counting(pos, cc);
        CountingUp(pos + cc, |data|);
        i := AddBlock(e, b, i, cc, buf, b0, Short(name), data, pos);
        pos := pos + cc;
        b := b + 1;
      }
      BuiltNames(entries, image, e0, b0, Short(name), data);
      while entries[e].name != ""
        invariant e0 <= e <= e0 + EntriesFor(|data|)
        decreases e0 + EntriesFor(|data|) - e
      {
        e := e + 1;
      }
    }

    /** The image for the input files, of so many blocks: boot sector, super block, entry table
        and the files one after the other. */
    method Make(files: seq<Input>, blocks: nat, boot: seq<byte>)
      requires Fits(files, blocks) && |boot| == BLOCK_SIZE
      modifies this
      ensures Made(files, blocks, entries, image)
      ensures image[0] == boot && Holds(Flat(image), entries, image, blocks)
      ensures SuperSays(Flat(image), blocks, |entries|) && Boots(Flat(image), files)
    {
      hide Building, FileMade, EntriesFor, NeededBlocks, SuperBlock, Holds, Flat, SuperSays, Boots;
      var numentries := NumEntries(blocks);
      image := seq(blocks, i => seq(BLOCK_SIZE, _ => 0));
      WriteBlock(0, boot);
      var bootstart := 2 + numentries * RECORD_SIZE / BLOCK_SIZE;
      var buf := SuperBlock(blocks, numentries, bootstart);
      WriteBlock(1, buf);
      entries := seq(numentries, _ => Zero());
      var e, b := 0, bootstart;
      entries := entries[e := entries[e].(name := Short(ROOT_DIR_NAME))];
      entries := entries[e := entries[e].(dir := true, file := false, time := 0, size := |files|,
                                          parent := 0, next := 0)];
      e := e + 1;
      RootNone(files);
      AddFiles(files, blocks, e, b, buf);
      WriteTable(files, blocks);
    }

    /** The loop over the input files, with entry and block that come next. */
    method AddFiles(files: seq<Input>, ghost blocks: nat, entry: nat, block: nat, buffer: seq<byte>)
      requires Fits(files, blocks) && |entries| == NumEntries(blocks) && |image| == blocks && DiskOk(image)
      requires entry == 1 && block == FirstDataBlock(|entries|) && |buffer| == BLOCK_SIZE && 2 <= blocks
      requires Upto(files, 0, entries, image, block)
      modifies this
      ensures Made(files, blocks, entries, image) && image[0] == old(image[0]) && image[1] == old(image[1])
    {
      hide Building, FileMade, EntriesFor, NeededBlocks;
      var e, b, buf := entry, block, buffer;
      ghost var boot := block;
      for f := 0 to |files|
        invariant e == EntryStart(files, f) && b == BlockStart(files, f, boot)
        invariant |entries| == NumEntries(blocks) && |image| == blocks && |buf| == BLOCK_SIZE && DiskOk(image)
        invariant image[0] == old(image[0]) && image[1] == old(image[1])
        invariant Upto(files, f, entries, image, boot)
      {
        ghost var t0, disk := entries, image;
        entries := entries[0 := entries[0].(refs := entries[0].refs[f := e])];
        ghost var t := entries;
        RootMore(files, f, t0, t, disk, boot);
        StartsUp(files, f + 1, |files|, boot);
        e, b, buf := CopyFile(e, b, files[f].name, files[f].data, buf);
        UptoMore(files, f, t, disk, entries, image, boot);
      }
    }

    /** Writes the entries table, from block 2 on. */
    method WriteTable(ghost files: seq<Input>, ghost blocks: nat)
      requires Fits(files, blocks) && Made(files, blocks, entries, image)
      requires image[1] == SuperBlock(blocks, |entries|, 2 + |entries|)
      modifies this`image
      ensures Made(files, blocks, entries, image)
      ensures image[0] == old(image[0]) && Holds(Flat(image), entries, image, blocks)
      ensures SuperSays(Flat(image), blocks, |entries|) && Boots(Flat(image), files)
    {
      hide Encode, SuperBlock, Encodable, FileMade, Root, NumEntries, EntryStart, BlockStart, Flat, SuperSays, Boots;
      AllEncodable(files, blocks, entries, image);
      ghost var disk := image;
      for n := 0 to |entries|
        invariant |image| == |disk| && DiskOk(image)
        invariant forall b :: 0 <= b < |disk| && !(2 <= b < 2 + n) ==> image[b] == disk[b]
        invariant forall i: nat :: i < n ==> image[2 + i] == Encode(entries[i])
      {
        WriteBlock(2 + n, Encode(entries[n]));
      }
      MadeKept(files, blocks, entries, disk, image);
      TableHeld(entries, image, blocks);
      SuperHeld(entries, image, blocks);
      FirstBoots(files, blocks, entries, image);
    }
  }

  // ----- the whole image

  function NumEntries(blocks: nat): nat {
    Min(blocks * BLOCK_SIZE / 10 / RECORD_SIZE, MAX_ENTRIES)
  }

  predicate ByteName(name: string) {
    name != "" && forall k :: 0 <= k < |name| ==> 0 as char < name[k] < 256 as char
  }

  /** The input files fit: the root directory takes them, the table has an entry to spare, and
      the data blocks end within the image. */
  ghost predicate Fits(files: seq<Input>, blocks: nat) {
    && |files| <= SFS_ENTRYREFS && blocks <= 0x1_0000
    && (forall f :: 0 <= f < |files| ==> ByteName(files[f].name))
    && EntryStart(files, |files|) < NumEntries(blocks)
    && BlockStart(files, |files|, FirstDataBlock(NumEntries(blocks))) <= blocks
  }

  /** The root directory after g files. */
  function Root(files: seq<Input>, g: nat): Entry
    requires g <= |files|
  {
    Entry(true, false, ROOT_DIR_NAME, 0, |files|, 0, 0,
          seq(SFS_ENTRYREFS, f requires 0 <= f => if f < g then EntryStart(files, f) else 0))
  }

  ghost predicate FileMade(files: seq<Input>, f: nat, t: Table, disk: Disk, boot: nat) {
    && f < |files|
    && FileLinks(t, EntryStart(files, f), BlockStart(files, f, boot), Short(files[f].name), |files[f].data|,
                 EntriesFor(|files[f].data|))
    && FileBlocks(disk, BlockStart(files, f, boot), files[f].data)
  }

  /** The first g files are in the image. */
  ghost predicate Upto(files: seq<Input>, g: nat, t: Table, disk: Disk, boot: nat) {
    && g <= |files| && 0 < |t| && t[0] == Root(files, g)
    && (forall f: nat :: f < g ==> FileMade(files, f, t, disk, boot))
    && ZeroFrom(t, EntryStart(files, g))
  }

  ghost predicate Made(files: seq<Input>, blocks: nat, t: Table, disk: Disk) {
    && |t| == NumEntries(blocks) && |disk| == blocks && DiskOk(disk)
    && Upto(files, |files|, t, disk, FirstDataBlock(|t|))
  }

  lemma RootNone(files: seq<Input>)
    ensures Root(files, 0) == Zero().(dir := true, name := Short(ROOT_DIR_NAME), size := |files|)
  {
    assert Root(files, 0).refs == Zeros(SFS_ENTRYREFS);
  }

  lemma RootMore(files: seq<Input>, f: nat, t0: Table, t: Table, disk: Disk, boot: nat)
    requires Upto(files, f, t0, disk, boot) && f < |files| <= SFS_ENTRYREFS
    requires t == t0[0 := t0[0].(refs := t0[0].refs[f := EntryStart(files, f)])]
    ensures t[0] == Root(files, f + 1)
    ensures forall g: nat :: g < f ==> FileMade(files, g, t, disk, boot)
    ensures ZeroFrom(t, EntryStart(files, f))
  {
    assert t[0].refs == Root(files, f + 1).refs;
    forall g: nat | g < f ensures FileMade(files, g, t, disk, boot) {
      assert FileMade(files, g, t0, disk, boot);
      FileKept(files, g, t0, t, disk, disk, boot);
    }
  }

  /** A file stays in the image as long as its entries and blocks do. */
  lemma FileKept(files: seq<Input>, f: nat, t: Table, t': Table, disk: Disk, disk': Disk, boot: nat)
    requires FileMade(files, f, t, disk, boot) && |t'| == |t| && |disk'| == |disk|
    requires forall x :: EntryStart(files, f) <= x < EntryStart(files, f + 1) && x < |t| ==> t'[x] == t[x]
    requires forall x :: BlockStart(files, f, boot) <= x < BlockStart(files, f + 1, boot) && x < |disk| ==>
               disk'[x] == disk[x]
    ensures FileMade(files, f, t', disk', boot)
  {
    var e, b, name, data := EntryStart(files, f), BlockStart(files, f, boot), Short(files[f].name), files[f].data;
    var n, m := |data|, EntriesFor(|data|);
    forall i | e <= i < e + m ensures LinkAt(t', e, b, name, n, m, i) {
      assert LinkAt(t, e, b, name, n, m, i);
    }
    forall k | 0 <= k < |data| ensures ByteAt(disk', b, k, data[k]) {
      assert ByteAt(disk, b, k, data[k]) && InBlocks(k, |data|);
    }
  }

  lemma {:induction false} StartsUp(files: seq<Input>, f: nat, g: nat, boot: nat)
    requires f <= g <= |files|
    ensures EntryStart(files, f) + (g - f) <= EntryStart(files, g)
    ensures BlockStart(files, f, boot) <= BlockStart(files, g, boot)
    decreases g - f
  {
    if f < g {
      StartsUp(files, f, g - 1, boot);
    }
  }

  lemma UptoMore(files: seq<Input>, f: nat, t: Table, disk: Disk, t': Table, disk': Disk, boot: nat)
    requires f < |files| && 0 < |t| && t[0] == Root(files, f + 1)
    requires forall g: nat :: g < f ==> FileMade(files, g, t, disk, boot)
    requires var e, b := EntryStart(files, f), BlockStart(files, f, boot);
             && Building(t', disk', e, b, Short(files[f].name), files[f].data, |files[f].data|)
             && Before(t, t', e, disk, disk', b)
    ensures Upto(files, f + 1, t', disk', boot)
  {
    hide FileMade, Building, Root;
    BuiltMade(files, f, t', disk', boot);
    forall g: nat | g < f ensures FileMade(files, g, t', disk', boot) {
      StartsUp(files, g + 1, f, boot);
      FileKept(files, g, t, t', disk, disk', boot);
    }
  }

  lemma BuiltMade(files: seq<Input>, f: nat, t: Table, disk: Disk, boot: nat)
    requires f < |files|
    requires Building(t, disk, EntryStart(files, f), BlockStart(files, f, boot), Short(files[f].name),
                      files[f].data, |files[f].data|)
    ensures FileMade(files, f, t, disk, boot) && ZeroFrom(t, EntryStart(files, f + 1))
  {
    assert files[f].data[..|files[f].data|] == files[f].data;
  }

  /** Changing blocks before the data blocks does not touch the files. */
  lemma MadeKept(files: seq<Input>, blocks: nat, t: Table, disk: Disk, disk': Disk)
    requires Made(files, blocks, t, disk) && |disk'| == |disk| && DiskOk(disk')
    requires forall b :: FirstDataBlock(|t|) <= b < |disk| ==> disk'[b] == disk[b]
    ensures Made(files, blocks, t, disk')
  {
    var boot := FirstDataBlock(|t|);
    forall f: nat | f < |files| ensures FileMade(files, f, t, disk', boot) {
      FileKept(files, f, t, t, disk, disk', boot);
    }
  }

  // ----- the bytes of the image

  function SuperBlock(blocks: nat, nentries: nat, bootstart: nat): (b: seq<byte>)
    requires blocks < 0x1_0000_0000 && nentries < 0x1_0000_0000 && bootstart < 0x1_0000_0000
    ensures |b| == BLOCK_SIZE
  {
    Le32(SFS_TYPE_ID) + Le32(blocks) + Le32(nentries) + Le32(bootstart) + seq(496, _ => 0)
  }

  function Flat(disk: Disk): seq<byte> {
    if disk == [] then [] else disk[0] + Flat(disk[1..])
  }

  lemma {:induction false} FlatBlock(disk: Disk, b: nat)
    requires DiskOk(disk)
    ensures |Flat(disk)| == |disk| * BLOCK_SIZE
    ensures b < |disk| ==> Block(Flat(disk), b) == disk[b]
  {
    if disk != [] {
      FlatBlock(disk[1..], if b == 0 then 0 else b - 1);
      if 0 < b < |disk| {
        assert Block(Flat(disk), b) == Block(Flat(disk[1..]), b - 1);
      }
    }
  }

  lemma TableHeld(t: Table, image: Disk, blocks: nat)
    requires DiskOk(image) && 2 + |t| <= |image| == blocks <= 0x1_0000
    requires forall n: nat :: n < |t| ==> Encodable(t[n]) && image[2 + n] == Encode(t[n])
    requires image[1] == SuperBlock(blocks, |t|, 2 + |t|)
    ensures Holds(Flat(image), t, image, blocks)
  {
    hide Encode, Encodable, Block, Flat, Le32;
    FlatBlock(image, 1);
    assert image[1][..12] == Le32(SFS_TYPE_ID) + Le32(blocks) + Le32(|t|);
    forall n: nat | n < |t| ensures Block(Flat(image), 2 + n) == Encode(t[n]) {
      FlatBlock(image, 2 + n);
    }
    forall b: nat | b < |image| && IsContent(|t|, b) ensures Block(Flat(image), b) == image[b] {
      FlatBlock(image, b);
    }
  }

  /** The fields of the super block, as the bytes of the image have them. */
  predicate SuperSays(f: seq<byte>, blocks: nat, nentries: nat) {
    && 2 * BLOCK_SIZE <= |f| == blocks * BLOCK_SIZE
    && Word32(f, BLOCK_SIZE) == 0x05F50010 && Word32(f, BLOCK_SIZE + 4) == blocks
    && Word32(f, BLOCK_SIZE + 8) == nentries && Word32(f, BLOCK_SIZE + 12) == 2 + nentries
  }

  /** What the boot sector relies on: from the block that the word at offset 12 of the super block
      says, the bytes of the first file follow one another. */
  predicate Boots(f: seq<byte>, files: seq<Input>) {
    && 2 * BLOCK_SIZE <= |f|
    && var start := (f[BLOCK_SIZE + 12] as nat + 0x100 * f[BLOCK_SIZE + 13] as nat) * BLOCK_SIZE;
       files != [] ==> start + |files[0].data| <= |f| && f[start..start + |files[0].data|] == files[0].data
  }

  lemma SuperHeld(t: Table, image: Disk, blocks: nat)
    requires DiskOk(image) && 2 + |t| <= |image| == blocks <= 0x1_0000
    requires image[1] == SuperBlock(blocks, |t|, 2 + |t|)
    ensures SuperSays(Flat(image), blocks, |t|)
  {
    hide Flat, Le32;
    var f, b := Flat(image), image[1];
    FlatBlock(image, 1);
    assert b == f[BLOCK_SIZE..2 * BLOCK_SIZE];
    assert b[0..4] == Le32(SFS_TYPE_ID) && b[4..8] == Le32(blocks);
    assert b[8..12] == Le32(|t|) && b[12..16] == Le32(2 + |t|);
    var lo, hi := BLOCK_SIZE, 2 * BLOCK_SIZE;
    SliceSlice(f, lo, hi, 0, 4);
    SliceSlice(f, lo, hi, 4, 8);
    SliceSlice(f, lo, hi, 8, 12);
    SliceSlice(f, lo, hi, 12, 16);
    Le32Word(SFS_TYPE_ID, f, BLOCK_SIZE);
    Le32Word(blocks, f, BLOCK_SIZE + 4);
    Le32Word(|t|, f, BLOCK_SIZE + 8);
    Le32Word(2 + |t|, f, BLOCK_SIZE + 12);
  }

  lemma FirstBoots(files: seq<Input>, blocks: nat, t: Table, image: Disk)
    requires Made(files, blocks, t, image) && SuperSays(Flat(image), blocks, |t|)
    ensures Boots(Flat(image), files)
  {
    hide Flat, Made;
    var f := Flat(image);
    DiskIs(files, blocks, t, image);
    TableShare(blocks);
    assert f[BLOCK_SIZE + 12] as nat + 0x100 * f[BLOCK_SIZE + 13] as nat == 2 + |t|;
    if files != [] {
      BootConsecutive(files, blocks, t, image);
      FlatFrom(image, 2 + |t|, files[0].data);
    }
  }

  lemma DiskIs(files: seq<Input>, blocks: nat, t: Table, image: Disk)
    requires Made(files, blocks, t, image)
    ensures DiskOk(image) && |t| == NumEntries(blocks)
  {
  }

  lemma FlatFrom(disk: Disk, b: nat, data: seq<byte>)
    requires DiskOk(disk) && b + NeededBlocks(|data|) <= |disk|
    requires forall k :: 0 <= k < |data| ==>
               InBlocks(k, |data|) && disk[b + k / BLOCK_SIZE][k % BLOCK_SIZE] == data[k]
    ensures b * BLOCK_SIZE + |data| <= |Flat(disk)| && Flat(disk)[b * BLOCK_SIZE..b * BLOCK_SIZE + |data|] == data
  {
    hide Flat;
    FlatBlock(disk, 0);
    var f, at := Flat(disk), b * BLOCK_SIZE;
    assert |data| <= NeededBlocks(|data|) * BLOCK_SIZE;
    forall k | 0 <= k < |data| ensures f[at..at + |data|][k] == data[k] {
      assert InBlocks(k, |data|);
      FlatBlock(disk, b + k / BLOCK_SIZE);
      assert Block(f, b + k / BLOCK_SIZE)[k % BLOCK_SIZE] == f[at + k];
    }
  }

  /** The table takes a tenth of the blocks, rounded down, and no more than 4096 of them. */
  lemma TableShare(blocks: nat)
    ensures var n := NumEntries(blocks);
            n <= MAX_ENTRIES && 10 * n <= blocks && (n < MAX_ENTRIES ==> blocks < 10 * (n + 1))
  {
  }

  lemma AllEncodable(files: seq<Input>, blocks: nat, t: Table, disk: Disk)
    requires Fits(files, blocks) && Made(files, blocks, t, disk)
    ensures forall i: nat :: i < |t| ==> Encodable(t[i])
    ensures FirstDataBlock(|t|) <= |disk|
  {
    StartsUp(files, 0, |files|, FirstDataBlock(|t|));
    forall i: nat | i < |t| ensures Encodable(t[i]) {
      if i < EntryStart(files, |files|) {
        UptoEncodable(files, |files|, blocks, t, disk, i);
      }
    }
  }

  lemma {:induction false} UptoEncodable(files: seq<Input>, g: nat, blocks: nat, t: Table, disk: Disk, i: nat)
    requires Fits(files, blocks) && Made(files, blocks, t, disk) && g <= |files| && i < |t| && i < EntryStart(files, g)
    ensures Encodable(t[i])
  {
    StartsUp(files, g, |files|, FirstDataBlock(|t|));
    if g == 0 {
      assert t[0] == Root(files, |files|);
      forall f: nat | f < |files| ensures EntryStart(files, f) < 0x1_0000 {
        StartsUp(files, f, |files|, 0);
      }
    } else if i < EntryStart(files, g - 1) {
      UptoEncodable(files, g - 1, blocks, t, disk, i);
    } else {
      assert FileMade(files, g - 1, t, disk, FirstDataBlock(|t|));
      LinkEncodable(t, EntryStart(files, g - 1), BlockStart(files, g - 1, FirstDataBlock(|t|)), files[g - 1].name,
                    |files[g - 1].data|, i);
    }
  }

  lemma LinkEncodable(t: Table, e: nat, b: nat, name: string, n: nat, i: nat)
    requires FileLinks(t, e, b, Short(name), n, EntriesFor(n)) && e <= i < e + EntriesFor(n)
    requires |t| <= MAX_ENTRIES && ByteName(name) && b + NeededBlocks(n) <= 0x1_0000
    ensures Encodable(t[i])
  {
    var m := EntriesFor(n);
    assert LinkAt(t, e, b, Short(name), n, m, i);
  }

  lemma CountingStart()
    ensures EntriesFor(0) == 1 && NeededBlocks(0) == 0
  {
  }

  lemma CountingUp(n: nat, m: nat)
    requires n <= m
    ensures NeededBlocks(n) <= NeededBlocks(m) && EntriesFor(n) <= EntriesFor(m)
  {
  }

  lemma BuiltNames(t: Table, disk: Disk, e: nat, b: nat, name: string, data: seq<byte>)
    requires Building(t, disk, e, b, name, data, |data|) && name != "" && e + EntriesFor(|data|) < |t|
    ensures forall i :: e <= i < e + EntriesFor(|data|) ==> t[i].name != ""
    ensures t[e + EntriesFor(|data|)].name == "" && DiskOk(disk)
  {
    forall i | e <= i < e + EntriesFor(|data|) ensures t[i].name != "" {
      assert LinkAt(t, e, b, name, |data|, EntriesFor(|data|), i);
    }
  }

  lemma LinkShape(t: Table, e: nat, b: nat, name: string, n: nat, m: nat, ec: nat)
    requires FileLinks(t, e, b, name, n, m) && ec == e + m - 1
    ensures 0 < e <= ec < |t| && |t[ec].refs| == SFS_ENTRYREFS
  {
    assert LinkAt(t, e, b, name, n, m, ec);
  }

  lemma SizesElsewhere(t: Table, t1: Table, t2: Table, e: nat, ec: nat, cc: nat)
    requires SizesAdded(t1, t2, e, ec, cc) && e <= ec < |t| == |t1|
    requires t1 == t[ec := t1[ec]]
    ensures |t2| == |t| && forall x :: 0 <= x < |t| && !(e <= x <= ec) ==> t2[x] == t[x]
  {
  }

  // ----- reading the image

  /** The entries of file f. */
  function ChainFrom(e: nat, m: nat): (c: seq<nat>)
    ensures |c| == m && forall j :: 0 <= j < m ==> c[j] == e + j
  {
    seq(m, j requires 0 <= j => e + j)
  }

  lemma LinksChain(t: Table, e: nat, b: nat, name: string, n: nat)
    requires FileLinks(t, e, b, name, n, EntriesFor(n))
    ensures var c := ChainFrom(e, EntriesFor(n));
            && IsChain(t, c) && LinkedBack(t, c)
            && (forall j :: 0 <= j < |c| ==> t[c[j]].size == n - j * ENTRY_BYTES && t[c[j]].name == name)
            && (forall k: nat :: k < NeededBlocks(n) ==> k / SFS_ENTRYREFS < |c|)
            && (forall j :: 0 <= j < |c| ==> |t[c[j]].refs| == SFS_ENTRYREFS)
            && (forall k: nat :: k < NeededBlocks(n) ==> RefAt(t, c, k) == b + k)
  {
    hide FileLinks, EntriesFor, IsChain, LinkedBack, NeededBlocks, LinkAt;
    var m := EntriesFor(n);
    var c := ChainFrom(e, m);
    LinksAt(t, e, b, name, n, m);
    LinksLinked(t, e, b, name, n, m);
    LinksEnough(n);
    forall j | 0 <= j < m
      ensures c[j] < |t| && t[c[j]].size == n - j * ENTRY_BYTES && t[c[j]].name == name
      ensures |t[c[j]].refs| == SFS_ENTRYREFS
    {
      LinkParts(t, e, b, name, n, m, j);
    }
    forall k: nat | k < NeededBlocks(n) ensures RefAt(t, c, k) == b + k {
      var j := k / SFS_ENTRYREFS;
      LinkParts(t, e, b, name, n, m, j);
      assert j * SFS_ENTRYREFS + k % SFS_ENTRYREFS == k;
    }
  }

  lemma LinksAt(t: Table, e: nat, b: nat, name: string, n: nat, m: nat)
    requires FileLinks(t, e, b, name, n, m)
    ensures forall j :: 0 <= j < m ==> LinkAt(t, e, b, name, n, m, ChainFrom(e, m)[j])
  {
  }

  lemma LinkParts(t: Table, e: nat, b: nat, name: string, n: nat, m: nat, j: nat)
    requires j < m && LinkAt(t, e, b, name, n, m, ChainFrom(e, m)[j])
    ensures e + j < |t| && j * ENTRY_BYTES <= n
    ensures t[e + j].size == n - j * ENTRY_BYTES && t[e + j].name == name
    ensures t[e + j].refs == RefsFrom(b, j * SFS_ENTRYREFS, NeededBlocks(n))
  {
  }

  lemma LinksLinked(t: Table, e: nat, b: nat, name: string, n: nat, m: nat)
    requires 0 < m && forall j :: 0 <= j < m ==> LinkAt(t, e, b, name, n, m, ChainFrom(e, m)[j])
    ensures IsChain(t, ChainFrom(e, m)) && LinkedBack(t, ChainFrom(e, m))
  {
    hide NeededBlocks;
  }

  lemma LinksEnough(n: nat)
    ensures forall k: nat :: k < NeededBlocks(n) ==> k / SFS_ENTRYREFS < EntriesFor(n)
    ensures NeededBlocks(n) <= EntriesFor(n) * SFS_ENTRYREFS
  {
  }

  /** Every file reads back as it was, however many entries it takes, and its blocks follow one
      another. */
  lemma MadeReads(files: seq<Input>, blocks: nat, t: Table, disk: Disk, f: nat)
    requires Made(files, blocks, t, disk) && f < |files|
    ensures var e, c := EntryStart(files, f), ChainFrom(EntryStart(files, f), EntriesFor(|files[f].data|));
            && Readable(t, c, disk) && LinkedBack(t, c) && c[0] == e
            && Content(t, c, disk) == files[f].data
            && (forall j :: 0 <= j < |c| ==> t[c[j]].size == |files[f].data| - j * ENTRY_BYTES)
            && (forall k: nat :: k < NeededBlocks(|files[f].data|) ==>
                  k / SFS_ENTRYREFS < |c| && RefAt(t, c, k) == BlockStart(files, f, FirstDataBlock(|t|)) + k)
  {
    var e, b, data := EntryStart(files, f), BlockStart(files, f, FirstDataBlock(|t|)), files[f].data;
    assert FileMade(files, f, t, disk, FirstDataBlock(|t|));
    LinksChain(t, e, b, Short(files[f].name), |data|);
    FileContent(t, disk, e, b, Short(files[f].name), data);
  }

  lemma FileContent(t: Table, disk: Disk, e: nat, b: nat, name: string, data: seq<byte>)
    requires FileLinks(t, e, b, name, |data|, EntriesFor(|data|)) && FileBlocks(disk, b, data) && DiskOk(disk)
    ensures var c := ChainFrom(e, EntriesFor(|data|));
            Readable(t, c, disk) && Content(t, c, disk) == data
  {
    hide FileLinks, EntriesFor, LinkedBack, ChainFrom, DiskOk;
    LinksChain(t, e, b, name, |data|);
    LinksEnough(|data|);
    var c := ChainFrom(e, EntriesFor(|data|));
    assert t[c[0]].size == |data|;
    forall k | 0 <= k < |data| ensures Content(t, c, disk)[k] == data[k] {
      assert InBlocks(k, |data|) && ByteAt(disk, b, k, data[k]);
    }
  }

  /** The program to boot is in consecutive blocks from the one the super block names. */
  lemma BootConsecutive(files: seq<Input>, blocks: nat, t: Table, disk: Disk)
    requires Made(files, blocks, t, disk) && 0 < |files|
    ensures var n := |files[0].data|;
            && FirstDataBlock(|t|) + NeededBlocks(n) <= |disk|
            && forall k :: 0 <= k < n ==>
                 InBlocks(k, n) && disk[FirstDataBlock(|t|) + k / BLOCK_SIZE][k % BLOCK_SIZE] == files[0].data[k]
  {
    assert FileMade(files, 0, t, disk, FirstDataBlock(|t|));
    var data := files[0].data;
    forall k | 0 <= k < |data| ensures InBlocks(k, |data|)
      ensures disk[FirstDataBlock(|t|) + k / BLOCK_SIZE][k % BLOCK_SIZE] == data[k]
    {
      assert ByteAt(disk, FirstDataBlock(|t|), k, data[k]) && InBlocks(k, |data|);
    }
  }

  /** Entry i is the root, a link of one of the first g files, or free. */
  lemma {:induction false} WhoseLink(files: seq<Input>, g: nat, t: Table, disk: Disk, boot: nat, i: nat)
    returns (f: nat)
    requires Upto(files, |files|, t, disk, boot) && g <= |files| && 0 < i < |t| && i < EntryStart(files, g)
    ensures f < g && EntryStart(files, f) <= i < EntryStart(files, f + 1)
    ensures var e := EntryStart(files, f);
            LinkAt(t, e, BlockStart(files, f, boot), Short(files[f].name), |files[f].data|,
                   EntriesFor(|files[f].data|), i)
  {
    if i < EntryStart(files, g - 1) {
      f := WhoseLink(files, g - 1, t, disk, boot, i);
    } else {
      f := g - 1;
      assert FileMade(files, f, t, disk, boot);
    }
  }

  /** The kernel finds a file under its shortened name if and only if that is not the name of
      the root, nor of a file that comes before it. */
  lemma MadeFound(files: seq<Input>, blocks: nat, t: Table, disk: Disk, f: nat)
    requires Fits(files, blocks) && Made(files, blocks, t, disk) && f < |files|
    ensures FindName(t, 0, Short(files[f].name)) == EntryStart(files, f)
            <==> Short(files[f].name) != ROOT_DIR_NAME
                 && forall g :: 0 <= g < f ==> Short(files[g].name) != Short(files[f].name)
  {
    var name, boot, e := Short(files[f].name), FirstDataBlock(|t|), EntryStart(files, f);
    HeadMatches(files, blocks, t, disk, f);
    var r := FindName(t, 0, name);
    assert r <= e;
    if name == ROOT_DIR_NAME {
      assert Matches(t[0], 0, name);
    } else if g :| 0 <= g < f && Short(files[g].name) == name {
      HeadMatches(files, blocks, t, disk, g);
      StartsUp(files, g + 1, f, boot);
    } else if r < e {
      assert r != 0;
      StartsUp(files, f, |files|, boot);
      var g := WhoseLink(files, f, t, disk, boot, r);
    }
  }

  lemma HeadMatches(files: seq<Input>, blocks: nat, t: Table, disk: Disk, f: nat)
    requires Made(files, blocks, t, disk) && f < |files|
    ensures EntryStart(files, f) < |t| && Matches(t[EntryStart(files, f)], 0, Short(files[f].name))
  {
    var n, e := |files[f].data|, EntryStart(files, f);
    assert FileMade(files, f, t, disk, FirstDataBlock(|t|));
    assert LinkAt(t, e, BlockStart(files, f, FirstDataBlock(|t|)), Short(files[f].name), n, EntriesFor(n), e);
  }

  // ----- going on from the image

  /** Names the kernel would give, each only once and none that of the root. */
  ghost predicate GoodNames(files: seq<Input>) {
    && (forall f :: 0 <= f < |files| ==> ValidName(files[f].name) && files[f].name != ROOT_DIR_NAME)
    && (forall f, g :: 0 <= f < g < |files| ==> files[f].name != files[g].name)
  }

  /** Everything about an image of small files that the lemmas below use of one entry. */
  ghost predicate Small(files: seq<Input>, blocks: nat, t: Table, disk: Disk) {
    && Fits(files, blocks) && GoodNames(files) && Made(files, blocks, t, disk)
    && forall f :: 0 <= f < |files| ==> |files[f].data| <= ENTRY_BYTES
  }

  /** A file of at most 120 blocks has a head entry only. */
  lemma SmallHead(files: seq<Input>, blocks: nat, t: Table, disk: Disk, f: nat)
    requires Small(files, blocks, t, disk) && f < |files|
    ensures var n, e, b := |files[f].data|, EntryStart(files, f), BlockStart(files, f, FirstDataBlock(|t|));
            && e < |t| && EntryStart(files, f + 1) == e + 1 && b + NeededBlocks(n) <= blocks
            && n <= ENTRY_BYTES
            && t[e] == Entry(false, true, files[f].name, 0, n, 0, 0, RefsFrom(b, 0, NeededBlocks(n)))
  {
    var n, e, b := |files[f].data|, EntryStart(files, f), BlockStart(files, f, FirstDataBlock(|t|));
    assert FileMade(files, f, t, disk, FirstDataBlock(|t|));
    assert LinkAt(t, e, b, Short(files[f].name), n, EntriesFor(n), e);
  }

  /** With small files, the entries are the root, the heads of the files and free ones. */
  lemma SmallEntries(files: seq<Input>, blocks: nat, t: Table, disk: Disk, i: nat) returns (f: nat)
    requires Small(files, blocks, t, disk) && i < |t|
    ensures f <= |files|
    ensures i != 0 && Used(t[i]) ==> f < |files| && i == EntryStart(files, f)
    ensures !Used(t[i]) ==> t[i] == Zero()
  {
    f := |files|;
    if 0 < i < EntryStart(files, |files|) {
      f := WhoseLink(files, |files|, t, disk, FirstDataBlock(|t|), i);
      SmallHead(files, blocks, t, disk, f);
    }
  }

  lemma SmallHeads(files: seq<Input>, blocks: nat, t: Table, disk: Disk)
    requires Small(files, blocks, t, disk)
    ensures forall i: nat :: i < |t| ==> t[i].next == 0 && t[i].parent == 0 && EntryShaped(t, t[i])
    ensures forall i: nat :: IsHead(t, i) <==> i < |t| && Used(t[i])
  {
    forall i: nat | i < |t| ensures t[i].next == 0 && t[i].parent == 0 && EntryShaped(t, t[i]) {
      var f := SmallEntries(files, blocks, t, disk, i);
      if i != 0 && Used(t[i]) { SmallHead(files, blocks, t, disk, f); }
    }
  }

  lemma SmallRoot(files: seq<Input>, blocks: nat, t: Table, disk: Disk)
    requires Small(files, blocks, t, disk)
    ensures 0 < |t| && IsDir(t, 0) && RootOk(t[0]) && t[0].size == |files| <= SFS_ENTRYREFS && t[0].next == 0
    ensures HeadOk(|t|, t[0]) && !t[0].file && t[0].parent == 0 && |t[0].refs| == SFS_ENTRYREFS
    ensures forall f :: 0 <= f < SFS_ENTRYREFS ==> t[0].refs[f] == if f < |files| then EntryStart(files, f) else 0
  {
    hide FileMade, GoodNames, HeadOk;
    RootHeadOk(files, |t|);
  }

  lemma RootHeadOk(files: seq<Input>, nentries: nat)
    requires |files| <= SFS_ENTRYREFS
    ensures HeadOk(nentries, Root(files, |files|))
  {
  }

  lemma SmallHeadOk(nentries: nat, blocks: nat, e: Entry, b: nat)
    requires e.file && !e.dir && e.size <= ENTRY_BYTES && e.next == 0 && FirstDataBlock(nentries) <= b
    requires e.refs == RefsFrom(b, 0, NeededBlocks(e.size))
    ensures HeadOk(nentries, e) && RefCount(e) == NeededBlocks(e.size)
  {
    hide NeededBlocks, Lo16, RefsFrom;
    SmallCount(e.size);
    assert forall a :: 0 <= a < SFS_ENTRYREFS ==> e.refs[a] == if a < NeededBlocks(e.size) then b + a else 0;
  }

  lemma SmallCount(size: nat)
    requires size <= ENTRY_BYTES
    ensures Lo16(size) == size && NeededBlocks(size) <= SFS_ENTRYREFS
  {
  }

  lemma SmallEntryOk(files: seq<Input>, blocks: nat, t: Table, disk: Disk, i: nat)
    requires Small(files, blocks, t, disk) && i < |t|
    ensures EntryOk(t, i)
    ensures i != 0 && Used(t[i]) ==> t[i].file && !t[i].dir
  {
    hide Small, RootOk;
    SmallHeads(files, blocks, t, disk);
    SmallRoot(files, blocks, t, disk);
    var f := SmallEntries(files, blocks, t, disk, i);
    if i != 0 && Used(t[i]) {
      SmallHead(files, blocks, t, disk, f);
      SmallHeadOk(|t|, blocks, t[i], BlockStart(files, f, FirstDataBlock(|t|)));
    }
  }

  lemma SmallList(files: seq<Input>, blocks: nat, t: Table, disk: Disk)
    requires Small(files, blocks, t, disk)
    ensures ListOk(t, {}, 0)
  {
    SmallHeads(files, blocks, t, disk);
    SmallRoot(files, blocks, t, disk);
    hide Made, Fits, GoodNames;
    var items := Items(t[0]);
    assert |items| == |files| && forall f :: 0 <= f < |items| ==> items[f] == EntryStart(files, f);
    forall f, g | 0 <= f < g < |items| ensures items[f] != items[g] {
      StartsUp(files, f, g, 0);
    }
    forall c: nat ensures c in items <==> IsChild(t, c, 0) {
      if c in items {
        var f :| 0 <= f < |items| && items[f] == c;
        SmallHead(files, blocks, t, disk, f);
      }
      if IsChild(t, c, 0) {
        var f := SmallEntries(files, blocks, t, disk, c);
        assert items[f] == c;
      }
    }
  }

  lemma SmallNames(files: seq<Input>, blocks: nat, t: Table, disk: Disk)
    requires Small(files, blocks, t, disk)
    ensures Names(t)
  {
    SmallHeads(files, blocks, t, disk);
    SmallRoot(files, blocks, t, disk);
    forall i: nat, j: nat | IsHead(t, i) && IsHead(t, j) && t[i].name == t[j].name ensures i == j {
      var f := SmallEntries(files, blocks, t, disk, i);
      var g := SmallEntries(files, blocks, t, disk, j);
      if i != 0 { SmallHead(files, blocks, t, disk, f); }
      if j != 0 { SmallHead(files, blocks, t, disk, g); }
    }
  }

  lemma SmallOwned(files: seq<Input>, blocks: nat, t: Table, disk: Disk)
    requires Small(files, blocks, t, disk)
    ensures Owned(t, blocks)
  {
    hide Small;
    forall i: nat, a: nat | LiveRef(t, i, a) ensures t[i].refs[a] < blocks {
      var f := LiveIn(files, blocks, t, disk, i, a);
    }
    forall i: nat, a: nat, j: nat, b: nat | LiveRef(t, i, a) && LiveRef(t, j, b) && t[i].refs[a] == t[j].refs[b]
      ensures i == j && a == b
    {
      LiveOnce(files, blocks, t, disk, i, a, j, b);
    }
  }

  lemma LiveOnce(files: seq<Input>, blocks: nat, t: Table, disk: Disk, i: nat, a: nat, j: nat, b: nat)
    requires Small(files, blocks, t, disk) && LiveRef(t, i, a) && LiveRef(t, j, b) && t[i].refs[a] == t[j].refs[b]
    ensures i == j && a == b
  {
    hide Small, EntryStart, BlockStart, FirstDataBlock;
    var f := LiveIn(files, blocks, t, disk, i, a);
    var g := LiveIn(files, blocks, t, disk, j, b);
    var boot := FirstDataBlock(|t|);
    if f < g { StartsUp(files, f + 1, g, boot); }
    if g < f { StartsUp(files, g + 1, f, boot); }
  }

  lemma LiveIn(files: seq<Input>, blocks: nat, t: Table, disk: Disk, i: nat, a: nat) returns (f: nat)
    requires Small(files, blocks, t, disk) && LiveRef(t, i, a)
    ensures f < |files| && i == EntryStart(files, f)
    ensures var b := BlockStart(files, f, FirstDataBlock(|t|));
            t[i].refs[a] == b + a < BlockStart(files, f + 1, FirstDataBlock(|t|)) <= blocks
  {
    hide Small;
    SmallRoot(files, blocks, t, disk);
    f := SmallEntries(files, blocks, t, disk, i);
    SmallHead(files, blocks, t, disk, f);
    SmallHeadOk(|t|, blocks, t[i], BlockStart(files, f, FirstDataBlock(|t|)));
  }

  /** An image is a good start for the kernel's own operations if and only if no file takes more
      than 120 blocks. */
  lemma MadeOk(files: seq<Input>, blocks: nat, t: Table, disk: Disk)
    requires Fits(files, blocks) && GoodNames(files) && Made(files, blocks, t, disk) && blocks < 0x1_0000
    ensures FsOk(Fs(t, disk, blocks)) <==> forall f :: 0 <= f < |files| ==> |files[f].data| <= ENTRY_BYTES
  {
    if f :| 0 <= f < |files| && |files[f].data| > ENTRY_BYTES {
      LargeFile(files, blocks, t, disk, f);
    } else {
      assert Small(files, blocks, t, disk);
      SmallOk(files, blocks, t, disk);
    }
  }

  lemma SmallOk(files: seq<Input>, blocks: nat, t: Table, disk: Disk)
    requires Small(files, blocks, t, disk) && blocks < 0x1_0000
    ensures FsOk(Fs(t, disk, blocks))
  {
    hide Small, EntryOk, ListOk, Names, Owned, RootOk, IsHead;
    forall i | 0 <= i < |t| ensures EntryOk(t, i) && (IsDir(t, i) ==> i == 0) {
      SmallEntryOk(files, blocks, t, disk, i);
    }
    SmallRoot(files, blocks, t, disk);
    SmallList(files, blocks, t, disk);
    SmallNames(files, blocks, t, disk);
    SmallOwned(files, blocks, t, disk);
    SmallHeads(files, blocks, t, disk);
    SmallShape(files, blocks, t, disk);
    FlatAcyclic(t);
  }

  lemma SmallShape(files: seq<Input>, blocks: nat, t: Table, disk: Disk)
    requires Small(files, blocks, t, disk)
    ensures 0 < |t| <= MAX_ENTRIES && |disk| == blocks && DiskOk(disk)
  {
  }

  /** A table in which the root is the parent of all entries. */
  lemma FlatAcyclic(t: Table)
    requires forall i: nat :: i < |t| ==> t[i].parent == 0
    ensures Acyclic(t)
  {
    assert Deep(t, seq(|t|, i => i));
  }

  /** A second link with references is more than the kernel's own operations leave behind. */
  lemma LargeFile(files: seq<Input>, blocks: nat, t: Table, disk: Disk, f: nat)
    requires Made(files, blocks, t, disk) && f < |files| && |files[f].data| > ENTRY_BYTES
    ensures !FsOk(Fs(t, disk, blocks))
  {
    var n, e, b := |files[f].data|, EntryStart(files, f), BlockStart(files, f, FirstDataBlock(|t|));
    var name, m := Short(files[f].name), EntriesFor(n);
    assert FileMade(files, f, t, disk, FirstDataBlock(|t|));
    assert LinkAt(t, e, b, name, n, m, e);
    var next := e + 1;
    assert LinkAt(t, e, b, name, n, m, next);
    assert t[next].refs[0] == b + SFS_ENTRYREFS;
    assert !EntryOk(t, e);
  }
}
