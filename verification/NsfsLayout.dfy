/** Where the entry table and the blocks of a file system are on the device, and the bytes of
    a table record. A state of the file system is a reading of the bytes of the device, and the
    transfers the kernel makes keep the two in step. */
module NsfsLayout {
  import opened NsfsTypes
  import opened NsfsBlocks
  import opened NsfsDevice
  import opened Memory

  const RECORD_SIZE: nat := 512  // of an entry, as declared
  const SFS_TYPE_ID: nat := 0x05F50010

  // ----- numbers and names

  /** A 32-bit number, low byte first. */
  function Le32(x: nat): (b: seq<byte>)
    requires x < 0x1_0000_0000
    ensures |b| == 4
  {
    [x % 256, x / 256 % 256, x / 0x1_0000 % 256, x / 0x100_0000]
  }

  function From32(b: seq<byte>): (x: nat)
    requires |b| == 4
    ensures x < 0x1_0000_0000
  {
    b[0] as int + 256 * (b[1] as int + 256 * (b[2] as int + 256 * b[3] as int))
  }

  lemma Le32RoundTrip(x: nat)
    requires x < 0x1_0000_0000
    ensures From32(Le32(x)) == x
  {
    assert x / 256 / 256 == x / 0x1_0000 && x / 0x1_0000 / 256 == x / 0x100_0000;
  }

  /** A name with the zeros after it, n bytes in all. */
  function NameBytes(name: string, n: nat): (b: seq<byte>)
    requires |name| <= n && forall k :: 0 <= k < |name| ==> name[k] < 256 as char
    ensures |b| == n
  {
    if n == 0 then [] else
    if name == [] then [0] + NameBytes(name, n - 1) else
    [name[0] as int] + NameBytes(name[1..], n - 1)
  }

  function NameOf(b: seq<byte>): string {
    if b == [] || b[0] == 0 then [] else [b[0] as char] + NameOf(b[1..])
  }

  lemma {:induction false} NameRoundTrip(name: string, n: nat)
    requires |name| <= n && forall k :: 0 <= k < |name| ==> 0 as char < name[k] < 256 as char
    ensures NameOf(NameBytes(name, n)) == name
  {
    if name != [] {
      NameRoundTrip(name[1..], n - 1);
      assert NameBytes(name, n)[1..] == NameBytes(name[1..], n - 1);
    }
  }

  function RefBytes(refs: seq<nat>): (b: seq<byte>)
    requires forall k :: 0 <= k < |refs| ==> refs[k] < 0x1_0000_0000
    ensures |b| == 4 * |refs|
  {
    if refs == [] then [] else Le32(refs[0]) + RefBytes(refs[1..])
  }

  function RefsOf(b: seq<byte>): (refs: seq<nat>)
    ensures |refs| == |b| / 4
  {
    if |b| < 4 then [] else [From32(b[..4])] + RefsOf(b[4..])
  }

  lemma {:induction false} RefsRoundTrip(refs: seq<nat>)
    requires forall k :: 0 <= k < |refs| ==> refs[k] < 0x1_0000_0000
    ensures RefsOf(RefBytes(refs)) == refs
  {
    if refs != [] {
      var b := RefBytes(refs);
      Le32RoundTrip(refs[0]);
      RefsRoundTrip(refs[1..]);
      assert b[..4] == Le32(refs[0]) && b[4..] == RefBytes(refs[1..]);
    }
  }

  // ----- records

  /** The fields fit the record. */
  predicate Encodable(e: Entry) {
    && |e.name| < SFS_NAMESIZE && (forall k :: 0 <= k < |e.name| ==> 0 as char < e.name[k] < 256 as char)
    && e.time < 0x1_0000_0000 && e.size < 0x1_0000_0000 && e.parent < 0x1_0000_0000 && e.next < 0x1_0000_0000
    && |e.refs| == SFS_ENTRYREFS && forall k :: 0 <= k < |e.refs| ==> e.refs[k] < 0x1_0000_0000
  }

  function Flags(e: Entry): byte {
    (if e.dir then 1 else 0) + if e.file then 2 else 0
  }

  function Encode(e: Entry): (b: seq<byte>)
    requires Encodable(e)
    ensures |b| == RECORD_SIZE
  {
    [Flags(e)] + NameBytes(e.name, SFS_NAMESIZE)
    + Le32(e.time) + Le32(e.size) + Le32(e.parent) + Le32(e.next) + RefBytes(e.refs)
  }

  function Decode(b: seq<byte>): Entry
    requires |b| == RECORD_SIZE
  {
    Entry(b[0] % 2 == 1, b[0] / 2 % 2 == 1, NameOf(b[1..16]),
          From32(b[16..20]), From32(b[20..24]), From32(b[24..28]), From32(b[28..32]), RefsOf(b[32..]))
  }

  /** A record read back is the entry that was written. */
  lemma RecordRoundTrip(e: Entry)
    requires Encodable(e)
    ensures Decode(Encode(e)) == e
  {
    hide NameOf, NameBytes, RefBytes, RefsOf, Le32, From32;
    var b := Encode(e);
    assert b[1..16] == NameBytes(e.name, SFS_NAMESIZE) && b[32..] == RefBytes(e.refs);
    assert b[16..20] == Le32(e.time) && b[20..24] == Le32(e.size);
    assert b[24..28] == Le32(e.parent) && b[28..32] == Le32(e.next);
    NameRoundTrip(e.name, SFS_NAMESIZE);
    RefsRoundTrip(e.refs);
    Le32RoundTrip(e.time);
    Le32RoundTrip(e.size);
    Le32RoundTrip(e.parent);
    Le32RoundTrip(e.next);
  }

  /** The 32-bit number in memory at an address: the lowest byte comes first. */
  function Word32(b: seq<byte>, at: nat): nat
    requires at + 4 <= |b|
  {
    b[at] as nat + 0x100 * b[at + 1] as nat + 0x1_0000 * b[at + 2] as nat + 0x100_0000 * b[at + 3] as nat
  }

  lemma Le32Word(x: nat, b: seq<byte>, at: nat)
    requires x < 0x1_0000_0000 && at + 4 <= |b| && b[at..at + 4] == Le32(x)
    ensures Word32(b, at) == x
  {
    var q := b[at..at + 4];
    assert q[0] == b[at] && q[1] == b[at + 1] && q[2] == b[at + 2] && q[3] == b[at + 3];
    Le32RoundTrip(x);
  }

  lemma {:induction false} NameByte(name: string, n: nat, k: nat)
    requires |name| <= n && (forall k :: 0 <= k < |name| ==> name[k] < 256 as char) && k < n
    ensures NameBytes(name, n)[k] == if k < |name| then name[k] as int else 0
  {
    if k > 0 {
      NameByte(if name == [] then name else name[1..], n - 1, k - 1);
    }
  }

  lemma {:induction false} RefWord(refs: seq<nat>, k: nat)
    requires (forall k :: 0 <= k < |refs| ==> refs[k] < 0x1_0000_0000) && k < |refs|
    ensures RefBytes(refs)[4 * k..4 * k + 4] == Le32(refs[k])
  {
    if k > 0 {
      RefWord(refs[1..], k - 1);
      assert RefBytes(refs)[4 * k..4 * k + 4] == RefBytes(refs[1..])[4 * (k - 1)..4 * (k - 1) + 4];
    }
  }

  /** Where the fields of a record are. */
  lemma RecordLayout(e: Entry)
    requires Encodable(e)
    ensures var b := Encode(e);
            && b[0] as int == (if e.dir then 1 else 0) + (if e.file then 2 else 0)
            && (forall k :: 0 <= k < SFS_NAMESIZE ==> b[1 + k] == if k < |e.name| then e.name[k] as int else 0)
            && Word32(b, 16) == e.time && Word32(b, 20) == e.size && Word32(b, 24) == e.parent
            && Word32(b, 28) == e.next && forall k: nat :: k < SFS_ENTRYREFS ==> Word32(b, 32 + 4 * k) == e.refs[k]
  {
    hide NameBytes, RefBytes, Le32, Word32;
    var b := Encode(e);
    assert b[1..16] == NameBytes(e.name, SFS_NAMESIZE) && b[32..] == RefBytes(e.refs);
    forall k | 0 <= k < SFS_NAMESIZE ensures b[1 + k] == if k < |e.name| then e.name[k] as int else 0 {
      NameByte(e.name, SFS_NAMESIZE, k);
      assert b[1..16][k] == b[1 + k];
    }
    Le32Word(e.time, b, 16);
    Le32Word(e.size, b, 20);
    Le32Word(e.parent, b, 24);
    Le32Word(e.next, b, 28);
    forall k: nat | k < SFS_ENTRYREFS ensures Word32(b, 32 + 4 * k) == e.refs[k] {
      RefWord(e.refs, k);
      assert b[32..][4 * k..4 * k + 4] == b[32 + 4 * k..32 + 4 * k + 4];
      Le32Word(e.refs[k], b, 32 + 4 * k);
    }
  }

  // ----- the device as a file system

  function Block(bytes: seq<byte>, b: nat): (r: seq<byte>)
    requires (b + 1) * BLOCK_SIZE <= |bytes|
    ensures |r| == BLOCK_SIZE
  {
    bytes[b * BLOCK_SIZE..(b + 1) * BLOCK_SIZE]
  }

  /** The super block: number of blocks and of entries. */
  ghost predicate Super(b: seq<byte>, size: nat, nentries: nat) {
    && |b| == BLOCK_SIZE && size < 0x1_0000_0000 && nentries < 0x1_0000_0000
    && b[..12] == Le32(SFS_TYPE_ID) + Le32(size) + Le32(nentries)
  }

  /** Block b is neither the super block nor one of n records. */
  predicate IsContent(n: nat, b: nat) {
    b == 0 || 2 + n <= b
  }

  /** The bytes of the device hold the boot block, the table from block 2 on, and the data blocks
      after it. */
  ghost predicate Holds(bytes: seq<byte>, t: Table, disk: Disk, size: nat) {
    && |bytes| == |disk| * BLOCK_SIZE && 2 + |t| <= |disk| <= 0x1_0000
    && Super(Block(bytes, 1), size, |t|)
    && (forall n: nat :: n < |t| ==> Encodable(t[n]) && Block(bytes, 2 + n) == Encode(t[n]))
    && (forall b: nat :: b < |disk| && IsContent(|t|, b) ==> Block(bytes, b) == disk[b])
  }

  /** The same device holds one table and one content of the data blocks only. */
  lemma HoldsOne(bytes: seq<byte>, t: Table, disk: Disk, size: nat, t': Table, disk': Disk, size': nat)
    requires Holds(bytes, t, disk, size) && Holds(bytes, t', disk', size')
    ensures t == t' && size == size' && disk[0] == disk'[0] && disk[2 + |t|..] == disk'[2 + |t|..]
  {
    SuperOne(Block(bytes, 1), size, |t|, size', |t'|);
    hide Encode, Decode, Encodable, Super, Block;
    forall n: nat | n < |t| ensures t[n] == t'[n] {
      RecordRoundTrip(t[n]);
      RecordRoundTrip(t'[n]);
    }
    forall b: nat | b < |disk| && IsContent(|t|, b) ensures disk[b] == disk'[b] {
    }
  }

  lemma SuperOne(b: seq<byte>, size: nat, n: nat, size': nat, n': nat)
    requires Super(b, size, n) && Super(b, size', n')
    ensures size == size' && n == n'
  {
    hide Le32, From32;
    assert b[..12][4..8] == Le32(size) == Le32(size');
    assert b[..12][8..12] == Le32(n) == Le32(n');
    Le32RoundTrip(size);
    Le32RoundTrip(size');
    Le32RoundTrip(n);
    Le32RoundTrip(n');
  }

  // ----- transfers

  lemma BlockPut(bytes: seq<byte>, c: nat, off: nat, data: seq<byte>, b: nat)
    requires (b + 1) * BLOCK_SIZE <= |bytes| && off + |data| <= BLOCK_SIZE && (c + 1) * BLOCK_SIZE <= |bytes|
    ensures Block(Put(bytes, c * BLOCK_SIZE + off, data), b)
            == if b == c then Put(Block(bytes, b), off, data) else Block(bytes, b)
  {
  }

  lemma BlockOutside(bytes: seq<byte>, bytes': seq<byte>, c: nat, b: nat)
    requires (b + 1) * BLOCK_SIZE <= |bytes| && (c + 1) * BLOCK_SIZE <= |bytes| && b != c
    requires SameOutside(bytes, bytes', c * BLOCK_SIZE, (c + 1) * BLOCK_SIZE)
    ensures |bytes'| == |bytes| && Block(bytes', b) == Block(bytes, b)
  {
  }

  /** The device after a transfer to record n: every other record and the data are as before. */
  ghost predicate HoldsBut(bytes: seq<byte>, t: Table, disk: Disk, size: nat, n: nat) {
    && |bytes| == |disk| * BLOCK_SIZE && 2 + |t| <= |disk|
    && Super(Block(bytes, 1), size, |t|)
    && (forall i: nat :: i < |t| && i != n ==> Encodable(t[i]) && Block(bytes, 2 + i) == Encode(t[i]))
    && (forall b: nat :: b < |disk| && IsContent(|t|, b) ==> Block(bytes, b) == disk[b])
  }

  lemma EntryLaid(bytes: seq<byte>, t: Table, disk: Disk, size: nat, n: nat, e: Entry, bytes': seq<byte>, ok: bool)
    requires Holds(bytes, t, disk, size) && n < |t| && Encodable(e)
    requires Laid(bytes, (2 + n) * BLOCK_SIZE, Encode(e), bytes', ok)
    ensures ok ==> Holds(bytes', t[n := e], disk, size)
    ensures HoldsBut(bytes', t, disk, size, n)
  {
    LaidBlock(bytes, 2 + n, Encode(e), bytes', ok);
    hide Laid, Block, Put, Encode, Encodable, Super;
    forall b: nat | b < |disk| && b != 2 + n ensures Block(bytes', b) == Block(bytes, b) {
      BlockOutside(bytes, bytes', 2 + n, b);
    }
    forall i: nat | i < |t| && i != n ensures Block(bytes', 2 + i) == Encode(t[i]) {
    }
  }

  lemma LaidBlock(bytes: seq<byte>, c: nat, data: seq<byte>, bytes': seq<byte>, ok: bool)
    requires (c + 1) * BLOCK_SIZE <= |bytes| && |data| == BLOCK_SIZE
    requires Laid(bytes, c * BLOCK_SIZE, data, bytes', ok)
    ensures SameOutside(bytes, bytes', c * BLOCK_SIZE, (c + 1) * BLOCK_SIZE)
    ensures ok ==> Block(bytes', c) == data
  {
    SameSector(c, 0);
    SameSector(c, 511);
    assert Put(bytes, c * BLOCK_SIZE, data)[c * BLOCK_SIZE..(c + 1) * BLOCK_SIZE] == data;
  }

  lemma DataLaid(bytes: seq<byte>, t: Table, disk: Disk, size: nat, c: nat, off: nat, data: seq<byte>,
                 bytes': seq<byte>, ok: bool)
    requires Holds(bytes, t, disk, size) && c < |disk| && IsContent(|t|, c) && off + |data| <= BLOCK_SIZE && data != []
    requires Laid(bytes, c * BLOCK_SIZE + off, data, bytes', ok)
    ensures |disk[c]| == BLOCK_SIZE
    ensures ok ==> Holds(bytes', t, WriteIn(disk, c, off, data), size)
    ensures !ok ==> |bytes'| == |bytes| && Holds(bytes', t, disk[c := Block(bytes', c)], size)
  {
    assert Block(bytes, c) == disk[c];
    LaidInBlock(bytes, c, off, data, bytes', ok);
    hide Laid, Block, Put, Encode, Encodable, Super, Splice;
    forall b: nat | 1 <= b < |disk| && b != c ensures Block(bytes', b) == Block(bytes, b) {
      BlockOutside(bytes, bytes', c, b);
    }
    forall i: nat | i < |t| ensures Block(bytes', 2 + i) == Encode(t[i]) {
    }
  }

  lemma LaidInBlock(bytes: seq<byte>, c: nat, off: nat, data: seq<byte>, bytes': seq<byte>, ok: bool)
    requires (c + 1) * BLOCK_SIZE <= |bytes| && off + |data| <= BLOCK_SIZE && data != []
    requires Laid(bytes, c * BLOCK_SIZE + off, data, bytes', ok)
    ensures SameOutside(bytes, bytes', c * BLOCK_SIZE, (c + 1) * BLOCK_SIZE)
    ensures ok ==> Block(bytes', c) == Splice(Block(bytes, c), off, data)
  {
    SameSector(c, off);
    SameSector(c, off + |data| - 1);
    if ok {
      BlockPut(bytes, c, off, data, c);
      assert Put(Block(bytes, c), off, data) == Splice(Block(bytes, c), off, data);
    }
  }

  /** get_entry_n: the index, or an error. */
  method GetEntryN(dev: Device, n: nat, buff: array<byte>, ghost t: Table, ghost disk: Disk, ghost size: nat)
    returns (result: nat, entry: Entry)
    requires dev.Valid() && Holds(dev.bytes, t, disk, size) && n < |t|
    requires buff.Length == RECORD_SIZE && buff != dev.aux
    modifies buff, dev.aux
    ensures (result == ERROR_IO && !dev.works) || (result == n && entry == t[n])
  {
    hide Encode, Encodable, Decode, Super, Put, Laid;
    var block, offset := 2 + n * RECORD_SIZE / BLOCK_SIZE, n * RECORD_SIZE % BLOCK_SIZE;
    assert block == 2 + n && offset == 0;
    ghost var was := buff[..];
    var code := dev.ReadDisk(block, offset, RECORD_SIZE, buff, 0);
    entry := Decode(buff[..]);
    if code == 0 {
      GotBlock(dev.bytes, block, was, buff[..]);
      RecordRoundTrip(t[n]);
    }
    result := if code != 0 then ERROR_IO else n;
  }

  lemma GotBlock(bytes: seq<byte>, b: nat, was: seq<byte>, buff: seq<byte>)
    requires (b + 1) * BLOCK_SIZE <= |bytes| && |was| == BLOCK_SIZE
    requires Got(bytes, b * BLOCK_SIZE + 0, BLOCK_SIZE, was, 0, buff, true)
    ensures buff == Block(bytes, b)
  {
  }

  /** write_entry: the table on the device becomes the one with the entry replaced; a failed
      transfer can spoil that one record only. */
  method WriteEntry(dev: Device, entry: Entry, n: nat, buff: array<byte>,
                    ghost t: Table, ghost disk: Disk, ghost size: nat)
    returns (result: nat)
    requires dev.Valid() && Holds(dev.bytes, t, disk, size) && n < |t| && Encodable(entry)
    requires buff.Length == RECORD_SIZE && buff != dev.aux
    modifies buff, dev`bytes, dev.aux
    ensures result == 0 || (result == ERROR_IO && !dev.works)
    ensures result == 0 && NoneCancel(dev.codes) ==> Holds(dev.bytes, t[n := entry], disk, size)
    ensures HoldsBut(dev.bytes, t, disk, size, n)
  {
    hide Encode, Encodable, Decode, Super, Put, Laid, HoldsBut, NoneCancel;
    var block, offset := 2 + n * RECORD_SIZE / BLOCK_SIZE, n * RECORD_SIZE % BLOCK_SIZE;
    assert block == 2 + n && offset == 0;
    var record := Encode(entry);
    forall k | 0 <= k < RECORD_SIZE {
      buff[k] := record[k];
    }
    assert buff[0..0 + RECORD_SIZE] == record;
    ghost var was := dev.bytes;
    var code := dev.WriteDisk(block, offset, RECORD_SIZE, buff, 0);
    EntryLaid(was, t, disk, size, n, entry, dev.bytes, code == 0 && NoneCancel(dev.codes));
    result := if code != 0 then ERROR_IO else 0;
  }

  /** Reads part of a data block, or of the boot block. */
  method GetData(dev: Device, block: nat, off: nat, n: nat, buff: array<byte>, at: nat,
                 ghost t: Table, ghost disk: Disk, ghost size: nat)
    returns (result: nat)
    requires dev.Valid() && Holds(dev.bytes, t, disk, size) && block < |disk| && IsContent(|t|, block)
    requires off + n <= BLOCK_SIZE && at + n <= buff.Length && buff != dev.aux
    modifies buff, dev.aux
    ensures |disk[block]| == BLOCK_SIZE && (dev.works ==> result == 0)
    ensures result == 0 ==> buff[at..at + n] == disk[block][off..off + n]
    ensures buff[..at] == old(buff[..at]) && buff[at + n..] == old(buff[at + n..])
  {
    hide Encode, Encodable, Super, Put, Laid, SameOutside;
    assert disk[block] == Block(dev.bytes, block);
    ghost var was := buff[..];
    result := dev.ReadDisk(block, off, n, buff, at);
    GotPiece(dev.bytes, block, off, n, was, at, buff[..], result == 0);
    assert buff[..at] == buff[..][..at] && buff[at + n..] == buff[..][at + n..];
    assert old(buff[..at]) == was[..at] && old(buff[at + n..]) == was[at + n..];
  }

  lemma SliceSlice(s: seq<byte>, lo: nat, hi: nat, a: nat, b: nat)
    requires a <= b <= hi - lo && hi <= |s|
    ensures s[lo..hi][a..b] == s[lo + a..lo + b]
  {
    var x, y := s[lo..hi][a..b], s[lo + a..lo + b];
    assert |x| == |y|;
    forall k | 0 <= k < |x| ensures x[k] == y[k] {
      assert x[k] == s[lo..hi][a + k] == s[lo + (a + k)] == y[k];
    }
  }

  lemma GotPiece(bytes: seq<byte>, b: nat, off: nat, n: nat, was: seq<byte>, at: nat, buff: seq<byte>, ok: bool)
    requires (b + 1) * BLOCK_SIZE <= |bytes| && off + n <= BLOCK_SIZE
    requires Got(bytes, b * BLOCK_SIZE + off, n, was, at, buff, ok)
    ensures at + n <= |was| == |buff| && buff[..at] == was[..at] && buff[at + n..] == was[at + n..]
    ensures ok ==> buff[at..at + n] == Block(bytes, b)[off..off + n]
  {
    if ok && n > 0 {
      var pos := b * BLOCK_SIZE + off;
      assert buff == Put(was, at, bytes[pos..pos + n]);
      var lo, hi := b * BLOCK_SIZE, (b + 1) * BLOCK_SIZE;
      SliceSlice(bytes, lo, hi, off, off + n);
    }
  }

  /** Writes part of a data block, or of the boot block: no record of the table and no other block changes. A failed
      transfer can leave anything in that block. */
  method PutData(dev: Device, block: nat, off: nat, n: nat, buff: array<byte>, at: nat,
                 ghost t: Table, ghost disk: Disk, ghost size: nat)
    returns (result: nat, ghost junk: seq<byte>)
    requires dev.Valid() && Holds(dev.bytes, t, disk, size) && block < |disk| && IsContent(|t|, block)
    requires 0 < n && off + n <= BLOCK_SIZE && at + n <= buff.Length && buff != dev.aux
    modifies dev`bytes, dev.aux
    ensures |disk[block]| == BLOCK_SIZE && (dev.works ==> result == 0)
    ensures result == 0 && NoneCancel(dev.codes) ==>
              Holds(dev.bytes, t, WriteIn(disk, block, off, buff[at..at + n]), size)
    ensures !(result == 0 && NoneCancel(dev.codes)) ==>
              |junk| == BLOCK_SIZE && Holds(dev.bytes, t, disk[block := junk], size)
  {
    hide Encode, Encodable, Super, Put, Laid, NoneCancel, WriteIn;
    ghost var was, data := dev.bytes, buff[at..at + n];
    result := dev.WriteDisk(block, off, n, buff, at);
    DataLaid(was, t, disk, size, block, off, data, dev.bytes, result == 0 && NoneCancel(dev.codes));
    junk := [];
    if !(result == 0 && NoneCancel(dev.codes)) { junk := Block(dev.bytes, block); }
  }

  /** Number of entries, from the super block. */
  method ReadSuper(dev: Device, sb: array<byte>, ghost t: Table, ghost disk: Disk, ghost size: nat)
    returns (result: nat, blocks: nat, nentries: nat)
    requires dev.Valid() && Holds(dev.bytes, t, disk, size) && sb.Length == 16 && sb != dev.aux
    modifies sb, dev.aux
    ensures result == 0 ==> nentries == |t| && blocks == size
    ensures dev.works ==> result == 0
  {
    hide Encode, Encodable, Super, Put, Laid, SameOutside, Le32, From32;
    ghost var was := sb[..];
    result := dev.ReadDisk(1, 0, 16, sb, 0);
    GotPiece(dev.bytes, 1, 0, 16, was, 0, sb[..], result == 0);
    blocks, nentries := From32(sb[4..8]), From32(sb[8..12]);
    if result == 0 {
      SuperRead(Block(dev.bytes, 1), sb[..], size, |t|);
    }
  }

  lemma SuperRead(b: seq<byte>, sb: seq<byte>, size: nat, n: nat)
    requires Super(b, size, n) && |sb| == 16 && sb[0..16] == b[0..16]
    ensures From32(sb[4..8]) == size && From32(sb[8..12]) == n
  {
    hide Le32, From32;
    assert sb[4..8] == sb[0..16][4..8] && sb[8..12] == sb[0..16][8..12];
    assert b[0..16][4..8] == b[..12][4..8] == Le32(size);
    assert b[0..16][8..12] == b[..12][8..12] == Le32(n);
    Le32RoundTrip(size);
    Le32RoundTrip(n);
  }
}
