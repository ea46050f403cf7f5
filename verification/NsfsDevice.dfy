/** Reading and writing any range of bytes of a disk through a device that moves whole
    sectors only, and that may fail. */
module NsfsDevice {
  import opened NsfsTypes
  import opened NsfsBlocks
  import opened Memory

  const SECTOR_SIZE: nat := 512
  const DMA_BOUNDARY: nat := 0x900  // the transfer would cross a 64 KB boundary

  predicate SameOutside(s: seq<byte>, s': seq<byte>, lo: int, hi: int) {
    |s'| == |s| && forall k :: 0 <= k < |s| && !(lo <= k < hi) ==> s'[k] == s[k]
  }

  lemma Lo16Small(x: nat)
    ensures x < 0x1_0000 ==> Lo16(x) == x
  {
  }

  function WholeSectors(size: nat): (n: nat)
    ensures n * SECTOR_SIZE <= size < n * SECTOR_SIZE + SECTOR_SIZE
  {
    size / SECTOR_SIZE
  }

  // ----- rewriting part of a sector

  /** Outcomes of reading a sector of d: code 0 and the sector, or an error code and anything. */
  ghost predicate SectorRead(codes: set<nat>, d: seq<byte>, sector: nat, r: nat, aux: seq<byte>) {
    && |aux| == SECTOR_SIZE && (r == 0 || r in codes)
    && (r == 0 ==> (sector + 1) * SECTOR_SIZE <= |d| && aux == d[sector * SECTOR_SIZE..(sector + 1) * SECTOR_SIZE])
  }

  /** Outcomes of writing a sector of d. */
  ghost predicate SectorWritten(codes: set<nat>, d: seq<byte>, sector: nat, aux: seq<byte>, w: nat, d': seq<byte>) {
    && |aux| == SECTOR_SIZE && (w == 0 || w in codes)
    && SameOutside(d, d', sector * SECTOR_SIZE, (sector + 1) * SECTOR_SIZE)
    && (w == 0 ==> (sector + 1) * SECTOR_SIZE <= |d| && d' == Put(d, sector * SECTOR_SIZE, aux))
  }

  /** Outcomes of reading a sector, replacing some bytes of it and writing it, when the codes
      of both transfers are added up. */
  ghost predicate Rewritten(codes: set<nat>, d: seq<byte>, sector: nat, off: nat, data: seq<byte>,
                            result: nat, d': seq<byte>)
    requires off + |data| <= SECTOR_SIZE
  {
    exists r: nat, w: nat, aux: seq<byte> ::
      && SectorRead(codes, d, sector, r, aux)
      && SectorWritten(codes, d, sector, Put(aux, off, data), w, d')
      && result == Lo16(r + w)
  }

  /** No two error codes cancel out in 16 bits. */
  ghost predicate NoneCancel(codes: set<nat>) {
    forall r, w :: r in codes && w in codes ==> r + w != 0x1_0000
  }

  ghost predicate ErrorCodes(codes: set<nat>) {
    codes != {} && forall c :: c in codes ==> 0 < c < 0x1_0000
  }

  ghost predicate RewriteTrusted(codes: set<nat>) {
    forall d: seq<byte>, sector: nat, off: nat, data: seq<byte>, d': seq<byte> ::
      off + |data| <= SECTOR_SIZE && Rewritten(codes, d, sector, off, data, 0, d')
      ==> (sector + 1) * SECTOR_SIZE <= |d| && d' == Put(d, sector * SECTOR_SIZE + off, data)
  }

  lemma RewriteExact(codes: set<nat>, d: seq<byte>, sector: nat, off: nat, data: seq<byte>, d': seq<byte>)
    requires ErrorCodes(codes) && NoneCancel(codes)
    requires off + |data| <= SECTOR_SIZE && Rewritten(codes, d, sector, off, data, 0, d')
    ensures (sector + 1) * SECTOR_SIZE <= |d| && d' == Put(d, sector * SECTOR_SIZE + off, data)
  {
    var r: nat, w: nat, aux: seq<byte> :|
      && SectorRead(codes, d, sector, r, aux)
      && SectorWritten(codes, d, sector, Put(aux, off, data), w, d')
      && 0 == Lo16(r + w);
    assert r == 0 && w == 0 by {
      assert r in codes && w in codes ==> r + w != 0x1_0000;
    }
  }

  /** A zero result of a partial sector write can be trusted on a device if and only if no two
      of its error codes cancel out. */
  lemma RewriteTrustedIff(codes: set<nat>)
    requires ErrorCodes(codes)
    ensures RewriteTrusted(codes) <==> NoneCancel(codes)
  {
    if NoneCancel(codes) {
      forall d: seq<byte>, sector: nat, off: nat, data: seq<byte>, d': seq<byte>
        | off + |data| <= SECTOR_SIZE && Rewritten(codes, d, sector, off, data, 0, d')
        ensures (sector + 1) * SECTOR_SIZE <= |d| && d' == Put(d, sector * SECTOR_SIZE + off, data)
      {
        RewriteExact(codes, d, sector, off, data, d');
      }
    } else {
      var r, w :| r in codes && w in codes && r + w == 0x1_0000;
      RewriteLost(codes, r, w);
    }
  }

  /** Both transfers fail, nothing is written, and the result is 0. */
  lemma RewriteLost(codes: set<nat>, r: nat, w: nat)
    requires r in codes && w in codes && 0 < r && 0 < w && r + w == 0x1_0000
    ensures !RewriteTrusted(codes)
  {
    var d: seq<byte>, data: seq<byte> := seq(SECTOR_SIZE, _ => 0), [1];
    assert SectorRead(codes, d, 0, r, d);
    assert SectorWritten(codes, d, 0, Put(d, 0, data), w, d);
    assert Rewritten(codes, d, 0, 0, data, 0, d);
    assert Put(d, 0, data)[0] == 1 && d[0] == 0;
    assert d != Put(d, 0 * SECTOR_SIZE + 0, data);
  }

  /** A drive that times out, status 0x80 in the high byte, is such a device. */
  lemma TimeoutsCancel()
    ensures !RewriteTrusted({0x8000})
  {
    RewriteLost({0x8000}, 0x8000, 0x8000);
  }

  // ----- byte ranges

  /** buff is was with the n bytes of d from pos on put at position at. */
  ghost predicate Moved(d: seq<byte>, pos: nat, n: nat, was: seq<byte>, at: nat, buff: seq<byte>) {
    && at + n <= |was| && (n == 0 || pos + n <= |d|)
    && buff == if n == 0 then was else Put(was, at, d[pos..pos + n])
  }

  lemma MovedMore(d: seq<byte>, pos: nat, n: nat, m: nat, was: seq<byte>, at: nat, buff: seq<byte>, buff': seq<byte>)
    ensures Moved(d, pos, n, was, at, buff) && Moved(d, pos + n, m, buff, at + n, buff')
            ==> Moved(d, pos, n + m, was, at, buff')
  {
    hide Put;
    if Moved(d, pos, n, was, at, buff) && Moved(d, pos + n, m, buff, at + n, buff') && 0 < n && 0 < m {
      MovedBoth(d, pos, n, m, was, at);
    }
  }

  lemma MovedBoth(d: seq<byte>, pos: nat, n: nat, m: nat, was: seq<byte>, at: nat)
    requires at + n + m <= |was| && pos + n + m <= |d|
    ensures Put(Put(was, at, d[pos..pos + n]), at + n, d[pos + n..pos + n + m]) == Put(was, at, d[pos..pos + n + m])
  {
    hide Put;
    var x, y := d[pos..pos + n], d[pos + n..pos + n + m];
    assert d[pos..pos + n + m] == x + y;
    PutTwice(was, at, x, y);
  }

  /** What reading n bytes from pos to buff[at..] leaves in buff: those bytes and nothing else when
      it succeeds, and anything in their place when it does not. */
  ghost predicate Got(d: seq<byte>, pos: nat, n: nat, was: seq<byte>, at: nat, buff: seq<byte>, ok: bool) {
    match ok
    case true => Moved(d, pos, n, was, at, buff)
    case false => at + n <= |was| && SameOutside(was, buff, at, at + n)
  }

  lemma GotNone(d: seq<byte>, pos: nat, was: seq<byte>, at: nat)
    ensures at <= |was| ==> Got(d, pos, 0, was, at, was, true)
  {
  }

  lemma GotFailed(d: seq<byte>, pos: nat, n: nat, was: seq<byte>, at: nat, buff: seq<byte>, ok: bool, size: nat)
    ensures Got(d, pos, n, was, at, buff, ok) && n <= size && at + size <= |was|
            ==> Got(d, pos, size, was, at, buff, false)
  {
  }

  lemma GotMore(d: seq<byte>, pos: nat, n: nat, m: nat, was: seq<byte>, at: nat, now: seq<byte>, buff: seq<byte>,
                ok: bool)
    ensures Got(d, pos, n, was, at, now, true) && Got(d, pos + n, m, now, at + n, buff, ok)
            ==> Got(d, pos, n + m, was, at, buff, ok)
  {
    MovedMore(d, pos, n, m, was, at, now, buff);
  }

  lemma GotPart(d: seq<byte>, lo: nat, was: seq<byte>, aux: seq<byte>, off: nat, n: nat, buff: seq<byte>, at: nat,
                ok: bool)
    requires |was| == |aux| == SECTOR_SIZE && off + n <= SECTOR_SIZE && at + n <= |buff|
    ensures (ok ==> Moved(d, lo, SECTOR_SIZE, was, 0, aux))
            ==> Got(d, lo + off, n, buff, at, Put(buff, at, aux[off..off + n]), ok)
  {
    if ok && Moved(d, lo, SECTOR_SIZE, was, 0, aux) {
      assert aux == d[lo..lo + SECTOR_SIZE];
      assert aux[off..off + n] == d[lo + off..lo + off + n];
    }
  }

  /** Disk d has become d' by storing data at pos. */
  ghost predicate Stored(d: seq<byte>, pos: nat, data: seq<byte>, d': seq<byte>) {
    (data == [] || pos + |data| <= |d|) && d' == if data == [] then d else Put(d, pos, data)
  }

  function SectorStart(pos: nat): nat { pos / SECTOR_SIZE * SECTOR_SIZE }

  function SectorEnd(pos: nat): nat { (pos + SECTOR_SIZE - 1) / SECTOR_SIZE * SECTOR_SIZE }

  /** What writing data at pos makes of disk d: the data is stored and nothing else changes when
      it succeeds, and only the sectors it touches change when it does not. */
  ghost predicate Laid(d: seq<byte>, pos: nat, data: seq<byte>, d': seq<byte>, ok: bool) {
    match ok
    case true => Stored(d, pos, data, d')
    case false => SameOutside(d, d', SectorStart(pos), SectorEnd(pos + |data|))
  }

  lemma LaidNone(d: seq<byte>, pos: nat, ok: bool)
    ensures Laid(d, pos, [], d, ok)
  {
  }

  lemma LaidFailed(d: seq<byte>, pos: nat, x: seq<byte>, d': seq<byte>, ok: bool, y: seq<byte>)
    ensures Laid(d, pos, x, d', ok) && |x| <= |y| ==> Laid(d, pos, y, d', false)
  {
    if Laid(d, pos, x, d', ok) && |x| <= |y| {
      SectorBounds(pos, |x|, |y|);
    }
  }

  lemma SectorBounds(pos: nat, n: nat, m: nat)
    requires n <= m
    ensures SectorStart(pos) <= pos && pos + n <= SectorEnd(pos + n) <= SectorEnd(pos + m)
    ensures SectorStart(pos) <= SectorStart(pos + n)
  {
  }

  lemma StoredMore(d: seq<byte>, pos: nat, x: seq<byte>, d': seq<byte>, y: seq<byte>, d'': seq<byte>)
    ensures Stored(d, pos, x, d') && Stored(d', pos + |x|, y, d'') ==> Stored(d, pos, x + y, d'')
  {
    if Stored(d, pos, x, d') && Stored(d', pos + |x|, y, d'') {
      if x != [] && y != [] { PutTwice(d, pos, x, y); }
      assert x + [] == x && [] + y == y;
    }
  }

  lemma LaidBoth(d: seq<byte>, pos: nat, x: seq<byte>, d': seq<byte>, y: seq<byte>, d'': seq<byte>)
    ensures Laid(d, pos, x, d', false) && Laid(d', pos + |x|, y, d'', false) ==> Laid(d, pos, x + y, d'', false)
  {
    SectorBounds(pos, |x|, |x| + |y|);
    SectorBounds(pos + |x|, |y|, |y|);
  }

  lemma LaidMore(d: seq<byte>, pos: nat, buff: seq<byte>, at: nat, mid: nat, hi: nat,
                 d': seq<byte>, d'': seq<byte>, ok: bool, ok': bool)
    requires at <= mid <= hi <= |buff|
    ensures Laid(d, pos, buff[at..mid], d', ok) && Laid(d', pos + (mid - at), buff[mid..hi], d'', ok')
            ==> Laid(d, pos, buff[at..hi], d'', ok && ok')
  {
    hide Stored, SameOutside;
    var x, y := buff[at..mid], buff[mid..hi];
    assert buff[at..hi] == x + y;
    StoredMore(d, pos, x, d', y, d'');
    LaidFailed(d, pos, x, d', ok, x);
    LaidFailed(d', pos + |x|, y, d'', ok', y);
    LaidBoth(d, pos, x, d', y, d'');
  }

  lemma SectorGot(codes: set<nat>, d: seq<byte>, sector: nat, r: nat, was: seq<byte>, aux: seq<byte>)
    requires (r == 0 || r in codes) && |was| == |aux| == SECTOR_SIZE
    requires r == 0 ==> Moved(d, sector * SECTOR_SIZE, 1 * SECTOR_SIZE, was, 0, aux)
    ensures SectorRead(codes, d, sector, r, aux)
  {
  }

  lemma SectorPut(codes: set<nat>, d: seq<byte>, sector: nat, aux: seq<byte>, w: nat, d': seq<byte>)
    requires (w == 0 || w in codes) && |aux| == SECTOR_SIZE
    requires SameOutside(d, d', sector * SECTOR_SIZE, (sector + 1) * SECTOR_SIZE)
    requires w == 0 ==> (sector + 1) * SECTOR_SIZE <= |d| && d' == Put(d, sector * SECTOR_SIZE, aux)
    ensures SectorWritten(codes, d, sector, aux, w, d')
  {
  }

  lemma SameSector(sector: nat, off: nat)
    requires off < SECTOR_SIZE
    ensures SectorStart(sector * SECTOR_SIZE + off) == sector * SECTOR_SIZE
    ensures SectorEnd(sector * SECTOR_SIZE + off + 1) == (sector + 1) * SECTOR_SIZE
  {
  }

  lemma RewriteLaid(codes: set<nat>, d: seq<byte>, sector: nat, off: nat, data: seq<byte>, r: nat, w: nat,
                    aux: seq<byte>, d': seq<byte>, pos: nat)
    requires ErrorCodes(codes) && off < SECTOR_SIZE && 0 < off + |data| <= SECTOR_SIZE
    requires SectorRead(codes, d, sector, r, aux) && SectorWritten(codes, d, sector, Put(aux, off, data), w, d')
    requires pos == sector * SECTOR_SIZE + off
    ensures Rewritten(codes, d, sector, off, data, Lo16(r + w), d')
    ensures Laid(d, pos, data, d', Lo16(r + w) == 0 && NoneCancel(codes))
  {
    if Lo16(r + w) == 0 && NoneCancel(codes) {
      RewriteExact(codes, d, sector, off, data, d');
      assert data == [] ==> Put(d, pos, data) == d;
    } else {
      SameSector(sector, off);
      SameSector(sector, off + |data| - 1);
    }
  }

  class Device {
    var bytes: seq<byte>
    const aux: array<byte>     // a sector
    const codes: set<nat>      // the codes it fails with
    const works: bool          // it fails only where a transfer would cross the boundary

    ghost predicate Valid()
      reads this
    {
      aux.Length == SECTOR_SIZE && ErrorCodes(codes)
    }

    method ReadSectors(sector: nat, n: nat, buff: array<byte>, at: nat) returns (result: nat)
      requires Valid() && at + n * SECTOR_SIZE <= buff.Length
      modifies buff
      ensures result == 0 || result in codes
      ensures SameOutside(old(buff[..]), buff[..], at, at + n * SECTOR_SIZE)
      ensures result == 0 ==>
                Moved(bytes, sector * SECTOR_SIZE, n * SECTOR_SIZE, old(buff[..]), at, buff[..])
      ensures works && (sector + n) * SECTOR_SIZE <= |bytes| ==> result == 0 || (result == DMA_BOUNDARY && buff != aux)
    {
      var ok: bool := *;
      ok := ok || (works && (buff == aux || DMA_BOUNDARY !in codes));
      if ok && (sector + n) * SECTOR_SIZE <= |bytes| {
        forall k | 0 <= k < n * SECTOR_SIZE {
          buff[at + k] := bytes[sector * SECTOR_SIZE + k];
        }
        return 0;
      }
      var junk := new byte[n * SECTOR_SIZE];
      forall k | 0 <= k < n * SECTOR_SIZE {
        buff[at + k] := junk[k];
      }
      if works && (sector + n) * SECTOR_SIZE <= |bytes| { return DMA_BOUNDARY; }
      result :| result in codes;
    }

    method WriteSectors(sector: nat, n: nat, buff: array<byte>, at: nat) returns (result: nat)
      requires Valid() && at + n * SECTOR_SIZE <= buff.Length
      modifies this`bytes
      ensures result == 0 || result in codes
      ensures SameOutside(old(bytes), bytes, sector * SECTOR_SIZE, (sector + n) * SECTOR_SIZE)
      ensures result == 0 ==>
                && (sector + n) * SECTOR_SIZE <= |old(bytes)|
                && bytes == Put(old(bytes), sector * SECTOR_SIZE, buff[at..at + n * SECTOR_SIZE])
      ensures works && (sector + n) * SECTOR_SIZE <= |bytes| ==> result == 0 || (result == DMA_BOUNDARY && buff != aux)
    {
      var ok: bool := *;
      ok := ok || (works && (buff == aux || DMA_BOUNDARY !in codes));
      if ok && (sector + n) * SECTOR_SIZE <= |bytes| {
        bytes := Put(bytes, sector * SECTOR_SIZE, buff[at..at + n * SECTOR_SIZE]);
        return 0;
      }
      var junk := new byte[|bytes|];
      var was := bytes;
      bytes := seq(|was|, k requires 0 <= k < |was| reads junk =>
                            if sector * SECTOR_SIZE <= k < (sector + n) * SECTOR_SIZE then junk[k] else was[k]);
      if works && (sector + n) * SECTOR_SIZE <= |bytes| { return DMA_BOUNDARY; }
      result :| result in codes;
    }

    /** Sector and offset in it of a byte of a block. */
    method SectorOf(block: nat, offset: nat) returns (sector: nat, off: nat)
      requires block * BLOCK_SIZE + offset <= 0x1_0000 * SECTOR_SIZE
      ensures sector < 0x1_0000 && off < SECTOR_SIZE
      ensures block * BLOCK_SIZE + offset < 0x1_0000 * SECTOR_SIZE ==>
                sector * SECTOR_SIZE + off == block * BLOCK_SIZE + offset
      ensures block * BLOCK_SIZE + offset == 0x1_0000 * SECTOR_SIZE ==> off == 0
    {
      sector := Lo16(block * (BLOCK_SIZE / SECTOR_SIZE));
      sector := Lo16(sector + offset / SECTOR_SIZE);
      off := offset % SECTOR_SIZE;
    }

    /** read_disk: on result 0 the buffer has the bytes of the disk, on another code anything. */
    method ReadDisk(block: nat, offset: nat, size: nat, buff: array?<byte>, at: nat) returns (result: nat)
      requires Valid() && block * BLOCK_SIZE + offset + size <= 0x1_0000 * SECTOR_SIZE
      requires buff != null ==> at + size <= buff.Length && buff != aux
      modifies buff, aux
      ensures buff != null ==>
                Got(bytes, block * BLOCK_SIZE + offset, size, old(buff[..]), at, buff[..], result == 0)
      ensures buff == null ==> result != 0
      ensures works && buff != null && |bytes| != 0 && SectorEnd(block * BLOCK_SIZE + offset + size) <= |bytes| ==>
                result == 0
    {
      hide Got, SameOutside, Moved, Put, Lo16;
      if buff == null { return 1; }
      ghost var pos, was := block * BLOCK_SIZE + offset, buff[..];
      GotNone(bytes, pos, was, at);
      GotFailed(bytes, pos, 0, was, at, was, true, size);
      if |bytes| == 0 { return 1; }
      var sector, off := SectorOf(block, offset);
      // a start inside a sector
      if off != 0 {
        var i := Min(SECTOR_SIZE - off, size);
        result := ReadPart(sector, off, i, buff, at, pos);
        GotFailed(bytes, pos, i, was, at, buff[..], false, size);
        if result != 0 { return; }
        Lo16Small(sector + 1);
        ghost var now := buff[..];
        result := ReadAligned(Lo16(sector + 1), size - i, buff, at + i, pos + i);
        GotMore(bytes, pos, i, size - i, was, at, now, buff[..], result == 0);
      } else {
        result := ReadAligned(sector, size, buff, at, pos);
      }
    }

    /** The part of read_disk from the start of a sector on. */
    method ReadAligned(sector: nat, size: nat, buff: array<byte>, at: nat, ghost pos: nat) returns (result: nat)
      requires Valid() && pos + size <= 0x1_0000 * SECTOR_SIZE && at + size <= buff.Length && buff != aux
      requires size > 0 ==> pos == sector * SECTOR_SIZE
      modifies buff, aux
      ensures Got(bytes, pos, size, old(buff[..]), at, buff[..], result == 0)
      ensures works && SectorEnd(pos + size) <= |bytes| ==> result == 0
    {
      hide Got, SameOutside, Moved, Put, WholeSectors;
      result := 0;
      ghost var was := buff[..];
      GotNone(bytes, pos, was, at);
      var n_sectors := WholeSectors(size);
      var whole := SECTOR_SIZE * n_sectors;
      // the sectors that are wanted whole
      if n_sectors != 0 {
        result := ReadWhole(sector, n_sectors, buff, at, pos, whole);
        GotFailed(bytes, pos, whole, was, at, buff[..], false, size);
        if result != 0 { return; }
      }
      // an end inside a sector
      if size - whole != 0 {
        ghost var now := buff[..];
        result := ReadPart(Lo16(sector + n_sectors), 0, size - whole, buff, at + whole, pos + whole);
        GotMore(bytes, pos, whole, size - whole, was, at, now, buff[..], result == 0);
      }
    }

    /** Bytes [off, off + n) of a sector, to buff[at..]. */
    method ReadPart(sector: nat, off: nat, n: nat, buff: array<byte>, at: nat, ghost pos: nat) returns (result: nat)
      requires Valid() && pos == sector * SECTOR_SIZE + off && off + n <= SECTOR_SIZE
      requires at + n <= buff.Length && buff != aux
      modifies buff, aux
      ensures Got(bytes, pos, n, old(buff[..]), at, buff[..], result == 0)
      ensures works && (sector + 1) * SECTOR_SIZE <= |bytes| ==> result == 0
    {
      hide Got, Moved, Put, SameOutside;
      ghost var was, now := aux[..], buff[..];
      result := ReadSectors(sector, 1, aux, 0);
      Memcpy(buff, at, aux, off, n);
      GotPart(bytes, sector * SECTOR_SIZE, was, aux[..], off, n, now, at, result == 0);
    }

    /** The whole sectors of read_disk, to buff[at..]. */
    method ReadWhole(sector: nat, n: nat, buff: array<byte>, at: nat, ghost pos: nat, ghost size: nat)
      returns (result: nat)
      requires Valid() && pos == sector * SECTOR_SIZE && size == n * SECTOR_SIZE
      requires 0 < n && sector + n <= 0x1_0000 && at + size <= buff.Length && buff != aux
      modifies buff, aux
      ensures Got(bytes, pos, size, old(buff[..]), at, buff[..], result == 0)
      ensures works && pos + size <= |bytes| ==> result == 0
    {
      // in one transfer if the device can
      result := ReadSectors(sector, n, buff, at);
      // a transfer that would cross the boundary is broken up
      if result == DMA_BOUNDARY {
        result := ReadOneByOne(sector, n, buff, at, pos, size);
      }
    }

    method ReadOneByOne(sector0: nat, n: nat, buff: array<byte>, at: nat, ghost pos: nat, ghost size: nat)
      returns (result: nat)
      requires Valid() && pos == sector0 * SECTOR_SIZE && size == n * SECTOR_SIZE
      requires 0 < n && sector0 + n <= 0x1_0000 && at + size <= buff.Length && buff != aux
      modifies buff, aux
      ensures Got(bytes, pos, size, old(buff[..]), at, buff[..], result == 0)
      ensures works && pos + size <= |bytes| ==> result == 0
    {
      hide Got, SameOutside, Moved, Put, Lo16;
      var sector, i, n_sectors := sector0, at, n;
      ghost var was, m := buff[..], 0;
      result := DMA_BOUNDARY;
      GotNone(bytes, pos, was, at);
      while n_sectors > 0
        invariant m + n_sectors * SECTOR_SIZE == size && i == at + m
        invariant n_sectors > 0 ==> sector * SECTOR_SIZE == pos + m && sector < 0x1_0000
        invariant sector + n_sectors <= 0x1_0000 || n_sectors == 0
        invariant Got(bytes, pos, m, was, at, buff[..], true)
        invariant n_sectors == 0 ==> result == 0
      {
        ghost var now := buff[..];
        result := ReadThrough(sector, buff, i, pos + m);
        GotFailed(bytes, pos, m, was, at, buff[..], true, size);
        if result != 0 { return; }
        GotMore(bytes, pos, m, SECTOR_SIZE, was, at, now, buff[..], true);
        Lo16Small(sector + 1);
        m := m + SECTOR_SIZE;
        i := i + SECTOR_SIZE;
        sector := Lo16(sector + 1);
        n_sectors := n_sectors - 1;
      }
    }

    /** One sector, by way of the sector buffer. */
    method ReadThrough(sector: nat, buff: array<byte>, at: nat, ghost pos: nat) returns (result: nat)
      requires Valid() && pos == sector * SECTOR_SIZE && at + SECTOR_SIZE <= buff.Length && buff != aux
      modifies buff, aux
      ensures result != 0 ==> buff[..] == old(buff[..])
      ensures result == 0 ==> Got(bytes, pos, SECTOR_SIZE, old(buff[..]), at, buff[..], true)
      ensures works && pos + SECTOR_SIZE <= |bytes| ==> result == 0
    {
      result := ReadSectors(sector, 1, aux, 0);
      if result != 0 { return; }
      Memcpy(buff, at, aux, 0, SECTOR_SIZE);
    }

    // ----- writing

    /** write_disk: on result 0 the disk has the bytes of the buffer, if no two error codes cancel out. */
    method WriteDisk(block: nat, offset: nat, size: nat, buff: array?<byte>, at: nat) returns (result: nat)
      requires Valid() && block * BLOCK_SIZE + offset + size <= 0x1_0000 * SECTOR_SIZE
      requires buff != null ==> at + size <= buff.Length && buff != aux
      modifies this`bytes, aux
      ensures buff == null ==> result != 0 && bytes == old(bytes)
      ensures buff != null ==>
                Laid(old(bytes), block * BLOCK_SIZE + offset, buff[at..at + size], bytes,
                     result == 0 && NoneCancel(codes))
      ensures |bytes| == |old(bytes)|
      ensures works && buff != null && |bytes| != 0 && SectorEnd(block * BLOCK_SIZE + offset + size) <= |bytes| ==>
                result == 0
    {
      hide Laid, Put, Lo16, NoneCancel;
      if buff == null { return 1; }
      ghost var pos, data := block * BLOCK_SIZE + offset, buff[..];
      LaidNone(bytes, pos, true);
      LaidFailed(bytes, pos, [], bytes, true, data[at..at + size]);
      if |bytes| == 0 { return 1; }
      var sector, off := SectorOf(block, offset);
      assert data == buff[..];
      // a start inside a sector
      if off != 0 {
        var i := Min(SECTOR_SIZE - off, size);
        result := WritePart(sector, off, i, buff, at, pos);
        LaidFailed(old(bytes), pos, data[at..at + i], bytes, false, data[at..at + size]);
        if result != 0 { return; }
        Lo16Small(sector + 1);
        ghost var now := bytes;
        result := WriteAligned(Lo16(sector + 1), size - i, buff, at + i, pos + i);
        LaidMore(old(bytes), pos, data, at, at + i, at + size, now, bytes,
                 NoneCancel(codes), result == 0 && NoneCancel(codes));
      } else {
        result := WriteAligned(sector, size, buff, at, pos);
      }
    }

    /** The part of write_disk from the start of a sector on. */
    method WriteAligned(sector: nat, size: nat, buff: array<byte>, at: nat, ghost pos: nat) returns (result: nat)
      requires Valid() && pos + size <= 0x1_0000 * SECTOR_SIZE && at + size <= buff.Length && buff != aux
      requires size > 0 ==> pos == sector * SECTOR_SIZE
      modifies this`bytes, aux
      ensures Laid(old(bytes), pos, buff[at..at + size], bytes, result == 0 && NoneCancel(codes))
      ensures |bytes| == |old(bytes)|
      ensures works && SectorEnd(pos + size) <= |bytes| ==> result == 0
    {
      hide Laid, WholeSectors, NoneCancel;
      result := 0;
      ghost var data := buff[..];
      LaidNone(bytes, pos, NoneCancel(codes));
      var n_sectors := WholeSectors(size);
      var whole := SECTOR_SIZE * n_sectors;
      assert buff[at..at + size] == data[at..at + size] && data[at..at] == [];
      // the sectors that are wanted whole
      if n_sectors != 0 {
        result := WriteWhole(sector, n_sectors, buff, at, pos, whole);
        LaidFailed(old(bytes), pos, data[at..at + whole], bytes, false, data[at..at + size]);
        if result != 0 { return; }
      }
      // an end inside a sector
      if size - whole != 0 {
        ghost var now := bytes;
        result := WritePart(Lo16(sector + n_sectors), 0, size - whole, buff, at + whole, pos + whole);
        LaidMore(old(bytes), pos, data, at, at + whole, at + size, now, bytes,
                 NoneCancel(codes), result == 0 && NoneCancel(codes));
      }
    }

    /** Overwrites bytes [off, off + n) of a sector. The codes of both transfers are added up. */
    method WritePart(sector: nat, off: nat, n: nat, buff: array<byte>, at: nat, ghost pos: nat) returns (result: nat)
      requires Valid() && pos == sector * SECTOR_SIZE + off && off + n <= SECTOR_SIZE
      requires at + n <= buff.Length && buff != aux && off < SECTOR_SIZE && 0 < off + n
      modifies this`bytes, aux
      ensures Rewritten(codes, old(bytes), sector, off, buff[at..at + n], result, bytes)
      ensures Laid(old(bytes), pos, buff[at..at + n], bytes, result == 0 && NoneCancel(codes))
      ensures |bytes| == |old(bytes)|
      ensures works && (sector + 1) * SECTOR_SIZE <= |bytes| ==> result == 0
    {
      hide Laid, Put, NoneCancel, Rewritten, SectorRead, SectorWritten, Moved;
      ghost var aux0, d, data := aux[..], bytes, buff[at..at + n];
      var r := ReadSectors(sector, 1, aux, 0);
      ghost var was := aux[..];
      SectorGot(codes, bytes, sector, r, aux0, was);
      Memcpy(aux, off, buff, at, n);
      assert aux[0..SECTOR_SIZE] == aux[..];
      var w := WriteSectors(sector, 1, aux, 0);
      SectorPut(codes, d, sector, aux[..], w, bytes);
      result := Lo16(r + w);
      RewriteLaid(codes, d, sector, off, data, r, w, was, bytes, pos);
    }

    /** The whole sectors of write_disk, from buff[at..]. */
    method WriteWhole(sector: nat, n: nat, buff: array<byte>, at: nat, ghost pos: nat, ghost size: nat)
      returns (result: nat)
      requires Valid() && pos == sector * SECTOR_SIZE && size == n * SECTOR_SIZE
      requires 0 < n && sector + n <= 0x1_0000 && at + size <= buff.Length && buff != aux
      modifies this`bytes, aux
      ensures Laid(old(bytes), pos, buff[at..at + size], bytes, result == 0 && NoneCancel(codes))
      ensures |bytes| == |old(bytes)|
      ensures works && pos + size <= |bytes| ==> result == 0
    {
      // in one transfer if the device can
      result := WriteSectors(sector, n, buff, at);
      // a transfer that would cross the boundary is broken up
      if result == DMA_BOUNDARY {
        result := WriteOneByOne(sector, n, buff, at, pos, size);
      }
    }

    method WriteOneByOne(sector0: nat, n: nat, buff: array<byte>, at: nat, ghost pos: nat, ghost size: nat)
      returns (result: nat)
      requires Valid() && pos == sector0 * SECTOR_SIZE && size == n * SECTOR_SIZE
      requires 0 < n && sector0 + n <= 0x1_0000 && at + size <= buff.Length && buff != aux
      modifies this`bytes, aux
      ensures Laid(old(bytes), pos, buff[at..at + size], bytes, result == 0)
      ensures |bytes| == |old(bytes)|
      ensures works && pos + size <= |bytes| ==> result == 0
    {
      hide Laid, Lo16, NoneCancel, Put;
      var sector, i, n_sectors := sector0, at, n;
      ghost var was, data, m := bytes, buff[..], 0;
      result := DMA_BOUNDARY;
      assert data[at..at] == [];
      LaidNone(bytes, pos, true);
      while n_sectors > 0
        invariant m + n_sectors * SECTOR_SIZE == size && i == at + m
        invariant n_sectors > 0 ==> sector * SECTOR_SIZE == pos + m && sector < 0x1_0000
        invariant sector + n_sectors <= 0x1_0000 || n_sectors == 0
        invariant data == buff[..] && Laid(was, pos, data[at..i], bytes, true) && |bytes| == |was|
        invariant n_sectors == 0 ==> result == 0
      {
        ghost var now := bytes;
        result := WriteThrough(sector, buff, i, pos + m);
        LaidMore(was, pos, data, at, i, i + SECTOR_SIZE, now, bytes, true, result == 0);
        LaidFailed(was, pos, data[at..i + SECTOR_SIZE], bytes, false, data[at..at + size]);
        if result != 0 { return; }
        Lo16Small(sector + 1);
        m := m + SECTOR_SIZE;
        i := i + SECTOR_SIZE;
        sector := Lo16(sector + 1);
        n_sectors := n_sectors - 1;
      }
    }

    /** One sector, by way of the sector buffer. */
    method WriteThrough(sector: nat, buff: array<byte>, at: nat, ghost pos: nat) returns (result: nat)
      requires Valid() && pos == sector * SECTOR_SIZE && at + SECTOR_SIZE <= buff.Length && buff != aux
      modifies this`bytes, aux
      ensures Laid(old(bytes), pos, buff[at..at + SECTOR_SIZE], bytes, result == 0)
      ensures |bytes| == |old(bytes)|
      ensures works && pos + SECTOR_SIZE <= |bytes| ==> result == 0
    {
      Memcpy(aux, 0, buff, at, SECTOR_SIZE);
      assert aux[0..SECTOR_SIZE] == buff[at..at + SECTOR_SIZE];
      result := WriteSectors(sector, 1, aux, 0);
    }
  }
}
