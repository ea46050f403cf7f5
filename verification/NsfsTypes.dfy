/** On-disk entities of the NSFS file system: the entry table and the numbers that
    describe it. Indexes, sizes and references are natural numbers; the places where
    the kernel computes with a 16-bit uint are written out with Lo16. */
module NsfsTypes {

  const BLOCK_SIZE: nat := 512
  const SFS_NAMESIZE: nat := 15
  const SFS_ENTRYREFS: nat := 120
  const MAX_ENTRIES: nat := 4096

  const ERROR_NOT_FOUND: nat := 0xFFFF
  const ERROR_EXISTS: nat := 0xFFFE
  const ERROR_IO: nat := 0xFFFD
  const ERROR_NO_SPACE: nat := 0xFFFC
  const ERROR_ANY: nat := 0xFFFB

  const ROOT_DIR_NAME: string := "."

  datatype Option<+T> = None | Some(value: T)

  /** One record of the entry table. The flag byte is kept as its two meaningful bits. */
  datatype Entry = Entry(
    dir: bool,
    file: bool,
    name: string,
    time: nat,
    size: nat,
    parent: nat,
    next: nat,
    refs: seq<nat>)

  type Table = seq<Entry>

  function Lo16(x: int): nat {
    x % 0x1_0000
  }

  function Zeros(n: nat): (z: seq<nat>)
    ensures |z| == n && forall k :: 0 <= k < n ==> z[k] == 0
  {
    seq(n, _ => 0)
  }

  /** What memset(&entry, 0, sizeof(entry)) leaves behind. */
  function Zero(): Entry {
    Entry(false, false, "", 0, 0, 0, 0, Zeros(SFS_ENTRYREFS))
  }

  predicate Used(e: Entry) {
    e.dir || e.file
  }

  /** Every entry has its 120 reference slots, and every index stays inside the table. */
  predicate Shaped(t: Table) {
    && 0 < |t| <= MAX_ENTRIES
    && forall i :: 0 <= i < |t| ==> EntryShaped(t, t[i])
  }

  predicate EntryShaped(t: Table, e: Entry) {
    |e.refs| == SFS_ENTRYREFS && e.next < |t| && e.parent < |t|
  }

  function Min(a: int, b: int): int {
    if a < b then a else b
  }

  /** Blocks needed for a number of bytes. */
  function NeededBlocks(size: nat): nat {
    size / BLOCK_SIZE + if size % BLOCK_SIZE != 0 then 1 else 0
  }

  /** Number of live references of a head entry. */
  function RefCount(e: Entry): nat {
    if e.file then NeededBlocks(Lo16(e.size)) else if e.dir then Lo16(e.size) else 0
  }

  /** The lowest unused entry index from n on, or the table length. */
  function FirstFree(t: Table, n: nat := 0): (r: nat)
    requires n <= |t|
    ensures n <= r <= |t|
    ensures r < |t| ==> !Used(t[r])
    ensures forall i :: n <= i < r ==> Used(t[i])
    decreases |t| - n
  {
    if n == |t| || !Used(t[n]) then n else FirstFree(t, n + 1)
  }
}
