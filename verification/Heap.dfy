/** The kernel's own heap: a fixed number of small blocks, given out in runs of consecutive free
    blocks that all remember the address of the first. */
module Heap {

  const HEAP_MAX_BLOCK: nat := 0x80
  const HEAP_BLOCK_SIZE: nat := 8
  const HEAP_MEM_SIZE: nat := 0x400

  datatype Info = Info(used: bool, ptr: nat)

  const UNUSED: Info := Info(false, 0)

  /** Address of block k; the heap memory starts at base, which is not 0. */
  function Address(base: nat, k: nat): nat { base + k * HEAP_BLOCK_SIZE }

  function BlocksFor(size: nat): (n: nat)
    ensures size > 0 ==> n > 0
    ensures n * HEAP_BLOCK_SIZE >= size && (n > 0 ==> (n - 1) * HEAP_BLOCK_SIZE < size)
  {
    size / HEAP_BLOCK_SIZE + if size % HEAP_BLOCK_SIZE != 0 then 1 else 0
  }

  // ----- the leftmost run

  predicate FreeRun(s: seq<Info>, i: nat, n: nat) {
    i + n <= |s| && forall k :: i <= k < i + n ==> !s[k].used
  }

  /** The lowest start from i on of n free blocks in a row, or the number of blocks. */
  function FirstFit(s: seq<Info>, n: nat, i: nat := 0): (r: nat)
    requires i <= |s|
    ensures r <= |s| && (r < |s| ==> i <= r)
    ensures r < |s| ==> FreeRun(s, r, n)
    ensures forall j: nat :: i <= j < r ==> n == 0 || !FreeRun(s, j, n)
    decreases |s| - i
  {
    if i == |s| || i + n > |s| then |s| else if FreeRun(s, i, n) then i else FirstFit(s, n, i + 1)
  }

  /** s with blocks i to i + n - 1 in use under the address ptr. */
  function Taken(s: seq<Info>, i: nat, n: nat, ptr: nat): (r: seq<Info>)
    ensures |r| == |s|
    ensures forall k :: 0 <= k < |r| ==> r[k] == if i <= k < i + n then Info(true, ptr) else s[k]
  {
    seq(|s|, k requires 0 <= k < |s| => if i <= k < i + n then Info(true, ptr) else s[k])
  }

  datatype Outcome = NoSpace | Given(table: seq<Info>, ptr: nat)

  function AllocStep(s: seq<Info>, base: nat, size: nat): Outcome {
    var n, i := BlocksFor(size), FirstFit(s, BlocksFor(size));
    if size == 0 || i == |s| then NoSpace else Given(Taken(s, i, n, Address(base, i)), Address(base, i))
  }

  function FreeStep(s: seq<Info>, ptr: nat): (r: seq<Info>)
    ensures |r| == |s|
    ensures forall k :: 0 <= k < |s| ==> r[k] == if ptr != 0 && s[k].ptr == ptr && s[k].used then UNUSED else s[k]
  {
    seq(|s|, k requires 0 <= k < |s| => if ptr != 0 && s[k].ptr == ptr && s[k].used then UNUSED else s[k])
  }

  /** A request for some bytes is refused exactly when no run of enough free blocks exists. */
  lemma AllocRefused(s: seq<Info>, base: nat, size: nat)
    requires size > 0
    ensures AllocStep(s, base, size).NoSpace? <==> forall i: nat :: !FreeRun(s, i, BlocksFor(size))
  {
    if i: nat :| FreeRun(s, i, BlocksFor(size)) {
      FitFound(s, BlocksFor(size), 0, i);
    }
  }

  lemma {:induction false} FitFound(s: seq<Info>, n: nat, i: nat, j: nat)
    requires i <= j && 0 < n && FreeRun(s, j, n)
    ensures FirstFit(s, n, i) <= j
    decreases j - i
  {
    if i < j && !FreeRun(s, i, n) { FitFound(s, n, i + 1, j); }
  }

  // ----- groups

  /** Block k belongs to a group that starts at block g. */
  predicate InGroup(s: seq<Info>, base: nat, k: nat, g: nat) {
    g <= k < |s| && s[k].ptr == Address(base, g) && forall j :: g <= j <= k ==> s[j] == s[k]
  }

  /** The blocks in use form groups of neighbours under the address of their first block; the
      others hold no address. */
  ghost predicate Grouped(s: seq<Info>, base: nat) {
    forall k: nat :: k < |s| ==> if s[k].used then exists g :: InGroup(s, base, k, g) else s[k] == UNUSED
  }

  lemma AllocGrouped(s: seq<Info>, base: nat, size: nat)
    requires Grouped(s, base)
    ensures match AllocStep(s, base, size)
            case NoSpace => true
            case Given(t, ptr) => Grouped(t, base)
  {
    if AllocStep(s, base, size).Given? {
      var n, i := BlocksFor(size), FirstFit(s, BlocksFor(size));
      var t := AllocStep(s, base, size).table;
      forall k: nat | k < |t| && t[k].used ensures exists g :: InGroup(t, base, k, g) {
        if i <= k < i + n {
          assert InGroup(t, base, k, i);
        } else {
          var g :| InGroup(s, base, k, g);
          assert InGroup(t, base, k, g) by { SameGroup(s, t, base, k, g, i, n); }
        }
      }
    }
  }

  lemma SameGroup(s: seq<Info>, t: seq<Info>, base: nat, k: nat, g: nat, i: nat, n: nat)
    requires InGroup(s, base, k, g) && s[k].used && FreeRun(s, i, n) && !(i <= k < i + n)
    requires t == Taken(s, i, n, Address(base, i))
    ensures InGroup(t, base, k, g)
  {
    forall j | g <= j <= k ensures t[j] == t[k] {
      assert s[j] == s[k];
    }
  }

  lemma FreeGrouped(s: seq<Info>, base: nat, ptr: nat)
    requires Grouped(s, base)
    ensures Grouped(FreeStep(s, ptr), base)
  {
    var t := FreeStep(s, ptr);
    forall k: nat | k < |t| && t[k].used ensures exists g :: InGroup(t, base, k, g) {
      assert s[k].used;
      var g: nat :| InGroup(s, base, k, g);
      forall j | g <= j <= k ensures t[j] == t[k] {
        assert s[j] == s[k];
      }
      assert InGroup(t, base, k, g);
    }
  }

  /** What is freed is a run of neighbours that starts at the block of that address. */
  lemma FreedRun(s: seq<Info>, base: nat, g: nat, k: nat)
    requires Grouped(s, base) && k < |s| && s[k].used && s[k].ptr == Address(base, g)
    ensures g <= k && forall j :: g <= j <= k ==> s[j].used && s[j].ptr == Address(base, g)
  {
    var g' :| InGroup(s, base, k, g');
    assert g' == g;
    forall j | g <= j <= k ensures s[j] == s[k] {
    }
  }

  /** No block in use remembers the address of a free run. */
  lemma NotOurs(s: seq<Info>, base: nat, i: nat, n: nat, k: nat)
    requires Grouped(s, base) && FreeRun(s, i, n) && 0 < n && k < |s| && s[k].used
    ensures s[k].ptr != Address(base, i)
  {
    var g: nat :| InGroup(s, base, k, g);
    assert s[g] == s[k];
  }

  /** Freeing what was just given puts the heap back. */
  lemma FreeAfterAlloc(s: seq<Info>, base: nat, size: nat)
    requires Grouped(s, base) && base > 0 && AllocStep(s, base, size).Given?
    ensures var g := AllocStep(s, base, size); FreeStep(g.table, g.ptr) == s
  {
    var n, i, g := BlocksFor(size), FirstFit(s, BlocksFor(size)), AllocStep(s, base, size);
    var t := FreeStep(g.table, g.ptr);
    forall k: nat | k < |s| ensures t[k] == s[k] {
      if s[k].used { NotOurs(s, base, i, n, k); }
    }
  }

  // ----- runs

  datatype Op = Alloc(size: nat) | Free(ptr: nat)

  function Next(s: seq<Info>, base: nat, op: Op): seq<Info> {
    match op
    case Alloc(size) => (match AllocStep(s, base, size) case NoSpace => s case Given(t, _) => t)
    case Free(ptr) => FreeStep(s, ptr)
  }

  function After(base: nat, ops: seq<Op>): seq<Info> {
    if ops == [] then seq(HEAP_MAX_BLOCK, _ => UNUSED) else Next(After(base, ops[..|ops| - 1]), base, ops[|ops| - 1])
  }

  /** Over every run of requests the blocks in use stay grouped. */
  lemma {:induction false} AfterGrouped(base: nat, ops: seq<Op>)
    ensures Grouped(After(base, ops), base)
  {
    if ops != [] {
      AfterGrouped(base, ops[..|ops| - 1]);
      match ops[|ops| - 1]
      case Alloc(size) => AllocGrouped(After(base, ops[..|ops| - 1]), base, size);
      case Free(ptr) => FreeGrouped(After(base, ops[..|ops| - 1]), base, ptr);
    }
  }

  // ----- the memory given out

  /** What was asked for, at the address given. */
  datatype Range = Range(start: nat, size: nat)

  function Unfreed(live: seq<Range>, ptr: nat): (r: seq<Range>)
    ensures forall x :: x in r <==> x in live && x.start != ptr
  {
    if live == [] then [] else
    var n := |live| - 1;
    assert live == live[..n] + [live[n]];
    Unfreed(live[..n], ptr) + if live[n].start == ptr then [] else [live[n]]
  }

  /** The ranges given and not freed after a list of requests. */
  function Live(base: nat, ops: seq<Op>): seq<Range> {
    if ops == [] then [] else
    var init := ops[..|ops| - 1];
    match ops[|ops| - 1]
    case Alloc(size) => (match AllocStep(After(base, init), base, size)
                         case NoSpace => Live(base, init)
                         case Given(_, ptr) => Live(base, init) + [Range(ptr, size)])
    case Free(ptr) => Unfreed(Live(base, init), ptr)
  }

  /** The bytes of a range lie in the heap memory. */
  predicate Inside(base: nat, r: Range) {
    base <= r.start && r.start + r.size <= base + HEAP_MEM_SIZE
  }

  /** No two ranges have a byte in common. */
  predicate Apart(live: seq<Range>) {
    forall i, j :: 0 <= i < j < |live| ==> Disjoint(live[i], live[j])
  }

  predicate Disjoint(x: Range, y: Range) {
    x.start + x.size <= y.start || y.start + y.size <= x.start
  }

  /** The blocks from g on are those of the range. */
  predicate BackedAt(s: seq<Info>, base: nat, r: Range, g: nat) {
    && 0 < r.size && r.start == base + g * HEAP_BLOCK_SIZE && g + BlocksFor(r.size) <= |s|
    && forall k :: g <= k < g + BlocksFor(r.size) ==> s[k] == Info(true, r.start)
  }

  ghost predicate Backed(s: seq<Info>, base: nat, r: Range) {
    exists g :: BackedAt(s, base, r, g)
  }

  ghost predicate AllBacked(s: seq<Info>, base: nat, live: seq<Range>) {
    && |s| == HEAP_MAX_BLOCK && Apart(live) && forall r :: r in live ==> Backed(s, base, r)
  }

  lemma BackedApart(s: seq<Info>, base: nat, x: Range, y: Range)
    requires Backed(s, base, x) && Backed(s, base, y) && x.start != y.start
    ensures Disjoint(x, y)
  {
    var g: nat :| BackedAt(s, base, x, g);
    var h: nat :| BackedAt(s, base, y, h);
    assert s[g].ptr == x.start && s[h].ptr == y.start;
    if g < h {
      assert g + BlocksFor(x.size) <= h;
    } else if h < g {
      assert h + BlocksFor(y.size) <= g;
    }
  }

  lemma BackedInside(s: seq<Info>, base: nat, r: Range)
    requires Backed(s, base, r) && |s| == HEAP_MAX_BLOCK
    ensures Inside(base, r)
  {
    var g: nat :| BackedAt(s, base, r, g);
  }

  lemma AllocBacked(s: seq<Info>, base: nat, live: seq<Range>, size: nat)
    requires Grouped(s, base) && AllBacked(s, base, live) && AllocStep(s, base, size).Given?
    ensures var g := AllocStep(s, base, size); AllBacked(g.table, base, live + [Range(g.ptr, size)])
  {
    var n, i, o := BlocksFor(size), FirstFit(s, BlocksFor(size)), AllocStep(s, base, size);
    var x := Range(o.ptr, size);
    assert BackedAt(o.table, base, x, i);
    forall r | r in live ensures Backed(o.table, base, r) && Disjoint(r, x) {
      var g: nat :| BackedAt(s, base, r, g);
      assert s[g].used && s[g].ptr == r.start;
      NotOurs(s, base, i, n, g);
      StaysBacked(s, base, r, g, i, n);
      BackedApart(o.table, base, r, x);
    }
  }

  lemma StaysBacked(s: seq<Info>, base: nat, r: Range, g: nat, i: nat, n: nat)
    requires BackedAt(s, base, r, g) && FreeRun(s, i, n)
    ensures BackedAt(Taken(s, i, n, Address(base, i)), base, r, g)
  {
    var t := Taken(s, i, n, Address(base, i));
    forall k | g <= k < g + BlocksFor(r.size) ensures t[k] == Info(true, r.start) {
      assert s[k].used;
    }
  }

  lemma FreeBacked(s: seq<Info>, base: nat, live: seq<Range>, ptr: nat)
    requires AllBacked(s, base, live)
    ensures AllBacked(FreeStep(s, ptr), base, Unfreed(live, ptr))
  {
    UnfreedApart(live, ptr);
    var t := FreeStep(s, ptr);
    forall r | r in Unfreed(live, ptr) ensures Backed(t, base, r) {
      var g: nat :| BackedAt(s, base, r, g);
      assert BackedAt(t, base, r, g);
    }
  }

  lemma {:induction false} UnfreedApart(live: seq<Range>, ptr: nat)
    requires Apart(live)
    ensures Apart(Unfreed(live, ptr))
  {
    if live != [] {
      var n := |live| - 1;
      var init, rest := live[..n], Unfreed(live[..n], ptr);
      UnfreedApart(init, ptr);
      forall x | x in rest ensures Disjoint(x, live[n]) {
        var k :| 0 <= k < n && init[k] == x;
      }
    }
  }

  lemma {:induction false} AfterBacked(base: nat, ops: seq<Op>)
    ensures Grouped(After(base, ops), base) && AllBacked(After(base, ops), base, Live(base, ops))
  {
    hide Grouped, AllBacked, FreeStep, AllocStep;
    AfterGrouped(base, ops);
    if ops == [] {
      assert AllBacked(After(base, ops), base, []) by { NoneBacked(base); }
    } else {
      var init := ops[..|ops| - 1];
      AfterBacked(base, init);
      match ops[|ops| - 1]
      case Alloc(size) =>
        if AllocStep(After(base, init), base, size).Given? {
          AllocBacked(After(base, init), base, Live(base, init), size);
        }
      case Free(ptr) => FreeBacked(After(base, init), base, Live(base, init), ptr);
    }
  }

  lemma NoneBacked(base: nat)
    ensures AllBacked(After(base, []), base, [])
  {
  }

  /** Over every run, what is given and not freed lies in the heap memory, and no two ranges share a
      byte. */
  lemma LiveApart(base: nat, ops: seq<Op>)
    ensures Apart(Live(base, ops)) && forall r :: r in Live(base, ops) ==> Inside(base, r)
  {
    AfterBacked(base, ops);
    forall r | r in Live(base, ops) ensures Inside(base, r) {
      BackedInside(After(base, ops), base, r);
    }
  }

  /** In any heap, what is given lies in the memory of the blocks, which were free. */
  lemma GivenInside(s: seq<Info>, base: nat, size: nat)
    requires AllocStep(s, base, size).Given?
    ensures var ptr := AllocStep(s, base, size).ptr;
            && base <= ptr && ptr + size <= base + |s| * HEAP_BLOCK_SIZE
            && forall k: nat :: k < |s| && s[k].used ==>
                 Disjoint(Range(base + k * HEAP_BLOCK_SIZE, HEAP_BLOCK_SIZE), Range(ptr, size))
  {
    var n, i := BlocksFor(size), FirstFit(s, BlocksFor(size));
    forall k: nat | k < |s| && s[k].used
      ensures Disjoint(Range(base + k * HEAP_BLOCK_SIZE, HEAP_BLOCK_SIZE), Range(base + i * HEAP_BLOCK_SIZE, size))
    {
      assert k < i || i + n <= k;
    }
  }

  // ----- the kernel's code

  /** Every run that begins from j on and reaches past the used block i is out. */
  lemma {:induction false} PastUsed(s: seq<Info>, n: nat, j: nat, i: nat)
    requires j <= i < |s| && i < j + n && s[i].used
    ensures FirstFit(s, n, j) == FirstFit(s, n, i + 1)
    decreases i - j
  {
    if j + n <= |s| {
      assert !FreeRun(s, j, n);
      if j < i { PastUsed(s, n, j + 1, i); }
    }
  }

  lemma FitsAt(s: seq<Info>, n: nat, i: nat)
    requires 0 < n && FreeRun(s, i, n)
    ensures FirstFit(s, n, i) == i
  {
  }

  lemma FitsNot(s: seq<Info>, n: nat, i: nat)
    requires i <= |s| < i + n
    ensures FirstFit(s, n, i) == |s|
  {
  }

  class KernelHeap {
    const heap: array<Info>
    const base: nat  // address of the heap memory

    constructor (base: nat)
      ensures fresh(heap) && this.base == base && heap.Length == HEAP_MAX_BLOCK && heap[..] == After(base, [])
    {
      heap := new Info[HEAP_MAX_BLOCK](_ => UNUSED);
      this.base := base;
      new;
      assert heap[..] == After(base, []);
    }

    method Alloc(size: nat) returns (addr: nat)
      requires base > 0
      modifies heap
      ensures match AllocStep(old(heap[..]), base, size)
              case NoSpace => addr == 0 && heap[..] == old(heap[..])
              case Given(table, ptr) => addr == ptr && heap[..] == table
      ensures addr != 0 ==> base <= addr && addr + size <= base + heap.Length * HEAP_BLOCK_SIZE
    {
      if size == 0 { return 0; }
      var n_alloc := size / HEAP_BLOCK_SIZE + if size % HEAP_BLOCK_SIZE != 0 then 1 else 0;
      assert n_alloc == BlocksFor(size);
      var first := FindRun(n_alloc);
      if first < heap.Length {
        addr := base + first * HEAP_BLOCK_SIZE;
        Mark(first, first + n_alloc - 1, addr);
        return addr;
      }
      return 0;
    }

    /** Where the leftmost run of so many free blocks begins, or the number of blocks. */
    method FindRun(n_alloc: nat) returns (first: nat)
      requires 0 < n_alloc
      ensures first == FirstFit(heap[..], n_alloc)
    {
      hide FirstFit;
      var n_found := 0;
      ghost var s := heap[..];
      for i := 0 to heap.Length
        invariant n_found <= i && n_found < n_alloc
        invariant forall k :: i - n_found <= k < i ==> !s[k].used
        invariant FirstFit(s, n_alloc) == FirstFit(s, n_alloc, i - n_found)
      {
        if heap[i].used {
          PastUsed(s, n_alloc, i - n_found, i);
          n_found := 0;
        } else {
          n_found := n_found + 1;
          if n_found >= n_alloc {
            FitsAt(s, n_alloc, i + 1 - n_alloc);
            return i + 1 - n_alloc;
          }
        }
      }
      FitsNot(s, n_alloc, heap.Length - n_found);
      return heap.Length;
    }

    method Mark(first: nat, last: nat, addr: nat)
      requires first <= last < heap.Length
      modifies heap
      ensures heap[..] == Taken(old(heap[..]), first, last + 1 - first, addr)
    {
      for j := first to last + 1
        invariant forall k :: 0 <= k < heap.Length ==>
                    heap[k] == if first <= k < j then Info(true, addr) else old(heap[k])
      {
        heap[j] := Info(true, addr);
      }
    }

    method Free(ptr: nat)
      modifies heap
      ensures heap[..] == FreeStep(old(heap[..]), ptr)
    {
      ghost var s := heap[..];
      if ptr != 0 {
        for i := 0 to heap.Length
          invariant forall k :: 0 <= k < heap.Length ==> heap[k] == if k < i then FreeStep(s, ptr)[k] else s[k]
        {
          if heap[i].ptr == ptr && heap[i].used {
            heap[i] := UNUSED;
          }
        }
      }
      assert heap[..] == FreeStep(s, ptr);
    }
  }
}
