/** Far memory handed out to programs: a table of blocks kept sorted by address, with the free
    records at the end. */
module FarMem {
  import opened Memory

  const LMEM_START: nat := 0x28000
  const LMEM_LIMIT: nat := 0x9FC00
  const LMEM_BLOCK_SIZE: nat := 0x10
  const LMEM_MAX_BLOCK: nat := 64
  const WRAP: nat := 0x1_0000_0000

  datatype Rec = Rec(start: nat, size: nat)

  const FREE: Rec := Rec(0, 0)

  function Frees(n: nat): (s: seq<Rec>)
    ensures |s| == n && forall k :: 0 <= k < n ==> s[k] == FREE
  {
    seq(n, _ => FREE)
  }

  function End(b: Rec): nat { b.start + b.size }

  predicate OnBoundary(x: nat) { x % LMEM_BLOCK_SIZE == 0 }

  lemma BoundarySum(x: nat, y: nat)
    ensures OnBoundary(x) && OnBoundary(y) ==> OnBoundary(x + y)
  {
  }

  function Aligned(size: nat): (r: nat)
    ensures size <= r < size + LMEM_BLOCK_SIZE && OnBoundary(r)
  {
    if size % LMEM_BLOCK_SIZE != 0 then size + (LMEM_BLOCK_SIZE - size % LMEM_BLOCK_SIZE) else size
  }

  /** A block in use: on a 16-byte boundary, not empty, in far memory. */
  predicate Block(b: Rec) {
    LMEM_START <= b.start && OnBoundary(b.start) && 0 < b.size && OnBoundary(b.size)
  }

  /** The first n records are blocks in ascending order that do not overlap, the others free. */
  predicate Sorted(s: seq<Rec>, n: nat) {
    && n <= |s| == LMEM_MAX_BLOCK
    && (forall k :: 0 <= k < n ==> Block(s[k]))
    && (forall j, k :: 0 <= j < k < n ==> End(s[j]) <= s[k].start)
    && (forall k :: n <= k < |s| ==> s[k] == FREE)
  }

  /** Moreover every block ends below the last 32-bit address. */
  predicate Good(s: seq<Rec>, n: nat) {
    Sorted(s, n) && forall k :: 0 <= k < n ==> End(s[k]) < WRAP
  }

  ghost predicate Ok(s: seq<Rec>) {
    exists n :: Good(s, n)
  }

  // ----- what the operations compute

  /** Where a block of size bytes goes: after the first block from i on with a wider gap behind
      it, or after the last. */
  function Slot(s: seq<Rec>, size: nat, i: nat): (r: nat)
    requires i < |s|
    ensures i < r <= |s|
    decreases |s| - i
  {
    if i + 1 == |s| || s[i + 1].start == 0 || s[i + 1].start > End(s[i]) + size then i + 1 else Slot(s, size, i + 1)
  }

  /** s with record b put in at i; the last record is lost. */
  function Insert(s: seq<Rec>, i: nat, b: Rec): (r: seq<Rec>)
    requires i < |s|
    ensures |r| == |s|
    ensures forall k :: 0 <= k < |r| ==> r[k] == if k < i then s[k] else if k == i then b else s[k - 1]
  {
    seq(|s|, k requires 0 <= k < |s| => if k < i then s[k] else if k == i then b else s[k - 1])
  }

  datatype Outcome = NoSpace | Given(table: seq<Rec>, start: nat)

  function AllocStep(s: seq<Rec>, size0: nat): Outcome
    requires |s| == LMEM_MAX_BLOCK
  {
    var size := Aligned(size0);
    if size0 == 0 || s[LMEM_MAX_BLOCK - 1].size != 0 then NoSpace
    else if s[0].start == 0 then
      if LMEM_LIMIT - LMEM_START < size then NoSpace else Given(Insert(s, 0, Rec(LMEM_START, size)), LMEM_START)
    else
      var i := Slot(s, size, 0);
      if i == |s| then NoSpace else Given(Insert(s, i, Rec(End(s[i - 1]), size)), End(s[i - 1]))
  }

  /** s without the blocks that start at ptr. */
  function Without(s: seq<Rec>, ptr: nat): (r: seq<Rec>)
    ensures |r| <= |s|
  {
    if s == [] then [] else
    Without(s[..|s| - 1], ptr) + if s[|s| - 1].start == ptr then [] else [s[|s| - 1]]
  }

  function FreeStep(s: seq<Rec>, ptr: nat): seq<Rec> {
    if ptr == 0 then s else var r := Without(s, ptr); r + Frees(|s| - |r|)
  }

  // ----- the same with addresses and sizes of 32 bits

  function Lo32(x: int): nat { x % WRAP }

  function Slot32(s: seq<Rec>, size: nat, i: nat): (r: nat)
    requires i < |s|
    ensures i < r <= |s|
    decreases |s| - i
  {
    if i + 1 == |s| || s[i + 1].start == 0 || s[i + 1].start > Lo32(Lo32(End(s[i])) + size) then i + 1
    else Slot32(s, size, i + 1)
  }

  function AllocStep32(s: seq<Rec>, size0: nat): Outcome
    requires |s| == LMEM_MAX_BLOCK
  {
    var size := Lo32(Aligned(size0));
    if size0 == 0 || s[LMEM_MAX_BLOCK - 1].size != 0 then NoSpace
    else if s[0].start == 0 then
      if LMEM_LIMIT - LMEM_START < size then NoSpace else Given(Insert(s, 0, Rec(LMEM_START, size)), LMEM_START)
    else
      var i := Slot32(s, size, 0);
      var start := Lo32(End(s[i - 1]));
      if i == |s| || start == 0 then NoSpace else Given(Insert(s, i, Rec(start, size)), start)
  }

  /** What the request asks for ends below the last 32-bit address: behind the first block with a wide
      enough gap behind it, or the last, reckoned without wrapping. */
  predicate Ends32(s: seq<Rec>, size0: nat)
    requires |s| == LMEM_MAX_BLOCK
  {
    var size := Aligned(size0);
    || size0 == 0 || s[LMEM_MAX_BLOCK - 1].size != 0
    || if s[0].start == 0 then size < WRAP else End(s[Slot(s, size, 0) - 1]) + size < WRAP
  }

  // ----- what they keep

  predicate Prefix(s: seq<Rec>, n: nat) {
    n <= |s| && (forall k :: 0 <= k < n ==> s[k].start != 0) && forall k :: n <= k < |s| ==> s[k].start == 0
  }

  lemma SortedPrefix(s: seq<Rec>, n: nat)
    requires Sorted(s, n)
    ensures Prefix(s, n)
  {
    hide OnBoundary;
    forall k | 0 <= k < n ensures s[k].start != 0 {
      assert Block(s[k]);
    }
  }

  lemma SortedEnds(s: seq<Rec>, n: nat)
    requires Sorted(s, n)
    ensures n <= |s| == LMEM_MAX_BLOCK && (n < LMEM_MAX_BLOCK <==> s[LMEM_MAX_BLOCK - 1].size == 0)
    ensures n > 0 <==> s[0].start != 0
  {
    hide OnBoundary;
    if n == LMEM_MAX_BLOCK { assert Block(s[LMEM_MAX_BLOCK - 1]); }
    if n > 0 { assert Block(s[0]); }
  }

  lemma {:induction false} SlotFirst(s: seq<Rec>, n: nat, size: nat, i: nat)
    requires Prefix(s, n) && i < n
    ensures var r := Slot(s, size, i);
            && i < r <= n && (r < n ==> s[r].start > End(s[r - 1]) + size)
            && forall k :: i < k < r ==> s[k].start <= End(s[k - 1]) + size
    decreases n - i
  {
    if !(i + 1 == |s| || s[i + 1].start == 0 || s[i + 1].start > End(s[i]) + size) {
      SlotFirst(s, n, size, i + 1);
    }
  }

  lemma Placed(s: seq<Rec>, n: nat, size: nat) returns (i: nat)
    requires Sorted(s, n) && AllocStep(s, size).Given?
    ensures i <= n < LMEM_MAX_BLOCK
    ensures var g, z := AllocStep(s, size), Aligned(size);
            && g.table == Insert(s, i, Rec(g.start, z)) && (i < n ==> g.start + z < s[i].start)
            && (if n == 0 then g.start == LMEM_START && g.start + z <= LMEM_LIMIT
                else i > 0 && g.start == End(s[i - 1]))
    ensures forall k :: 0 < k < i ==> s[k].start <= End(s[k - 1]) + Aligned(size)
    ensures size > 0
  {
    hide OnBoundary, Aligned, Insert, Slot, Sorted, Prefix;
    var z := Aligned(size);
    SortedEnds(s, n);
    SortedPrefix(s, n);
    if n == 0 {
      i := 0;
    } else {
      i := Slot(s, z, 0);
      SlotFirst(s, n, z, 0);
    }
  }

  /** An allocation keeps the table sorted and the blocks apart; it goes into the first gap that
      is wider than the block, or behind the last block, and adds one block. */
  lemma AllocOk(s: seq<Rec>, n: nat, size: nat)
    requires Sorted(s, n) && AllocStep(s, size).Given?
    ensures n < LMEM_MAX_BLOCK
    ensures var g := AllocStep(s, size);
            && Sorted(g.table, n + 1) && 0 < g.start
            && exists i :: 0 <= i <= n && g.table == Insert(s, i, Rec(g.start, Aligned(size)))
                 && (forall k :: 0 < k < i ==> s[k].start <= End(s[k - 1]) + Aligned(size))
  {
    hide OnBoundary, AllocStep, Insert;
    var i := Placed(s, n, size);
    var b := Rec(AllocStep(s, size).start, Aligned(size));
    StartOnBoundary();
    if n > 0 { assert Block(s[i - 1]); BoundarySum(s[i - 1].start, s[i - 1].size); }
    InsertSorted(s, n, i, b);
  }

  lemma StartOnBoundary()
    ensures OnBoundary(LMEM_START)
  {
  }

  lemma InsertSorted(s: seq<Rec>, n: nat, i: nat, b: Rec)
    requires Sorted(s, n) && i <= n < LMEM_MAX_BLOCK && Block(b)
    requires i > 0 ==> End(s[i - 1]) <= b.start
    requires i < n ==> End(b) <= s[i].start
    ensures Sorted(Insert(s, i, b), n + 1)
  {
    hide Block;
    var r := Insert(s, i, b);
    forall k | 0 <= k < n + 1 ensures Block(r[k]) {
    }
    forall j, k | 0 <= j < k < n + 1 ensures End(r[j]) <= r[k].start {
      if j == i { assert i < n && (k - 1 == i || End(s[i]) <= s[k - 1].start); }
      else if k == i { assert j == i - 1 || End(s[j]) <= s[i - 1].start; }
    }
  }

  /** All blocks end within far memory. */
  predicate Within(s: seq<Rec>) {
    forall k :: 0 <= k < |s| ==> End(s[k]) <= LMEM_LIMIT
  }

  /** Only the first block is checked against the limit: what an allocation leaves ends within
      it if and only if the new block was not put behind the last one and past the limit. */
  lemma AllocWithin(s: seq<Rec>, n: nat, size: nat)
    requires Sorted(s, n) && Within(s) && AllocStep(s, size).Given?
    ensures var g := AllocStep(s, size);
            Within(g.table) <==> (n > 0 && g.start == End(s[n - 1]) ==> g.start + Aligned(size) <= LMEM_LIMIT)
  {
    hide OnBoundary, Aligned, Insert, AllocStep, Within;
    var i := Placed(s, n, size);
    InsertWithin(s, n, i, Rec(AllocStep(s, size).start, Aligned(size)));
  }

  lemma InsertWithin(s: seq<Rec>, n: nat, i: nat, b: Rec)
    requires Sorted(s, n) && Within(s) && i <= n < LMEM_MAX_BLOCK
    ensures Within(Insert(s, i, b)) <==> End(b) <= LMEM_LIMIT
    ensures i < n && End(b) < s[i].start ==> End(b) <= LMEM_LIMIT
    ensures 0 < i < n && b.start == End(s[i - 1]) ==> b.start != End(s[n - 1])
  {
    hide Insert, Within, OnBoundary;
    WithinMore(s, i, b);
    if i < n {
      assert Block(s[i]) && Block(s[n - 1]);
      WithinAt(s, i);
    }
    if 0 < i < n {
      assert End(s[i - 1]) <= s[n - 1].start;
    }
  }

  lemma WithinAt(s: seq<Rec>, i: nat)
    requires Within(s) && i < |s|
    ensures End(s[i]) <= LMEM_LIMIT
  {
  }

  lemma WithinMore(s: seq<Rec>, i: nat, b: Rec)
    requires Within(s) && i < |s|
    ensures Within(Insert(s, i, b)) <==> End(b) <= LMEM_LIMIT
  {
    assert Insert(s, i, b)[i] == b;
    forall k | 0 <= k < |s| && k != i ensures End(Insert(s, i, b)[k]) <= LMEM_LIMIT {
    }
  }

  lemma LimitPassed()
    ensures var s := AllocStep(Frees(LMEM_MAX_BLOCK), LMEM_LIMIT - LMEM_START).table;
            Sorted(s, 1) && Within(s) && AllocStep(s, 1).Given? && !Within(AllocStep(s, 1).table)
  {
    var s0 := Frees(LMEM_MAX_BLOCK);
    AllocOk(s0, 0, LMEM_LIMIT - LMEM_START);
    var s := AllocStep(s0, LMEM_LIMIT - LMEM_START).table;
    assert s[0] == Rec(LMEM_START, LMEM_LIMIT - LMEM_START);
    assert AllocStep(s, 1).table[1] == Rec(LMEM_LIMIT, 0x10);
  }

  // ----- addresses that wrap

  lemma Lo32Is(x: nat)
    ensures Lo32(x) <= x && (x < WRAP ==> Lo32(x) == x) && (x == WRAP ==> Lo32(x) == 0)
  {
  }

  lemma AlignedWrap(size: nat)
    ensures size < WRAP ==> Aligned(size) <= WRAP
  {
  }

  /** The search that wraps and the one that does not stop at the same block, if what is put behind the
      one where either stops does not wrap. */
  lemma {:induction false} SlotsAgree(s: seq<Rec>, n: nat, size: nat, i: nat)
    requires Good(s, n) && i < n < |s|
    ensures var r, q := Slot32(s, size, i), Slot(s, size, i);
            && r <= n && q <= n
            && (End(s[r - 1]) + size < WRAP ==> q == r) && (End(s[q - 1]) + size < WRAP ==> q == r)
    decreases n - i
  {
    hide Sorted, Lo32;
    SortedPrefix(s, n);
    Lo32Is(End(s[i]));
    Lo32Is(End(s[i]) + size);
    SlotAfter(s, n, size, i);
    if i + 1 < n {
      SlotsAgree(s, n, size, i + 1);
    }
  }

  lemma SlotAfter(s: seq<Rec>, n: nat, size: nat, i: nat)
    requires Good(s, n) && i < n < |s|
    ensures var q := Slot(s, size, i); i < q <= n && End(s[i]) <= End(s[q - 1])
  {
    SortedPrefix(s, n);
    SlotFirst(s, n, size, i);
    var q := Slot(s, size, i);
    if i < q - 1 {
      assert End(s[i]) <= s[q - 1].start;
    }
  }

  /** Where the code puts the block, whatever wraps: at the start, or behind a block in use. */
  lemma Placed32(s: seq<Rec>, n: nat, size: nat) returns (i: nat)
    requires Good(s, n) && size < WRAP && AllocStep32(s, size).Given?
    ensures i <= n < LMEM_MAX_BLOCK && AllocStep32(s, size).start != 0
    ensures var g := AllocStep32(s, size); g.table == Insert(s, i, Rec(g.start, Lo32(Aligned(size))))
    ensures Ends32(s, size) <==> AllocStep32(s, size).start + Aligned(size) < WRAP
    ensures Ends32(s, size) ==> AllocStep32(s, size) == AllocStep(s, size)
  {
    hide OnBoundary, Aligned, Insert, Sorted;
    var z := Aligned(size);
    AlignedWrap(size);
    SortedEnds(s, n);
    Lo32Is(z);
    if n == 0 {
      i := 0;
    } else {
      i := Slot32(s, Lo32(z), 0);
      SlotsAgree(s, n, Lo32(z), 0);
      Lo32Is(End(s[i - 1]));
    }
  }

  /** In a good table, an allocation with addresses and sizes of 32 bits leaves a good table if and
      only if the block asked for ends below the last address; then it is the allocation without
      wrapping. */
  lemma AllocOkIff(s: seq<Rec>, n: nat, size: nat)
    requires Good(s, n) && size < WRAP && AllocStep32(s, size).Given?
    ensures Ok(AllocStep32(s, size).table) <==> Ends32(s, size)
    ensures Ends32(s, size) ==> AllocStep32(s, size) == AllocStep(s, size)
    ensures Ends32(s, size) ==> n < LMEM_MAX_BLOCK && Good(AllocStep32(s, size).table, n + 1)
  {
    hide OnBoundary, Lo32, AllocStep32, AllocStep, Insert, Block, Ends32;
    var i := Placed32(s, n, size);
    var g, z := AllocStep32(s, size), Aligned(size);
    AlignedWrap(size);
    Lo32Is(z);
    if Ends32(s, size) {
      AllocOk(s, n, size);
      InsertGood(s, n, i, Rec(g.start, z));
    } else {
      forall m ensures !Good(g.table, m) {
        WrappedBad(s, i, Rec(g.start, Lo32(z)), m);
      }
    }
  }

  lemma InsertGood(s: seq<Rec>, n: nat, i: nat, b: Rec)
    requires Good(s, n) && i <= n < LMEM_MAX_BLOCK && End(b) < WRAP && Sorted(Insert(s, i, b), n + 1)
    ensures Good(Insert(s, i, b), n + 1)
  {
  }

  lemma WrappedBad(s: seq<Rec>, i: nat, b: Rec, m: nat)
    requires i < |s| && b.start != 0 && (b.size == 0 || End(b) >= WRAP)
    ensures !Good(Insert(s, i, b), m)
  {
    assert Insert(s, i, b)[i] == b && !(Block(b) && End(b) < WRAP);
  }

  /** A request is refused exactly when it is empty, the table is full, or nothing is in use and it
      is, rounded up in 32 bits, larger than far memory. */
  lemma AllocRefused(s: seq<Rec>, n: nat, size: nat)
    requires Good(s, n)
    ensures AllocStep32(s, size).NoSpace? <==>
            size == 0 || n == LMEM_MAX_BLOCK || (n == 0 && Lo32(Aligned(size)) > LMEM_LIMIT - LMEM_START)
  {
    hide OnBoundary, Aligned, Insert, Slot32, Sorted, Lo32;
    SortedEnds(s, n);
    if 0 < n < LMEM_MAX_BLOCK {
      var i := Slot32(s, Lo32(Aligned(size)), 0);
      SlotsAgree(s, n, Lo32(Aligned(size)), 0);
      EndBounds(s, n, i - 1);
      Lo32Is(End(s[i - 1]));
    }
  }

  lemma EndBounds(s: seq<Rec>, n: nat, i: nat)
    requires Good(s, n) && i < n
    ensures i < |s| && 0 < End(s[i]) < WRAP
  {
    assert Block(s[i]);
  }

  lemma RefusedEnds(s: seq<Rec>, n: nat, size: nat)
    requires Good(s, n) && size < WRAP && AllocStep32(s, size).NoSpace?
    ensures Ends32(s, size)
  {
    hide AllocStep32, Lo32, Aligned, OnBoundary;
    AllocRefused(s, n, size);
    SortedEnds(s, n);
    AlignedWrap(size);
    Lo32Is(Aligned(size));
  }

  /** A request of 2^32 - 1 bytes is rounded to 0, and is given an empty block. */
  lemma RoundedAway()
    ensures AllocStep32(Frees(LMEM_MAX_BLOCK), WRAP - 1)
            == Given(Insert(Frees(LMEM_MAX_BLOCK), 0, Rec(LMEM_START, 0)), LMEM_START)
    ensures !Ok(AllocStep32(Frees(LMEM_MAX_BLOCK), WRAP - 1).table)
  {
    var s := Frees(LMEM_MAX_BLOCK);
    assert Good(s, 0) && !Ends32(s, WRAP - 1);
    AllocOkIff(s, 0, WRAP - 1);
  }

  // ----- freeing

  function Remove(s: seq<Rec>, i: nat): (r: seq<Rec>)
    requires i < |s|
    ensures |r| == |s|
    ensures forall k :: 0 <= k < |r| ==> r[k] == if k < i then s[k] else if k + 1 < |s| then s[k + 1] else FREE
  {
    seq(|s|, k requires 0 <= k < |s| => if k < i then s[k] else if k + 1 < |s| then s[k + 1] else FREE)
  }

  lemma {:induction false} WithoutNone(s: seq<Rec>, ptr: nat)
    requires forall k :: 0 <= k < |s| ==> s[k].start != ptr
    ensures Without(s, ptr) == s
  {
    if s != [] { WithoutNone(s[..|s| - 1], ptr); }
  }

  lemma {:induction false} WithoutOne(s: seq<Rec>, ptr: nat, i: nat)
    requires i < |s| && s[i].start == ptr
    requires forall k :: 0 <= k < |s| && k != i ==> s[k].start != ptr
    ensures Without(s, ptr) == s[..i] + s[i + 1..]
  {
    var t := s[..|s| - 1];
    if i == |s| - 1 {
      WithoutNone(t, ptr);
    } else {
      assert t[i] == s[i] && forall k :: 0 <= k < |t| && k != i ==> t[k] == s[k] && s[k].start != ptr;
      WithoutOne(t, ptr, i);
      assert s[..i] + s[i + 1..] == t[..i] + t[i + 1..] + [s[|s| - 1]];
    }
  }

  /** Freeing an address that no block starts at changes nothing; otherwise it takes that block
      out and nothing else. */
  lemma FreeIs(s: seq<Rec>, n: nat, ptr: nat)
    requires Sorted(s, n)
    ensures (ptr == 0 || forall k :: 0 <= k < n ==> s[k].start != ptr) ==> FreeStep(s, ptr) == s
    ensures forall i :: 0 <= i < n && s[i].start == ptr ==> FreeStep(s, ptr) == Remove(s, i) && ptr != 0
  {
    hide OnBoundary, Remove;
    if ptr != 0 && forall k :: 0 <= k < n ==> s[k].start != ptr {
      WithoutNone(s, ptr);
    }
    forall i | 0 <= i < n && s[i].start == ptr ensures FreeStep(s, ptr) == Remove(s, i) && ptr != 0 {
      FreeFound(s, n, ptr, i);
    }
  }

  lemma FreeFound(s: seq<Rec>, n: nat, ptr: nat, i: nat)
    requires Sorted(s, n) && i < n && s[i].start == ptr
    ensures FreeStep(s, ptr) == Remove(s, i) && ptr != 0
  {
    hide Block, Remove;
    OneStart(s, n, i);
    assert forall k :: 0 <= k < |s| && k != i ==> s[k].start != ptr;
    WithoutOne(s, ptr, i);
    DropOne(s, i);
  }

  lemma DropOne(s: seq<Rec>, i: nat)
    requires i < |s|
    ensures s[..i] + s[i + 1..] + Frees(1) == Remove(s, i)
  {
  }

  lemma OneStart(s: seq<Rec>, n: nat, i: nat)
    requires Sorted(s, n) && i < n
    ensures s[i].start != 0
    ensures forall k :: 0 <= k < |s| && k != i ==> s[k].start != s[i].start
  {
    hide OnBoundary;
    assert Block(s[i]);
    forall k | 0 <= k < |s| && k != i ensures s[k].start != s[i].start {
      if k < n {
        assert Block(s[k]);
        if k < i { assert End(s[k]) <= s[i].start; } else { assert End(s[i]) <= s[k].start; }
      }
    }
  }

  lemma FreeOk(s: seq<Rec>, n: nat, ptr: nat)
    requires Good(s, n)
    ensures Ok(FreeStep(s, ptr))
  {
    hide OnBoundary, FreeStep;
    FreeIs(s, n, ptr);
    if i :| 0 <= i < n && s[i].start == ptr {
      RemoveSorted(s, n, i);
      assert Good(FreeStep(s, ptr), n - 1);
    } else {
      assert Good(FreeStep(s, ptr), n);
    }
  }

  lemma RemoveSorted(s: seq<Rec>, n: nat, i: nat)
    requires Sorted(s, n) && i < n
    ensures Sorted(Remove(s, i), n - 1)
  {
    hide Block;
    var r := Remove(s, i);
    forall k | 0 <= k < n - 1 ensures Block(r[k]) {
    }
    forall j, k | 0 <= j < k < n - 1 ensures End(r[j]) <= r[k].start {
    }
  }

  /** Freeing what was just given puts the table back. */
  lemma FreeAfterAlloc(s: seq<Rec>, n: nat, size: nat)
    requires Sorted(s, n) && AllocStep(s, size).Given?
    ensures var g := AllocStep(s, size); FreeStep(g.table, g.start) == s
  {
    hide OnBoundary, AllocStep, FreeStep, Block, Insert, Remove;
    var i := Placed(s, n, size);
    var g := AllocStep(s, size);
    AllocOk(s, n, size);
    InsertRemove(s, i, Rec(g.start, Aligned(size)));
    FreeIs(g.table, n + 1, g.start);
  }

  lemma InsertRemove(s: seq<Rec>, i: nat, b: Rec)
    requires i < |s| && s[|s| - 1] == FREE
    ensures Insert(s, i, b)[i] == b && Remove(Insert(s, i, b), i) == s
  {
  }

  /** The blocks in use stay as they are, and the new one overlaps none of them. */
  lemma AllocApart(s: seq<Rec>, n: nat, size: nat, b: Rec)
    requires Sorted(s, n) && AllocStep(s, size).Given? && b in s[..n]
    ensures var g := AllocStep(s, size);
            b in g.table[..n + 1] && (End(b) <= g.start || g.start + size <= b.start)
  {
    hide OnBoundary, AllocStep, Block, Insert, Sorted;
    SortedEnds(s, n);
    var i := Placed(s, n, size);
    var g := AllocStep(s, size);
    AllocOk(s, n, size);
    var k :| 0 <= k < n && s[k] == b;
    InsertAt(s, i, Rec(g.start, Aligned(size)), k);
    var k' := if k < i then k else k + 1;
    assert g.table[..n + 1][k'] == g.table[k'];
    SortedApart(g.table, n + 1, k', i);
  }

  lemma InsertAt(s: seq<Rec>, i: nat, b: Rec, k: nat)
    requires i < |s| && k < |s| - 1
    ensures Insert(s, i, b)[i] == b && Insert(s, i, b)[if k < i then k else k + 1] == s[k]
  {
  }

  lemma SortedApart(s: seq<Rec>, n: nat, j: nat, k: nat)
    requires Sorted(s, n) && j < n && k < n && j != k
    ensures n <= |s| && (End(s[j]) <= s[k].start || End(s[k]) <= s[j].start)
  {
  }

  // ----- runs

  datatype Op = Alloc(size: nat) | Free(ptr: nat)

  function Next(s: seq<Rec>, op: Op): (r: seq<Rec>)
    requires |s| == LMEM_MAX_BLOCK
    ensures |r| == LMEM_MAX_BLOCK
  {
    match op
    case Alloc(size) => (match AllocStep32(s, size) case NoSpace => s case Given(t, _) => t)
    case Free(ptr) => FreeStep(s, ptr)
  }

  /** A request that does not wrap. */
  predicate Sound(s: seq<Rec>, op: Op)
    requires |s| == LMEM_MAX_BLOCK
  {
    op.Alloc? ==> Ends32(s, op.size)
  }

  /** The table after the first k of a list of requests, from an empty table on. */
  function After(ops: seq<Op>, k: nat): (s: seq<Rec>)
    requires k <= |ops|
    ensures |s| == LMEM_MAX_BLOCK
  {
    if k == 0 then Frees(LMEM_MAX_BLOCK) else Next(After(ops, k - 1), ops[k - 1])
  }

  lemma NextOkIff(s: seq<Rec>, op: Op)
    requires Ok(s) && |s| == LMEM_MAX_BLOCK && (op.Alloc? ==> op.size < WRAP)
    ensures Ok(Next(s, op)) <==> Sound(s, op)
  {
    hide Good, AllocStep32, FreeStep;
    var n :| Good(s, n);
    match op
    case Free(ptr) => FreeOk(s, n, ptr);
    case Alloc(size) => if AllocStep32(s, size).Given? { AllocOkIff(s, n, size); } else { RefusedEnds(s, n, size); }
  }

  /** Over every run of 32-bit requests, as long as and only as long as none wraps, the blocks in use
      are the first records, sorted, aligned and apart, and end below the last address. */
  lemma {:induction false} AfterOkIff(ops: seq<Op>, n: nat)
    requires n <= |ops| && forall j :: 0 <= j < n && ops[j].Alloc? ==> ops[j].size < WRAP
    ensures (forall k :: 0 <= k <= n ==> Ok(After(ops, k))) <==> forall j :: 0 <= j < n ==> Sound(After(ops, j), ops[j])
    decreases n
  {
    hide Next, Sound, Ok;
    if n == 0 {
      assert Ok(Frees(LMEM_MAX_BLOCK)) by { NoneGood(); }
    } else {
      AfterOkIff(ops, n - 1);
      var s := After(ops, n - 1);
      assert After(ops, n) == Next(s, ops[n - 1]);
      if Ok(s) {
        NextOkIff(s, ops[n - 1]);
      }
    }
  }

  lemma NoneGood()
    ensures Ok(Frees(LMEM_MAX_BLOCK))
  {
    assert Good(Frees(LMEM_MAX_BLOCK), 0);
  }

  // ----- the kernel's code

  class FarMemory {
    const lmem: array<Rec>

    constructor ()
      ensures fresh(lmem) && lmem.Length == LMEM_MAX_BLOCK && lmem[..] == Frees(LMEM_MAX_BLOCK)
    {
      lmem := new Rec[LMEM_MAX_BLOCK](_ => FREE);
      new;
      assert lmem[..] == Frees(LMEM_MAX_BLOCK);
    }

    /** lmem_alloc, on any table. */
    method Alloc(size0: nat) returns (start: nat)
      requires lmem.Length == LMEM_MAX_BLOCK && size0 < WRAP
      modifies lmem
      ensures match AllocStep32(old(lmem[..]), size0)
              case NoSpace => start == 0 && lmem[..] == old(lmem[..])
              case Given(table, p) => start == p && lmem[..] == table
    {
      hide OnBoundary, Aligned, Insert, Slot32, AllocStep32;
      RefusedAtOnce(lmem[..], size0);
      if size0 == 0 || lmem[LMEM_MAX_BLOCK - 1].size != 0 {
        return 0;
      }
      var size := RoundUp(size0);
      var i;
      start, i := FindSpace(size, size0);
      if start != 0 {
        PutAt(i, Rec(start, size));
      }
    }

    method PutAt(i: nat, b: Rec)
      requires lmem.Length == LMEM_MAX_BLOCK && i < LMEM_MAX_BLOCK
      modifies lmem
      ensures lmem[..] == Insert(old(lmem[..]), i, b)
    {
      ghost var s := lmem[..];
      Memcpy(lmem, i + 1, lmem, i, LMEM_MAX_BLOCK - i - 1);
      lmem[i] := b;
      assert forall k :: 0 <= k < LMEM_MAX_BLOCK ==> lmem[k] == Insert(s, i, b)[k];
    }

    /** The search for a big enough free space. */
    method FindSpace(size: nat, ghost size0: nat) returns (start: nat, i: nat)
      requires lmem.Length == LMEM_MAX_BLOCK && size == Lo32(Aligned(size0))
      requires size0 != 0 && lmem[LMEM_MAX_BLOCK - 1].size == 0
      ensures match AllocStep32(lmem[..], size0)
              case NoSpace => start == 0
              case Given(table, p) =>
                start == p != 0 && i < LMEM_MAX_BLOCK && table == Insert(lmem[..], i, Rec(start, size))
    {
      hide OnBoundary, Aligned, Lo32;
      ghost var s := lmem[..];
      start, i := 0, 0;
      while i < LMEM_MAX_BLOCK
        invariant i < LMEM_MAX_BLOCK
        invariant if i == 0 then start == 0 else
                  s[0].start != 0 && s[i].start != 0 && Slot32(s, size, 0) == Slot32(s, size, i)
        decreases LMEM_MAX_BLOCK - i
      {
        if lmem[i].start != 0 {
          if i == LMEM_MAX_BLOCK - 1 {
            start := 0;
            break;
          }
          start := Lo32(lmem[i].start + lmem[i].size);
          if lmem[i + 1].start == 0 || lmem[i + 1].start > Lo32(start + size) {
            i := i + 1;
            break;
          }
        } else {
          if start == 0 { start := LMEM_START; }
          if LMEM_LIMIT - start < size { start := 0; }
          break;
        }
        i := i + 1;
      }
    }

    method RoundUp(size0: nat) returns (size: nat)
      requires size0 < WRAP
      ensures size == Lo32(Aligned(size0))
    {
      size := size0;
      if size % LMEM_BLOCK_SIZE != 0 {
        size := Lo32(size + Lo32(LMEM_BLOCK_SIZE - size % LMEM_BLOCK_SIZE));
      }
    }

    /** lmem_free, on any table. */
    method Free(ptr: nat)
      requires lmem.Length == LMEM_MAX_BLOCK
      modifies lmem
      ensures lmem[..] == FreeStep(old(lmem[..]), ptr)
    {
      if ptr == 0 { return; }
      hide Freeing, Remove, FreeStep;
      ghost var s, j := lmem[..], 0;
      FreeStart(s, ptr);
      var i := 0;
      while i < LMEM_MAX_BLOCK
        invariant i <= LMEM_MAX_BLOCK && j <= LMEM_MAX_BLOCK && Freeing(lmem[..], s, ptr, i, j)
        decreases LMEM_MAX_BLOCK - j, LMEM_MAX_BLOCK - i
      {
        FreeTurn(lmem[..], s, ptr, i, j);
        if lmem[i].start == ptr {
          DropAt(i);
        } else {
          i := i + 1;
        }
        if j < LMEM_MAX_BLOCK {
          j := j + 1;
        }
      }
      FreeEnd(lmem[..], s, ptr, j);
    }

    /** Frees record i and keeps the list sorted and contiguous. */
    method DropAt(i: nat)
      requires lmem.Length == LMEM_MAX_BLOCK && i < LMEM_MAX_BLOCK
      modifies lmem
      ensures lmem[..] == Remove(old(lmem[..]), i)
    {
      lmem[i] := FREE;
      Memcpy(lmem, i, lmem, i + 1, LMEM_MAX_BLOCK - i - 1);
      lmem[LMEM_MAX_BLOCK - 1] := FREE;
      assert forall k :: 0 <= k < LMEM_MAX_BLOCK ==> lmem[k] == Remove(old(lmem[..]), i)[k];
    }
  }

  lemma WithoutNext(s: seq<Rec>, j: nat, ptr: nat)
    requires j < |s|
    ensures Without(s[..j + 1], ptr) == Without(s[..j], ptr) + if s[j].start == ptr then [] else [s[j]]
  {
    assert s[..j + 1][..j] == s[..j];
  }

  lemma RestShifted(kept: seq<Rec>, s: seq<Rec>, j: nat)
    requires |kept| <= j < |s|
    ensures Remove(kept + s[j..] + Frees(j - |kept|), |kept|) == kept + s[j + 1..] + Frees(j + 1 - |kept|)
  {
  }

  lemma KeptMore(kept: seq<Rec>, s: seq<Rec>, j: nat)
    requires |kept| <= j < |s|
    ensures kept + s[j..] + Frees(j - |kept|) == (kept + [s[j]]) + s[j + 1..] + Frees(j + 1 - (|kept| + 1))
  {
  }

  lemma RefusedAtOnce(s: seq<Rec>, size: nat)
    requires |s| == LMEM_MAX_BLOCK
    ensures size == 0 || s[LMEM_MAX_BLOCK - 1].size != 0 ==> AllocStep32(s, size).NoSpace?
  {
  }

  /** Records 0 to j have been looked at; those kept are in front, at i or before. */
  ghost predicate Freeing(table: seq<Rec>, s: seq<Rec>, ptr: nat, i: nat, j: nat) {
    && j <= |s| == LMEM_MAX_BLOCK && i <= LMEM_MAX_BLOCK
    && var kept := Without(s[..j], ptr);
       && (if j < LMEM_MAX_BLOCK then i == |kept| else |kept| <= i)
       && table == kept + s[j..] + Frees(j - |kept|)
  }

  lemma FreeStart(s: seq<Rec>, ptr: nat)
    requires |s| == LMEM_MAX_BLOCK
    ensures Freeing(s, s, ptr, 0, 0)
  {
  }

  lemma FreeTurn(table: seq<Rec>, s: seq<Rec>, ptr: nat, i: nat, j: nat)
    requires Freeing(table, s, ptr, i, j) && i < LMEM_MAX_BLOCK && ptr != 0
    ensures |table| == LMEM_MAX_BLOCK
    ensures var j' := if j < LMEM_MAX_BLOCK then j + 1 else j;
            if table[i].start == ptr then j < j' && Freeing(Remove(table, i), s, ptr, i, j')
            else Freeing(table, s, ptr, i + 1, j')
  {
    var kept := Without(s[..j], ptr);
    assert table[i] == (kept + s[j..] + Frees(j - |kept|))[i];
    hide Without, Remove;
    if j < LMEM_MAX_BLOCK {
      WithoutNext(s, j, ptr);
      RestShifted(kept, s, j);
      KeptMore(kept, s, j);
    }
  }

  lemma FreeEnd(table: seq<Rec>, s: seq<Rec>, ptr: nat, j: nat)
    requires Freeing(table, s, ptr, LMEM_MAX_BLOCK, j) && ptr != 0
    ensures table == FreeStep(s, ptr)
  {
    assert j == LMEM_MAX_BLOCK ==> s[..j] == s && s[j..] == [];
  }
}
