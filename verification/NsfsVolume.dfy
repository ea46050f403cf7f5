/** The kernel's file system operations on one disk. The entry table and the data blocks
    are what the disk holds; every read or write of the disk may fail. */
module NsfsVolume {
  import opened NsfsTypes
  import opened NsfsChain
  import opened NsfsWalk
  import opened NsfsTree
  import opened NsfsFit
  import opened NsfsDir
  import opened NsfsOps
  import opened NsfsBlocks
  import opened NsfsGrow
  import opened NsfsState
  import opened NsfsWrite
  import opened NsfsStray
  import opened NsfsPlace
  import opened NsfsMove
  import opened NsfsSteps
  import opened NsfsOutcome
  import opened NsfsCopy
  import opened NsfsTrust
  import opened NsfsSpace
  import opened NsfsNeed

  class Volume {
    var table: Table
    var disk: Disk
    var size: nat  // number of blocks, from the super block
    const codes: set<nat>  // what a transfer of data that fails can return
    const works: bool  // no transfer fails

    function State(): Fs
      reads this
    {
      Fs(table, disk, size)
    }

    method ReadEntry(n: nat) returns (result: nat, entry: Entry)
      requires n < |table|
      ensures result == ERROR_IO || (result == n && entry == table[n])
      ensures works ==> result == n
    {
      entry := table[n];
      var ok: bool := *;
      result := if ok || works then n else ERROR_IO;
    }

    method WriteEntry(entry: Entry, n: nat) returns (result: nat)
      requires n < |table|
      modifies this`table
      ensures result == 0 || (result == ERROR_IO && !works)
      ensures table == if result == 0 then old(table)[n := entry] else old(table)
    {
      var ok: bool := *;
      if !ok && !works { return ERROR_IO; }
      table := table[n := entry];
      return 0;
    }

    /** Reads the number of entries from the super block. */
    method ReadEntryCount() returns (result: nat, nentries: nat)
      ensures result == 0 || (result == ERROR_IO && !works)
      ensures nentries == |table|
    {
      nentries := |table|;
      var ok: bool := *;
      result := if ok || works then 0 else ERROR_IO;
    }

    method FindFreeEntry() returns (result: nat)
      requires |table| <= MAX_ENTRIES
      ensures (result == ERROR_IO && !works) || result == ERROR_NO_SPACE || result < |table|
      ensures result == ERROR_NO_SPACE ==> FirstFree(table) == |table|
      ensures result < |table| ==> result == FirstFree(table)
    {
      var nentries;
      result, nentries := ReadEntryCount();
      if result != 0 { return; }
      var n := 0;
      while n < nentries
        invariant n <= |table| && FirstFree(table) == FirstFree(table, n)
      {
        var entry;
        result, entry := ReadEntry(n);
        if result >= ERROR_ANY { return; }
        if !Used(entry) { return n; }
        n := n + 1;
      }
      return ERROR_NO_SPACE;
    }

    method SetEntryRefcount(n: nat, refcount: nat, ghost c: seq<nat>) returns (result: nat)
      requires Linked(table, c) && c[0] == n
      modifies this`table
      ensures |table| == old(|table|)
      ensures result == 0 || (result == ERROR_IO && !works) || result == ERROR_NO_SPACE
      ensures result == 0 ==>
                Resize(old(table), c, refcount).Some? && table == Resize(old(table), c, refcount).value.0
      ensures result == ERROR_NO_SPACE ==> Resize(old(table), c, refcount).None? && FirstFree(table) == |table|
    {
      var nentries: nat := refcount / SFS_ENTRYREFS;
      if refcount % SFS_ENTRYREFS != 0 {
        nentries := nentries + 1;
      }
      ReachFails(table, c, refcount);
      assert Shaped(table) && Used(table[0]) && c[0] < |table| <= MAX_ENTRIES;
      hide Linked, IsChain, Shaped, Resize, Reach, Links;
      var nentry;
      result, nentry := AdvanceOrCreate(n, nentries);
      if result >= ERROR_ANY { return; }
      result := EndChain(nentry, refcount, old(table), c);
    }

    /** The part of set_entry_refcount after the walk, which from table t has reached entry n. */
    method EndChain(n: nat, refcount: nat, ghost t: Table, ghost c: seq<nat>) returns (result: nat)
      requires Linked(t, c) && Reach(t, c[0], Links(refcount)) == Some((table, n))
      requires n < |table| == |t| <= MAX_ENTRIES && EntryShaped(table, table[n])
      modifies this`table
      ensures |table| == old(|table|)
      ensures result == 0 || (result == ERROR_IO && !works)
      ensures result == 0 ==>
                Resize(t, c, refcount).Some? && table == Resize(t, c, refcount).value.0
    {
      hide Linked, IsChain, Resize, Reach, Tail, Distinct, Links, ZeroOut, Dropping, InTable, ClearFrom;
      ghost var reached, m, from := table, Links(refcount), refcount % SFS_ENTRYREFS;
      var entry := table[n];
      var next := entry.next;

      // the slots from the count on are cleared in the entry reached
      var refs := ClearRefs(entry.refs, refcount % SFS_ENTRYREFS);
      entry := entry.(refs := refs);
      result := WriteEntry(entry, n);
      if result >= ERROR_ANY { return; }

      // what hangs behind it goes
      if entry.next == 0 {
        ResizeEnds(t, c, refcount, reached, n);
        return;
      }
      entry := entry.(next := 0);
      result := WriteEntry(entry, n);
      if result >= ERROR_ANY { return; }
      ResizeCuts(t, c, refcount, reached, n);
      assert table == EndAt(reached, n, from);
      result := DropLinks(next, reached, c, m + 1);
    }

    method AdvanceOrCreate(n: nat, links: nat) returns (result: nat, nentry: nat)
      requires Shaped(table) && Used(table[0]) && n < |table|
      modifies this`table
      ensures |table| == old(|table|)
      ensures result == 0 || (result == ERROR_IO && !works) || result == ERROR_NO_SPACE
      ensures result == 0 ==> Reach(old(table), n, links) == Some((table, nentry))
      ensures result == 0 ==> nentry < |table| && EntryShaped(table, table[nentry])
      ensures result == ERROR_NO_SPACE ==> Reach(old(table), n, links).None? && FirstFree(table) == |table|
    {
      nentry := n;
      var entry;
      result, entry := ReadEntry(nentry);
      if result >= ERROR_ANY { return; }
      var nentries: nat := links;
      while nentries > 0
        invariant |table| == old(|table|) && nentry < |table| && entry == table[nentry]
        invariant Shaped(table) && Used(table[0])
        invariant Reach(old(table), n, links) == Reach(table, nentry, nentries)
        decreases nentries
      {
        assert EntryShaped(table, table[nentry]);
        if entry.next != 0 {
          result, entry := ReadEntry(entry.next);
          if result >= ERROR_ANY { return; }
          nentry := result;
        } else {
          ghost var before, last := table, nentry;
          var next := FindFreeEntry();
          if next >= ERROR_ANY { return next, nentry; }
          AppendShaped(before, last, next);
          entry := entry.(next := next);
          result := WriteEntry(entry, nentry);
          if result >= ERROR_ANY { return; }
          entry := entry.(parent := nentry);
          nentry := entry.next;
          entry := entry.(next := 0);
          entry := entry.(size := 0);
          entry := entry.(refs := Zeros(SFS_ENTRYREFS));
          result := WriteEntry(entry, nentry);
          if result >= ERROR_ANY { return; }
          assert table == Append(before, last, nentry);
        }
        nentries := nentries - 1;
      }
      return 0, nentry;
    }

    method ClearRefs(refs: seq<nat>, from: nat) returns (r: seq<nat>)
      requires |refs| == SFS_ENTRYREFS && from <= SFS_ENTRYREFS
      ensures r == ClearFrom(refs, from)
    {
      r := refs;
      for i := from to SFS_ENTRYREFS
        invariant |r| == |refs|
        invariant forall k :: 0 <= k < |r| ==> r[k] == if from <= k < i then 0 else refs[k]
      {
        r := r[i := 0];
      }
    }

    /** Zeroes the links of chain c from position p on; t is the table c is a chain of. */
    method DropLinks(first: nat, ghost t: Table, ghost c: seq<nat>, ghost p: nat) returns (result: nat)
      requires IsChain(t, c) && 0 < p < |c| && c[p] == first && |t| <= MAX_ENTRIES
      requires Dropping(table, table, t, c, p, p)
      modifies this`table
      ensures |table| == old(|table|)
      ensures result == 0 || (result == ERROR_IO && !works)
      ensures result == 0 ==> table == ZeroOut(old(table), Tail(c, p))
    {
      var next := first;
      ghost var j := p;
      assert |table| == |t| && InTable(t, c) && next != 0 && Distinct(c);
      hide IsChain, Dropping, Distinct;
      while next != 0
        invariant |table| == old(|table|) && p <= j <= |c|
        invariant next == (if j < |c| then c[j] else 0) && (next == 0 ==> j == |c|)
        invariant Dropping(old(table), table, t, c, p, j)
        decreases |c| - j
      {
        ghost var before := table;
        var current, entry := ReadEntry(next);
        if current >= ERROR_ANY { return current; }
        DropStep(old(table), table, t, c, p, j);
        next := entry.next;
        entry := Zero();
        result := WriteEntry(entry, current);
        if result >= ERROR_ANY { return; }
        j := j + 1;
      }
      DropEnds(old(table), table, t, c, p);
      return 0;
    }

    method SetEntrySize(n: nat, size: nat, ghost c: seq<nat>) returns (result: nat)
      requires IsChain(table, c) && c[0] == n && |table| <= MAX_ENTRIES
      modifies this`table
      ensures |table| == old(|table|)
      ensures result == 0 || (result == ERROR_IO && !works)
      ensures result == 0 ==> table == SetSizes(old(table), c, 0, size)
    {
      var nentry, left := n, size;
      ghost var k := 0;
      ghost var t := table;
      while true
        invariant |table| == |t| && 0 <= k < |c| && nentry == c[k]
        invariant forall i :: 0 <= i < |table| ==> table[i].next == t[i].next
        invariant SetSizes(t, c, 0, size) == SetSizes(table, c, k, left)
        decreases |c| - k
      {
        NextLink(t, c, k);
        var entry;
        result, entry := ReadEntry(nentry);
        if result >= ERROR_ANY { return; }
        entry := entry.(size := left);
        left := SizeAfter(entry, left);
        result := WriteEntry(entry, nentry);
        if result >= ERROR_ANY { return; }
        nentry := entry.next;
        k := k + 1;
        if nentry == 0 { break; }
      }
      return 0;
    }

    /** Finds the chained entry with reference nref, starting from the entry at position k of
        its chain. */
    method GetNrefEntry(entry: Entry, nentry: nat, nref: nat, ghost c: seq<nat>, ghost k: nat)
      returns (result: nat, outentry: Entry)
      requires InTable(table, c) && k < |c| && c[k] == nentry && entry == table[nentry]
      requires |table| <= MAX_ENTRIES && (SFS_ENTRYREFS <= nref ==> IsChain(table, c))
      ensures result < ERROR_ANY ==>
                k + Steps(nref) < |c| && result == c[k + Steps(nref)] && outentry == table[result]
      ensures result == ERROR_NOT_FOUND ==> k + Steps(nref) >= |c|
      ensures result < ERROR_ANY || result == ERROR_NOT_FOUND || (result == ERROR_IO && !works)
    {
      result, outentry := nentry, entry;
      var n: nat := nref / SFS_ENTRYREFS;
      ghost var j := k;
      while n > 0
        invariant k <= j < |c| && result == c[j] && outentry == table[result]
        invariant k + Steps(nref) == if n == 0 then j else j + 1 + Steps(n)
        decreases n
      {
        NextLink(table, c, j);
        if outentry.next != 0 {
          result, outentry := ReadEntry(outentry.next);
          if result >= ERROR_ANY { return; }
        } else {
          return ERROR_NOT_FOUND, outentry;
        }
        n := n / SFS_ENTRYREFS;
        j := j + 1;
      }
    }

    /** On any entry that is the start of a chain, or not in use. The result of set_entry_refcount
        is an error or 0, and is taken for the index of the entry that was added. */
    method AddRef(d: nat, ref: nat) returns (result: nat)
      requires Open(table, d)
      modifies this`table
      ensures |table| == old(|table|)
      ensures result == 0 || (result == ERROR_IO && !works) || result == ERROR_NO_SPACE
      ensures result == 0 ==> AddedTo(old(table), d, ref) == Some(table)
      ensures result == ERROR_NO_SPACE ==> AddedTo(old(table), d, ref) == None && FirstFree(table) == |table|
    {
      hide IsChain, ChainOf, SetSizes, RefCount, Resize, AddedTo, Steps;
      ghost var t, c := table, ChainOf(table, d);
      AddSteps(t, d, ref);
      assert |t| <= MAX_ENTRIES;
      hide Open, Linked, Shaped;
      var entry, refentry, nrefentry;
      result, entry := ReadEntry(d);
      if result >= ERROR_ANY { return; }
      var refcount := RefCount(entry);
      nrefentry, refentry := GetNrefEntry(entry, d, refcount, c, 0);
      if nrefentry >= ERROR_ANY && nrefentry != ERROR_NOT_FOUND { return nrefentry; }
      if nrefentry == ERROR_NOT_FOUND {
        nrefentry := SetEntryRefcount(d, Lo16(refcount + 1), c);
        if nrefentry >= ERROR_ANY { return nrefentry; }
        c := Resize(t, c, Lo16(refcount + 1)).value.1;
        result, refentry := ReadEntry(nrefentry);
        if result >= ERROR_ANY { return; }
      }
      refentry := refentry.(refs := refentry.refs[refcount % SFS_ENTRYREFS := ref]);
      result := WriteEntry(refentry, nrefentry);
      if result >= ERROR_ANY { return; }
      if entry.dir {
        result := SetEntrySize(d, Lo16(entry.size + 1), c);
        if result >= ERROR_ANY { return; }
      }
      return 0;
    }

    /** Looks for ref among the references of the head entry d and shifts the ones after it. */
    method ShiftOut(entry: Entry, d: nat, ref: nat, refcount: nat)
      returns (result: nat, found: bool, refs: seq<nat>)
      requires d < |table| <= MAX_ENTRIES && entry == table[d] && |entry.refs| == SFS_ENTRYREFS
      requires refcount <= SFS_ENTRYREFS && (refcount > 0 ==> EntryOk(table, d))
      ensures result == 0 || (result == ERROR_IO && !works)
      ensures result == 0 ==> var p := Find(entry.refs[..refcount], ref);
                && (found <==> p < refcount)
                && (found ==> refs == ShiftedTo(entry.refs, p, refcount, 0))
    {
      hide ShiftedTo, Zeros;
      var nextentry := entry;
      found, refs := false, entry.refs;
      assert |entry.refs| == SFS_ENTRYREFS;
      ghost var p := Find(entry.refs[..refcount], ref);
      for r := 0 to refcount
        invariant nextentry == entry || (r == SFS_ENTRYREFS && nextentry.refs == Zeros(SFS_ENTRYREFS))
        invariant found <==> p < r
        invariant refs == if found then ShiftedTo(entry.refs, p, r, 0) else entry.refs
      {
        if r + 1 == SFS_ENTRYREFS {
          if nextentry.next != 0 {
            result, nextentry := ReadEntry(nextentry.next);
            if result >= ERROR_ANY { return; }
          } else {
            nextentry := Zero();
          }
        }
        assert entry.refs[..refcount][r] == entry.refs[r];
        if !found && refs[r] == ref {
          found := true;
        }
        if found {
          ShiftOne(entry.refs, p, r, nextentry.refs);
          refs := refs[r := nextentry.refs[(r + 1) % SFS_ENTRYREFS]];
        }
      }
      result := 0;
    }

    /** Also called on the head of a file whose link is being deleted, with the index of the
        link: no reference of the file equals it. */
    method RemoveRef(d: nat, ref: nat, ghost det: set<nat>) returns (result: nat)
      requires Removable(table, det, d, ref)
      modifies this`table
      ensures |table| == old(|table|)
      ensures result == 0 || (result == ERROR_IO && !works) || result == ERROR_NO_SPACE
      ensures result == 0 ==> RefOut(old(table), d, ref, table)
      ensures result == ERROR_NO_SPACE ==> Stuck(old(table), d, ref) && FirstFree(table) == |table|
    {
      hide Removable, RefOut, Stuck, Resize, IsChain, Shaped, ChainOf, SetSizes, ShiftedTo, Find, EntryOk, RefCount;
      RemoveSteps(table, det, d, ref);
      ghost var t, c := table, ChainOf(table, d);
      var entry;
      result, entry := ReadEntry(d);
      if result >= ERROR_ANY { return; }
      var refcount := RefCount(entry);
      var found, refs;
      result, found, refs := ShiftOut(entry, d, ref, refcount);
      if result >= ERROR_ANY { return; }
      if found {
          result := WriteEntry(entry.(refs := refs), d);
        if result >= ERROR_ANY { return; }
        result := SetEntryRefcount(d, refcount - 1, c);
        if result >= ERROR_ANY { return; }
        if entry.dir {
          result := SetEntrySize(d, refcount - 1, Resize(t[d := t[d].(refs := refs)], c, refcount - 1).value.1);
          if result >= ERROR_ANY { return; }
        }
      }
      return 0;
    }

    /** Deletes entry n: its reference, the items of a directory, its link, and itself. */
    method DeleteN(n: nat, ghost k: Kind) returns (result: nat)
      requires CanDelete(table, k, n)
      modifies this`table
      ensures |table| == old(|table|)
      ensures result == 0 || (result == ERROR_IO && !works) || (result == ERROR_NO_SPACE && NoEntry(table))
      ensures result == 0 ==> Erased(old(table), k, n, table)
      ensures works && k.Listed? ==> (result == 0 <==> Affords(old(table), k.det, n))
      decreases Rank(k), Indexes(|table|) - Unlisted(k), 0
    {
      hide RefOut, Removable, Indexes, Stuck, Affords, AffordsRest;
      ghost var t := table;
      DeleteReady(t, k, n);
      var entry;
      result, entry := ReadEntry(n);
      if result >= ERROR_ANY { return; }
      result := RemoveRef(entry.parent, n, Unlisted(k));
      if result >= ERROR_ANY {
        if result == ERROR_NO_SPACE {
          NothingFree(table);
          if k.Listed? { AffordsNot(t, k, n); }
        }
        return;
      }
      DeleteStarts(t, k, n, table);
      if k.Listed? { AffordsStart(t, k, n, table); }
      result := DeleteRest(entry, n, t, k);
    }

    /** delete_n after the reference in the parent. */
    method DeleteRest(entry: Entry, n: nat, ghost t: Table, ghost k: Kind) returns (result: nat)
      requires Underway(t, k, n, entry, table)
      modifies this`table
      ensures |table| == old(|table|)
      ensures result == 0 || (result == ERROR_IO && !works) || (result == ERROR_NO_SPACE && NoEntry(table))
      ensures result == 0 ==> Erased(t, k, n, table)
      ensures works && k.Listed? ==> (result == 0 <==> AffordsRest(old(table), k.det + {n}, n))
      decreases Rank(k), Indexes(|table|) - Unlisted(k) - {n}, 2
    {
      hide Indexes, AffordsRest, Affords, NoEntry;
      RestStarts(t, k, n, entry, table);
      if entry.dir {
        ghost var t1 := table;
        result := DeleteItems(entry, n, t, k);
        if result >= ERROR_ANY { return; }
        ItemsEnd(t, k, n, entry, t1, table);
      } else {
        NoItems(t, k, n, entry, table);
      }
      if entry.next != 0 {
        ghost var t2 := table;
        LinkReady(t, k, n, entry.next, t2);
        LinkAffords(t, k, n, entry.next, t2);
        NextBelow(k, n, 0, |table|);
        result := DeleteN(entry.next, NextKind(k, n));
        if result >= ERROR_ANY { return; }
        LinkErased(t, k, n, entry.next, t2, table);
      } else {
        NoLink(t, k, n, table);
      }
      result := WriteEntry(Zero(), n);
    }

    method DeleteItems(entry: Entry, n: nat, ghost t: Table, ghost k: Kind) returns (result: nat)
      requires Underway(t, k, n, entry, table) && entry.dir
      modifies this`table
      ensures |table| == old(|table|)
      ensures result == 0 || (result == ERROR_IO && !works) || (result == ERROR_NO_SPACE && NoEntry(table))
      ensures result == 0 ==> Emptied(old(table), k, n, Items(entry), |Items(entry)|, table)
      ensures works && k.Listed? ==> (result == 0 <==> AffordsRest(old(table), k.det + {n}, n))
      decreases Rank(k), Indexes(|table|) - Unlisted(k) - {n}, 1
    {
      hide Indexes, Items, Underway, Emptied, CanDelete, Erased, Affords, AffordsRest, NoEntry, Balance;
      ghost var t1, l := table, Items(entry);
      ItemsStart(t, k, n, entry, table);
      if k.Listed? { BalanceStart(t1, k, n, l); }
      var b := 0;
      while b < Min(entry.size, SFS_ENTRYREFS)
        invariant |table| == |t1| && 0 <= b <= |l| && Emptied(t1, k, n, l, b, table)
        invariant b == 0 ==> table == t1
        invariant works && k.Listed? ==> Balance(t1, k.det + {n}, n, l, b, table)
      {
        ghost var t2 := table;
        ItemReady(t1, k, n, l, b, t2);
        NextBelow(k, n, b, |table|);
        assert entry.refs[b] == l[b];
        result := DeleteN(entry.refs[b], ItemKind(k, n, b));
        if result >= ERROR_ANY {
          if works && k.Listed? { BalanceLost(t1, k, n, l, b, t2); }
          return;
        }
        ItemErased(t1, k, n, l, b, t2, table);
        if works && k.Listed? { BalanceKept(t1, k, n, l, b, t2, table); }
        b := b + 1;
      }
      if works && k.Listed? { BalanceEnds(t1, k.det + {n}, n, l, table); }
      return 0;
    }

    method SetEntryTime(n: nat, time: nat, ghost c: seq<nat>) returns (result: nat)
      requires IsChain(table, c) && c[0] == n && |table| <= MAX_ENTRIES
      modifies this`table
      ensures |table| == old(|table|)
      ensures result == 0 || (result == ERROR_IO && !works)
      ensures result == 0 ==> table == SetTimes(old(table), c, 0, time)
    {
      var nentry := n;
      ghost var k := 0;
      ghost var t := table;
      while true
        invariant |table| == |t| && 0 <= k < |c| && nentry == c[k]
        invariant forall i :: 0 <= i < |table| ==> table[i].next == t[i].next
        invariant SetTimes(t, c, 0, time) == SetTimes(table, c, k, time)
        decreases |c| - k
      {
        NextLink(t, c, k);
        var entry;
        result, entry := ReadEntry(nentry);
        if result >= ERROR_ANY { return; }
        entry := entry.(time := time);
        result := WriteEntry(entry, nentry);
        if result >= ERROR_ANY { return; }
        nentry := entry.next;
        k := k + 1;
        if nentry == 0 { break; }
      }
      return 0;
    }

    /** fs_get_entry with a parent and a single name. */
    method Lookup(p: nat, name: string) returns (result: nat, entry: Entry)
      requires |table| <= MAX_ENTRIES
      ensures result < ERROR_ANY || result == ERROR_NOT_FOUND || (result == ERROR_IO && !works)
      ensures result < ERROR_ANY ==> result == FindName(table, p, name) < |table| && entry == table[result]
      ensures result == ERROR_NOT_FOUND ==> FindName(table, p, name) == |table|
    {
      var nentries;
      entry := Zero();
      result, nentries := ReadEntryCount();
      if result != 0 { return ERROR_IO, entry; }
      var n := 0;
      while n < nentries
        invariant n <= |table| && FindName(table, p, name) == FindName(table, p, name, n)
      {
        result, entry := ReadEntry(n);
        if result >= ERROR_ANY { return; }
        if Matches(entry, p, name) { return n, entry; }
        n := n + 1;
      }
      return ERROR_NOT_FOUND, entry;
    }

    // ----- free blocks

    /** Looks for a block among the references of an entry that is marked as a file. */
    method EntryRefers(entry: Entry, block: nat) returns (found: bool)
      requires |entry.refs| == SFS_ENTRYREFS
      ensures found <==> Refers(entry, block)
    {
      found := false;
      if entry.file {
        var b := 0;
        while b < Min(NeededBlocks(Lo16(entry.size)), SFS_ENTRYREFS)
          invariant 0 <= b <= SFS_ENTRYREFS
          invariant forall a :: 0 <= a < b ==> entry.refs[a] != block
        {
          if entry.refs[b] == block { return true; }
          b := b + 1;
        }
      }
    }

    method BlockInUse(block: nat) returns (result: nat, found: bool)
      requires |table| <= MAX_ENTRIES && forall i :: 0 <= i < |table| ==> |table[i].refs| == SFS_ENTRYREFS
      ensures result == 0 || (result == ERROR_IO && !works)
      ensures result == 0 ==> (found <==> Busy(table, block))
    {
      found := false;
      var n := 0;
      while !found && n < |table|
        invariant n <= |table|
        invariant found ==> Busy(table, block)
        invariant !found ==> forall i :: 0 <= i < n ==> !Refers(table[i], block)
        decreases |table| - n
      {
        var entry;
        result, entry := ReadEntry(n);
        if result >= ERROR_ANY { return; }
        found := EntryRefers(entry, block);
        n := n + 1;
      }
      result := 0;
    }

    method FindFreeBlock() returns (result: nat)
      requires |table| <= MAX_ENTRIES && forall i :: 0 <= i < |table| ==> |table[i].refs| == SFS_ENTRYREFS
      ensures var free := LowestFree(table, FirstDataBlock(|table|), BlockLimit(size));
              || (result == ERROR_IO && !works)
              || (result == ERROR_NO_SPACE && free >= BlockLimit(size))
              || (result == free < BlockLimit(size))
    {
      var nentries;
      result, nentries := ReadEntryCount();
      if result != 0 { return ERROR_IO; }
      var block := FirstDataBlock(nentries);
      var max_blocks := Lo16(size);
      ghost var free := LowestFree(table, FirstDataBlock(|table|), BlockLimit(size));
      while block < max_blocks
        invariant free == LowestFree(table, block, BlockLimit(size))
      {
        var found;
        result, found := BlockInUse(block);
        if result >= ERROR_ANY { return; }
        if !found { return block; }
        block := block + 1;
      }
      return ERROR_NO_SPACE;
    }

    // ----- file contents

    method ReadBlock(block: nat, off: nat, n: nat, buff: array<byte>, at: nat) returns (result: nat)
      requires block < |disk| && |disk[block]| == BLOCK_SIZE && off + n <= BLOCK_SIZE && at + n <= buff.Length
      modifies buff
      ensures result == 0 || !works
      ensures result == 0 ==> buff[at..at + n] == disk[block][off..off + n]
      ensures buff[..at] == old(buff[..at])
    {
      var ok: bool := *;
      if !ok && !works { return ERROR_IO; }
      forall i | 0 <= i < n {
        buff[at + i] := disk[block][off + i];
      }
      return 0;
    }

    /** One turn of the reading loop: m bytes of the file, to buff[read]. */
    method ReadPiece(buff: array<byte>, entry: Entry, nentry: nat, block: nat, off: nat, m: nat, read: nat,
                     ghost c: seq<nat>, ghost pos: nat, ghost offset: nat)
      returns (result: nat, n: nat, e: Entry)
      requires Readable(table, c, disk) && |table| <= MAX_ENTRIES && OnChain(table, c, pos, nentry, entry)
      requires AtPosition(offset + read, pos, block, off) && block < 2 * SFS_ENTRYREFS && 0 < m <= BLOCK_SIZE - off
      requires offset + read + m <= |Content(table, c, disk)| && read + m <= buff.Length
      requires Holds(buff[..], Content(table, c, disk), offset, read)
      modifies buff
      ensures result == 0 || (result == ERROR_IO && !works)
      ensures result == 0 ==>
                && OnChain(table, c, pos + block / SFS_ENTRYREFS, n, e)
                && Holds(buff[..], Content(table, c, disk), offset, read + m)
    {
      hide Content, Steps, Readable, IsChain, AtPosition, DiskOk;
      ghost var content := Content(table, c, disk);
      PieceReady(table, c, disk, pos, block, off, offset + read, m);
      n, e := GetNrefEntry(entry, nentry, block, c, pos);
      if n >= ERROR_ANY { return n, n, e; }
      result := ReadBlock(e.refs[block % SFS_ENTRYREFS], off, m, buff, read);
      if result != 0 { return ERROR_IO, n, e; }
      PieceRead(buff[..], content, offset, read, m);
    }

    /** The reading loop: count bytes from offset on, both within the file. */
    method ReadBlocks(buff: array<byte>, entry: Entry, nentry: nat, offset: nat, count: nat, ghost c: seq<nat>)
      returns (result: nat)
      requires Readable(table, c, disk) && c[0] == nentry && entry == table[nentry] && |table| <= MAX_ENTRIES
      requires offset + count <= entry.size && offset < 0x1_0000 && count <= buff.Length
      modifies buff
      ensures result == 0 || (result == ERROR_IO && !works)
      ensures result == 0 ==> Holds(buff[..], Content(table, c, disk), offset, count)
    {
      hide Content, Readable, AtPosition, OnChain, IsChain, Holds, DiskOk;
      var e, n: nat, read: nat := entry, nentry, 0;
      var block: nat, off: nat := offset / BLOCK_SIZE, offset % BLOCK_SIZE;
      ghost var pos: nat, content := 0, Content(table, c, disk);
      ReadStart(table, c, disk, offset, buff[..]);
      while read < count
        invariant read <= count && block < 2 * SFS_ENTRYREFS && off < BLOCK_SIZE
        invariant OnChain(table, c, pos, n, e)
        invariant read < count ==> AtPosition(offset + read, pos, block, off)
        invariant Holds(buff[..], content, offset, read)
      {
        NextPosition(offset + read, pos, block, off);
        var m: nat := Min(BLOCK_SIZE - off, count - read);
        result, n, e := ReadPiece(buff, e, n, block, off, m, read, c, pos, offset);
        if result != 0 { return; }
        pos := pos + block / SFS_ENTRYREFS;
        block := block % SFS_ENTRYREFS + 1;
        read := read + m;
        off := 0;
      }
      return 0;
    }

    /** fs_read_file on a name in directory p. For a directory the kernel returns its index. */
    method ReadFile(buff: array<byte>, p: nat, name: string, offset: nat, count: nat, ghost c: seq<nat>)
      returns (result: nat)
      requires |table| <= MAX_ENTRIES && offset < 0x1_0000 && count <= buff.Length
      requires var f := FindName(table, p, name);
               f < |table| && table[f].file ==> Readable(table, c, disk) && c[0] == f
      modifies buff
      ensures var f := FindName(table, p, name);
              || (result == ERROR_IO && !works)
              || (f == |table| && result == ERROR_NOT_FOUND)
              || (f < |table| && !table[f].file && result == f)
              || (f < |table| && table[f].file && result <= buff.Length
                  && buff[..result] == ReadRange(Content(table, c, disk), offset, count))
    {
      var nentry, entry := Lookup(p, name);
      if nentry < ERROR_ANY && entry.file {
        var off: nat := Min(offset, entry.size);
        var n: nat := Min(count, entry.size - off);
        result := ReadBlocks(buff, entry, nentry, off, n, c);
        if result != 0 { return ERROR_IO; }
        return n;
      }
      return nentry;
    }

    /** A transfer that fails may leave anything in the block. */
    method WriteBlock(block: nat, off: nat, n: nat, buff: array<byte>, at: nat)
      returns (result: nat, ghost junk: seq<byte>)
      requires block < |disk| && |disk[block]| == BLOCK_SIZE && off + n <= BLOCK_SIZE && at + n <= buff.Length
      modifies this`disk
      ensures result == 0 || (Fails(codes, result) && !works)
      ensures result == 0 ==> disk == WriteIn(old(disk), block, off, buff[at..at + n])
      ensures result != 0 ==> |junk| == BLOCK_SIZE && disk == old(disk)[block := junk]
    {
      result := 0;
      var ok: bool := *;
      if !ok && !works && codes != {} {
        result :| result in codes;
      }
      var left := new byte[BLOCK_SIZE];
      junk := left[..];
      disk := if result == 0 then WriteIn(disk, block, off, buff[at..at + n]) else disk[block := left[..]];
    }

    /** The writing loop, through the references of one entry. The code of a transfer that fails is
        returned as it is. */
    method WriteData(buff: array<byte>, entry: Entry, offset: nat, count: nat) returns (result: nat)
      requires Reaches(entry, disk, offset + count) && offset + count <= entry.size && count <= buff.Length
      modifies this`disk
      ensures result == 0 || (Fails(codes, result) && !works)
      ensures Confined(entry, old(disk), disk)
      ensures result == 0 ==> disk == Lay(entry, old(disk), offset, buff[..count])
      ensures result != 0 ==> LayFails(entry, old(disk), offset, buff[..count], disk)
    {
      hide Laying, Reaches, Lay, LayFails, Confined, NeededBlocks, WriteIn, DiskOk;
      var off: nat, left: nat, written: nat := offset, count, 0;
      ghost var disk0, data := disk, buff[..count];
      LayingStarts(entry, disk, offset, data);
      assert buff[0..count] == data;
      while left > 0
        invariant written + left == count && off == offset + written
        invariant Laying(entry, disk0, offset, data, disk, off, buff[written..count])
      {
        var to_copy: nat := Min(left, BLOCK_SIZE - off % BLOCK_SIZE);
        var current_block := NeededBlocks(off + to_copy) - 1;
        ghost var disk1, rest, junk := disk, buff[written..count], [];
        LayingTurn(entry, disk0, offset, data, disk, off, rest);
        assert rest[..to_copy] == buff[written..written + to_copy];
        assert rest[to_copy..] == buff[written + to_copy..count];
        result, junk := WriteBlock(entry.refs[current_block], off % BLOCK_SIZE, to_copy, buff, written);
        if result != 0 {
          LayingFails(entry, disk0, offset, data, disk1, off, rest, junk);
          return;
        }
        left := left - to_copy;
        off := off + to_copy;
        written := written + to_copy;
      }
      assert buff[count..count] == [];
      LayingEnds(entry, disk0, offset, data, disk, off);
      return 0;
    }

    // ----- growing and creating files

    /** The resizing part of fs_write_file: any number of blocks may be added. */
    method GrowFile(n: nat, entry0: Entry, newsize: nat) returns (result: nat, entry: Entry)
      requires n < |table| && table[n].next < |table| && entry0 == table[n]
      requires table[n].size < newsize ==> Extendable(table, n, newsize)
      modifies this`table
      ensures result == 0 || result >= ERROR_ANY
      ensures result == 0 ==> GrowStep(old(State()), n, newsize) == Some(table) && n < |table| && entry == table[n]
      ensures result >= ERROR_ANY ==> || (result == ERROR_IO && !works)
                                      || (&& GrowStep(old(State()), n, newsize) == None && Full(State())
                                          && (result == ERROR_NO_SPACE || NoBlock(State(), result)))
    {
      hide Extendable, Grown, LowestFree, NeededBlocks, Sized;
      entry := entry0;
      if entry.size < newsize {
        ghost var s, t, hi := State(), table, BlockLimit(size);
        result := SizeFile(n, newsize);
        if result >= ERROR_ANY {
          if result == ERROR_NO_SPACE {
            GrowStepStuck(s, n, newsize);
            NothingFree(table);
          }
          return;
        }
        ghost var t1 := table;
        SizedFree(t, n, newsize, t1, hi);
        SizedShape(t, n, newsize, t1);
        ghost var free := LowestFree(t, FirstDataBlock(|t|), hi);
        result := AllocateBlocks(n, NeededBlocks(entry0.size), NeededBlocks(newsize));
        if result >= ERROR_ANY {
          if result != ERROR_IO || works {
            GrowStepFull(s, n, newsize, free);
            NoBlockFree(State());
          }
          return;
        }
        SizedGrown(t, n, newsize, t1, free);
        GrowStepIs(s, n, newsize, free);
        result, entry := ReadEntry(n);
        if result >= ERROR_ANY { return; }
      }
      return 0, entry;
    }

    /** Reference count and size of the chain of a file to be grown. */
    method SizeFile(n: nat, newsize: nat) returns (result: nat)
      requires Extendable(table, n, newsize)
      modifies this`table
      ensures result == 0 || (result == ERROR_IO && !works) || result == ERROR_NO_SPACE
      ensures |table| == old(|table|)
      ensures result == 0 ==> Sized(old(table), n, newsize, table)
      ensures result == ERROR_NO_SPACE ==> n < |table| && old(table)[n].next < |old(table)|
                                           && Fit(old(table), n, old(table)[n].(size := newsize)) == None
      ensures result == ERROR_NO_SPACE ==> FirstFree(table) == |table|
    {
      hide Extendable, Linked, IsChain, Resize, SetSizes, Sized, NeededBlocks;
      ghost var t := table;
      ExtendableChain(t, n, newsize);
      ghost var c := ChainOf(t, n);
      GrowSteps(t, n, newsize);
      result := SetEntryRefcount(n, NeededBlocks(newsize), c);
      if result >= ERROR_ANY { return; }
      result := SetEntrySize(n, newsize, Resize(t, c, NeededBlocks(newsize)).value.1);
    }

    /** The allocation loop: the entry is stored after it, so that each turn finds the same block. */
    method AllocateBlocks(n: nat, current: nat, final: nat) returns (result: nat)
      requires n < |table| <= MAX_ENTRIES && forall i :: 0 <= i < |table| ==> |table[i].refs| == SFS_ENTRYREFS
      requires current <= final <= SFS_ENTRYREFS
      modifies this`table
      ensures result == 0 || result >= ERROR_ANY
      ensures result >= ERROR_ANY ==> || (result == ERROR_IO && !works)
                                      || (current < final && table == old(table) && NoBlock(State(), result))
      ensures var free := LowestFree(old(table), FirstDataBlock(|old(table)|), BlockLimit(size));
              result == 0 ==>
                && (current < final ==> free < UsableLimit(size))
                && table == old(table)[n := old(table)[n].(refs := FillSlots(old(table)[n].refs, current, final, free))]
    {
      ghost var free, refs := LowestFree(table, FirstDataBlock(|table|), BlockLimit(size)), table[n].refs;
      var tentry;
      result, tentry := ReadEntry(n);
      if result >= ERROR_ANY { return; }
      hide LowestFree;
      assert FillSlots(refs, current, current, free) == refs;
      for b := current to final
        invariant table == old(table)
        invariant tentry == table[n].(refs := FillSlots(refs, current, b, free))
        invariant current < b ==> free < UsableLimit(size)
      {
        var block := FindFreeBlock();
        tentry := tentry.(refs := tentry.refs[b := block]);
        if block >= ERROR_ANY { return block; }
      }
      result := WriteEntry(tentry, n);
    }

    // ----- the operations on directories

    /** Writes a new head in the lowest free entry and adds it to the list of its parent, whatever
        that is. A directory's time is set in between. */
    method AddEntry(entry: Entry, time: nat) returns (result: nat)
      requires FsOk(State()) && entry.parent < |table| && Used(table[entry.parent])
      requires Fresh(entry, entry.parent) && entry.time == 0
      modifies this`table
      ensures result < ERROR_ANY ==>
                CreateLeaves(old(table), entry.parent, if entry.dir then entry.(time := time) else entry, table, result)
      ensures result < ERROR_ANY || (result == ERROR_IO && !works) || result == ERROR_NO_SPACE
      ensures result == ERROR_NO_SPACE ==>
                && NoneMade(old(table), entry.parent, if entry.dir then entry.(time := time) else entry)
                && NoEntry(table)
    {
      ghost var t := table;
      var nentry := FindFreeEntry();
      ghost var e := if entry.dir then entry.(time := time) else entry;
      if nentry >= ERROR_ANY {
        if nentry == ERROR_NO_SPACE {
          NoneMadeFull(t, entry.parent, e);
          NothingFree(t);
        }
        return nentry;
      }
      CreateOpen(t, entry.parent, e, nentry);
      hide FsOk, Open, AddedTo;
      result := WriteEntry(entry, nentry);
      if result >= ERROR_ANY { return; }
      if entry.dir {
        NewChain(t, nentry, entry);
        result := SetEntryTime(nentry, time, [nentry]);
        if result >= ERROR_ANY { return; }
        SetTimesOne(t[nentry := entry], nentry, time);
      }
      assert table == t[nentry := e];
      result := AddRef(entry.parent, nentry);
      if result >= ERROR_ANY {
        if result == ERROR_NO_SPACE {
          NoneMadeStuck(t, entry.parent, e);
          NothingFree(table);
        }
        return;
      }
      return nentry;
    }

    /** fs_create_directory below an entry that a path can lead to. */
    method CreateDirectory(p: nat, name: string, time: nat) returns (result: nat)
      requires FsOk(State()) && p < |table| && Used(table[p]) && ValidName(name)
      modifies this`table
      ensures result < ERROR_ANY ==>
                result == FirstFree(old(table)) && Next(old(State()), Op.MakeDir(p, name, time), State())
      ensures result >= ERROR_ANY ==>
                || (result == ERROR_IO && !works)
                || (result == ERROR_EXISTS && table == old(table) && FindName(table, p, name) < |table|)
                || (result == ERROR_NO_SPACE && NoEntry(table))
      ensures works ==> (result < ERROR_ANY <==> Can(old(State()), Op.MakeDir(p, name, time)))
      ensures works && HasRoom(old(table), p) ==>
                (result < ERROR_ANY <==>
                  FindName(old(table), p, name) == |old(table)| && |FreeEntries(old(table))| >= 1)
    {
      hide FsOk, CreateLeaves, Can, Next, HasRoom;
      ghost var s := State();
      TableSmall(s);
      if HasRoom(table, p) { CanMakeDirIff(s, p, name, time); }
      var entry;
      result, entry := Lookup(p, name);
      if result != ERROR_NOT_FOUND {
        if result >= ERROR_ANY { return; }
        CannotMakeDir(s, p, name, time);
        return ERROR_EXISTS;
      }
      result := AddEntry(DirEntry(p, name, 0), time);
      if result < ERROR_ANY {
        DirectoryDone(s, p, name, time, State(), result);
      } else if result == ERROR_NO_SPACE {
        CannotMakeDir(s, p, name, time);
      }
    }

    /** fs_write_file without truncation, on a name below an entry that a path can lead to. A file is
        written at or before its end and at most one block at a time, as the callers do. A result
        below ERROR_ANY is the number of bytes, or the code of a transfer that failed. */
    method WriteFile(buff: array<byte>, p: nat, name: string, offset: nat, count: nat, create: bool, time: nat)
      returns (result: nat)
      requires FsOk(State()) && p < |table| && Used(table[p]) && ValidName(name)
      requires count <= buff.Length && count <= BLOCK_SIZE && offset + count <= SFS_ENTRYREFS * BLOCK_SIZE
      requires var f := FindName(table, p, name); if f < |table| then offset <= table[f].size else offset == 0
      modifies this`table, this`disk
      ensures FileOutcome(old(State()), p, name, offset, buff[..count], create, time, codes, State(), result)
      ensures result == count && !Fails(codes, count) ==>
                Next(old(State()), Op.Write(p, name, offset, buff[..count], create, time), State())
      ensures result < ERROR_ANY ==> result == count || Fails(codes, result)
      ensures result < ERROR_ANY && Aimed(old(State()), p, name) ==>
                WroteSome(old(State()), p, name, offset, buff[..count], State())
      ensures result >= ERROR_ANY ==>
                || (!works && (result == ERROR_IO || Fails(codes, result)))
                || (&& result == ERROR_NOT_FOUND && State() == old(State())
                    && var f := FindName(table, p, name); if f < |table| then table[f].dir else !create)
                || (Full(State()) && (result == ERROR_NO_SPACE || NoBlock(State(), result)))
      ensures works ==> result == count || result >= ERROR_ANY
      ensures works ==>
                (result == count <==> Can(old(State()), Op.Write(p, name, offset, buff[..count], create, time)))
      ensures works && result == count ==>
                Next(old(State()), Op.Write(p, name, offset, buff[..count], create, time), State())
      ensures works && Aimed(old(State()), p, name) ==>
                (result == count <==>
                  && (var f := FindName(old(table), p, name); if f < |old(table)| then old(table)[f].file else create)
                  && SpaceFor(old(State()), p, name, offset, count))
    {
      hide FsOk, Made, WriteOutcome, FileOutcome, IsHead, HasRoom, Fillable, CreateLeaves, Aimed, WroteSome, Next;
      hide Can, Full, NoBlock, GrowStep, NoneMade, Written, SpaceFor;
      var nentry, entry;
      TableSmall(State());
      ghost var s, data := State(), buff[..count];
      if Aimed(s, p, name) { CanWriteIff(s, p, name, offset, data, create, time); }
      nentry, entry := Lookup(p, name);
      if (nentry == ERROR_NOT_FOUND && !create) || (nentry >= ERROR_ANY && nentry != ERROR_NOT_FOUND) {
        ErrorOutcome(s, p, name, offset, data, create, time, codes, State(), nentry);
        if nentry == ERROR_NOT_FOUND { CannotWriteMade(s, p, name, offset, data, create, time); }
        return nentry;
      }
      if nentry < ERROR_ANY && entry.dir {
        ErrorOutcome(s, p, name, offset, data, create, time, codes, State(), ERROR_NOT_FOUND);
        DirectoryUnwritten(s, p, name, offset, data, create, time);
        return ERROR_NOT_FOUND;
      }
      if nentry == ERROR_NOT_FOUND {
        entry := FileEntry(p, name);
        nentry := AddEntry(entry, 0);
        if nentry >= ERROR_ANY {
          ErrorOutcome(s, p, name, offset, data, create, time, codes, State(), nentry);
          if nentry == ERROR_NO_SPACE {
            CannotWriteMade(s, p, name, offset, data, create, time);
            EntriesFull(State());
          }
          return nentry;
        }
        MadeFillable(s, p, name, nentry, State(), data);
      } else {
        FoundFillable(s, nentry, offset, data);
      }
      ghost var s1 := State();
      result := WriteEntryData(buff, nentry, entry, offset, count, time);
      if works { WriteDecided(s, p, name, s1, nentry, offset, data, create, time, State(), result); }
      OutcomeOf(s, p, name, s1, nentry, offset, data, create, time, codes, State(), result);
      OutcomeMeans(s, p, name, offset, data, create, time, codes, State(), result);
    }

    /** The part of fs_write_file after the file has been found or created. */
    method WriteEntryData(buff: array<byte>, n: nat, entry0: Entry, offset: nat, count: nat, time: nat)
      returns (result: nat)
      requires count <= buff.Length && Fillable(State(), n, offset, buff[..count]) && entry0 == table[n]
      modifies this`table, this`disk
      ensures WriteOutcome(old(State()), n, offset, buff[..count], time, codes, State(), result)
      ensures result >= ERROR_ANY ==>
                || (!works && (result == ERROR_IO || Fails(codes, result)))
                || (Full(State()) && (result == ERROR_NO_SPACE || NoBlock(State(), result)))
      ensures works ==> result == count || result >= ERROR_ANY
      ensures n < |old(table)| && old(table)[n].next < |old(table)|
      ensures works ==> if result == count then Written(old(State()), n, offset, buff[..count], time, State())
                        else GrowStep(old(State()), n, offset + count) == None
    {
      hide Full;
      hide GrowStep, Linked, IsChain, ChainOf, Written, Failed, SetTimes, NeededBlocks;
      hide Confined, Extendable, Lay, LayFails, Reaches, DiskOk;
      var entry;
      ghost var s, data := State(), buff[..count];
      RoomReaches(s, n, offset, data);
      result, entry := GrowFile(n, entry0, offset + count);
      if result >= ERROR_ANY { return; }
      ghost var t1 := table;
      result := WriteData(buff, entry, offset, count);
      if result != 0 {
        FailedPart(s, n, offset, data, State());
        return;
      }
      var code := SetEntryTime(n, time, ChainOf(t1, n));
      if code >= ERROR_ANY { return code; }
      WrittenTimed(s, n, offset, data, time, t1, State());
      return count;
    }

    /** fs_delete on a name with parent p. */
    method DeleteEntry(p: nat, name: string) returns (result: nat)
      requires FsOk(State())
      modifies this`table
      ensures result == 0 ==> Next(old(State()), Op.Delete(p, name), State())
      ensures result != 0 ==>
                || (result == ERROR_IO && !works)
                || (result == ERROR_NOT_FOUND && table == old(table) && FindName(table, p, name) == |table|)
                || (result == ERROR_NO_SPACE && NoEntry(table))
      ensures works && Sound(old(State()), Op.Delete(p, name)) ==>
                (result == 0 <==> DeletionAfforded(old(table), p, name))
    {
      hide FsOk, Affords, Next, NoEntry, DeletionAfforded, Erased, CanDelete, Sound, Clear;
      ghost var s := State();
      TableSmall(s);
      var nentry, entry := Lookup(p, name);
      if nentry >= ERROR_ANY {
        DeletionNone(s, p, name);
        return nentry;
      }
      FoundReady(s, nentry);
      result := DeleteN(nentry, KindOf(table, nentry));
      if result == 0 { DeletionDone(s, p, name, State()); }
      DeletionDecided(s, p, name);
    }

    /** fs_move within one disk, below an entry that a path can lead to. */
    method MoveEntry(sp: nat, sname: string, p: nat, name: string) returns (result: nat)
      requires FsOk(State()) && p < |table| && Used(table[p]) && ValidName(name)
      modifies this`table
      ensures result < ERROR_ANY ==>
                && result == FindName(old(table), sp, sname)
                && Next(old(State()), Op.Move(sp, sname, p, name), State())
      ensures result >= ERROR_ANY ==>
                || (result == ERROR_IO && !works)
                || (result == ERROR_EXISTS && table == old(table) && FindName(table, p, name) < |table|)
                || (&& result == ERROR_NOT_FOUND && table == old(table)
                    && FindName(table, p, name) == FindName(table, sp, sname) == |table|)
                || (result == ERROR_NO_SPACE && NoEntry(table))
      ensures works ==> (result < ERROR_ANY <==> Can(old(State()), Op.Move(sp, sname, p, name)))
      ensures var t := old(table);
              works && Sound(old(State()), Op.Move(sp, sname, p, name)) && FindName(t, sp, sname) < |t| ==>
                && sp < |t|
                && (result < ERROR_ANY <==> FindName(t, p, name) == |t| && Cost(t[sp]) <= |FreeEntries(t)|)
    {
      hide FsOk, Next, IsHead, RefOut, Open, MoveLeaves, AddedTo, Removable, FindName, Can, Stuck, Sound, Cost;
      ghost var s := State();
      TableSmall(s);
      if Sound(s, Op.Move(sp, sname, p, name)) && FindName(table, sp, sname) < |table| {
        CanMoveIff(s, sp, sname, p, name);
      }
      var found, existing := Lookup(p, name);
      if found != ERROR_NOT_FOUND {
        if found >= ERROR_ANY { return found; }
        CannotMoveName(s, sp, sname, p, name);
        return ERROR_EXISTS;
      }
      var nentry, entry := Lookup(sp, sname);
      if nentry >= ERROR_ANY {
        if nentry == ERROR_NOT_FOUND { CannotMoveName(s, sp, sname, p, name); }
        return nentry;
      }
      ghost var t := table;
      MoveReady(State(), nentry, sp, sname);
      result := RemoveRef(entry.parent, nentry, {});
      if result >= ERROR_ANY {
        if result == ERROR_NO_SPACE {
          CannotMoveOut(s, sp, sname, p, name);
          NothingFree(table);
        }
        return;
      }
      ghost var t1 := table;
      MoveOpen(t, nentry, t1, p, name);
      result := WriteEntry(entry.(name := name, parent := p), nentry);
      if result >= ERROR_ANY { return; }
      assert table == Renamed(t1, nentry, p, name);
      result := AddRef(p, nentry);
      if result >= ERROR_ANY {
        if result == ERROR_NO_SPACE {
          CannotMoveIn(s, sp, sname, p, name, t1);
          NothingFree(table);
        }
        return;
      }
      MoveDone(s, sp, sname, p, name, t1, State());
      return nentry;
    }

    /** fs_list on a name with parent p: the item at position n and the number of items. A link
        that is found stands for a directory of its wrapped size, all of whose items are the root. */
    method ListEntry(p: nat, name: string, n: nat) returns (result: nat, entry: Entry)
      requires FsOk(State())
      ensures var d := FindName(table, p, name);
              || (result == ERROR_IO && !works)
              || (result == ERROR_NOT_FOUND
                  && (d == |table| || table[d].file || (!IsHead(table, d) && n >= SFS_ENTRYREFS)))
              || (d < |table| && table[d].dir && result == table[d].size && (n >= result ==> entry == Zero())
                  && if IsHead(table, d) then result == |Items(table[d])|
                       && (n < result ==> Items(table[d])[n] < |table| && entry == table[Items(table[d])[n]])
                     else n < result ==> n < SFS_ENTRYREFS && entry == table[0])
    {
      hide IsChain, ChainOf, Names, Acyclic, EntryOk, ListOk, Owned, IsSpare, RootOk, DiskOk;
      var nentry, direntry := Lookup(p, name);
      entry := Zero();
      if nentry >= ERROR_ANY { return nentry, entry; }
      if direntry.dir {
        ghost var c := if IsHead(table, nentry) then ChainOf(table, nentry) else [nentry];
        ListReady(table, nentry);
        if n < direntry.size {
          var res, refentry := GetNrefEntry(direntry, nentry, n, c, 0);
          if res >= ERROR_ANY { return res, entry; }
          assert n < SFS_ENTRYREFS && refentry == direntry;
          res, entry := ReadEntry(refentry.refs[n]);
          if res >= ERROR_ANY { return res, entry; }
        }
        return direntry.size, entry;
      }
      return ERROR_NOT_FOUND, entry;
    }

    /** fs_copy of a file, within one disk. Reads and allocating writes take turns, as long as no write
        returns an error; a code below the errors does not stop the copy. */
    method CopyFile(sp: nat, sname: string, p: nat, name: string, time: nat) returns (result: nat)
      requires FsOk(State()) && HasRoom(table, p) && ValidName(name)
      requires var x := FindName(table, sp, sname); x < |table| ==> HasFile(State(), sp, sname, x) && IsDir(table, sp)
      modifies this`table, this`disk
      ensures result != 0 ==>
                || (!works && (result == ERROR_IO || Fails(codes, result)))
                || (result == ERROR_EXISTS && State() == old(State()) && FindName(table, p, name) < |table|)
                || (&& result == ERROR_NOT_FOUND && State() == old(State())
                    && FindName(table, p, name) == FindName(table, sp, sname) == |table|)
                || (Full(State()) && (result == ERROR_NO_SPACE || NoBlock(State(), result)))
      ensures works ==> (result == 0 <==> var x := FindName(old(table), sp, sname);
                                          && FindName(old(table), p, name) == |old(table)| && x < |old(table)|
                                          && SpaceToCopy(old(State()), old(table)[x].size))
      ensures result == 0 || result >= ERROR_ANY
      ensures result == 0 ==> CopyOutcome(old(State()), sp, sname, p, name, time, codes, State())
      ensures result == 0 ==> CopiedSome(old(State()), sp, sname, p, name, State())
      ensures result == 0 && Trusted(codes) ==> Copied(old(State()), sp, sname, p, name, State())
    {
      hide FsOk, Copying, IsHead, HasFile, Copied, CopiedSome, ValidName, FindName, IsFile, CopyStep, CopyUpto, Trusted;
      hide CopyOutcome, FileBytes, HasRoom, Full, NoBlock, SpaceToCopy, Progress, NeededBlocks, IsDir;
      TableSmall(State());
      var found, existing := Lookup(p, name);
      if found != ERROR_NOT_FOUND {
        if found >= ERROR_ANY { return found; }
        return ERROR_EXISTS;
      }
      var nentry, entry := Lookup(sp, sname);
      if nentry >= ERROR_ANY { return nentry; }
      ghost var s := State();
      assert Copyable(s, sp, sname, p, name) by { CopyReady(s, sp, sname, p, name); }
      var buff := new byte[BLOCK_SIZE];
      var offset: nat, copied: nat := 0, 1;
      ghost var b := FileBytes(s, FindName(s.table, sp, sname));
      CopyBegins(s, sp, sname, p, name, Trusted(codes));
      CopyNone(s, p, name, b, time, codes);
      ProgressNone(s, p, name);
      while copied != 0
        invariant works ==> Progress(s, p, name, offset, State())
        invariant OnPiece(s, sp, sname, offset)
        invariant Copying(s, sp, sname, p, name, offset, Trusted(codes), State())
        invariant CopyUpto(s, p, name, b, time, codes, offset, State()) && offset <= |b|
        invariant copied == 0 ==> offset == |b|
        decreases |b| - offset, copied
      {
        ghost var s1 := State();
        result, copied := CopyPiece(buff, sp, sname, p, name, offset, time, s);
        if result >= ERROR_ANY { return; }
        CopyStepped(s, sp, sname, p, name, offset, s1, copied, time, codes, State());
        CopyMore(s, p, name, b, time, codes, offset, s1, copied, State());
        NextOffset(s1, p, name, b, offset, copied, time, codes, State());
        StepBounds(s1, p, name, b, offset, copied, time, codes, State());
        offset := offset + copied;
      }
      CopyMeans(s, sp, sname, p, name, time, codes, State());
      if works { SpaceTaken(s, p, name, |b|, State()); }
      return 0;
    }

    /** Up to a block of the source from offset on. */
    method CopyRead(buff: array<byte>, sp: nat, sname: string, p: nat, name: string, offset: nat,
                    ghost s: Fs, ghost clean: bool)
      returns (copied: nat)
      requires Copying(s, sp, sname, p, name, offset, clean, State()) && buff.Length == BLOCK_SIZE
      modifies buff
      ensures IsFile(s, FindName(s.table, sp, sname))
      ensures copied >= ERROR_ANY ==> copied == ERROR_IO && !works
      ensures copied < ERROR_ANY ==>
                && copied <= BLOCK_SIZE && offset + copied <= SFS_ENTRYREFS * BLOCK_SIZE
                && PieceOf(FileBytes(s, FindName(s.table, sp, sname)), offset, buff[..][..copied])
    {
      hide FsOk, Copying, Readable, Content, ChainOf, FileBytes, IsFile, FindName;
      CopySource(s, sp, sname, p, name, offset, clean, State());
      copied := ReadFile(buff, sp, sname, offset, BLOCK_SIZE, ChainOf(table, FindName(table, sp, sname)));
    }

    /** One turn of the copying loop: nothing is copied at the end of the source. */
    method CopyPiece(buff: array<byte>, sp: nat, sname: string, p: nat, name: string, offset: nat, time: nat,
                     ghost s: Fs)
      returns (result: nat, copied: nat)
      requires Copyable(s, sp, sname, p, name) && Copying(s, sp, sname, p, name, offset, Trusted(codes), State())
      requires ValidName(name) && buff.Length == BLOCK_SIZE
      modifies this`table, this`disk, buff
      ensures result < ERROR_ANY ==>
                CopyStep(old(State()), p, name, FileBytes(s, FindName(s.table, sp, sname)), offset, copied, time, codes,
                         State())
      ensures result >= ERROR_ANY ==>
                || (!works && (result == ERROR_IO || Fails(codes, result)))
                || (Full(State()) && (result == ERROR_NO_SPACE || NoBlock(State(), result)))
      ensures works && Progress(s, p, name, offset, old(State())) && OnPiece(s, sp, sname, offset) ==>
                if result < ERROR_ANY then Progress(s, p, name, offset + copied, State())
                else !SpaceToCopy(s, |FileBytes(s, FindName(s.table, sp, sname))|)
    {
      hide FsOk, Copying, HasRoom, IsDir, HasFile, WroteSome, Next, FileBytes, IsFile, CopyStep, Aimed, Trusted, Can;
      hide FindName, ValidName, PieceOf, FileOutcome, Full, NoBlock, Progress, SpaceToCopy;
      ghost var s1 := State();
      ghost var b := FileBytes(s, FindName(s.table, sp, sname));
      CopyTarget(s, sp, sname, p, name, offset, Trusted(codes), s1);
      copied := CopyRead(buff, sp, sname, p, name, offset, s, Trusted(codes));
      if copied >= ERROR_ANY { return copied, 0; }
      ghost var data := buff[..copied];
      assert data == buff[..][..copied];
      if copied == 0 {
        StepEnds(s1, p, name, b, offset, data, time, codes);
        return 0, 0;
      }
      result := WriteFile(buff, p, name, offset, copied, true, time);
      if works && Progress(s, p, name, offset, s1) && OnPiece(s, sp, sname, offset) {
        PieceDecided(s, sp, sname, p, name, offset, Trusted(codes), data, time, s1, State(), result);
      }
      if result >= ERROR_ANY {
        FoundNoDirectory(s, sp, sname, p, name, offset, Trusted(codes), s1);
        return;
      }
      StepTaken(s1, p, name, b, offset, data, time, codes, State(), result);
    }
  }

  /** One reference moved down, from refs or from an empty entry after it. */
  lemma ShiftOne(refs: seq<nat>, p: nat, r: nat, nextrefs: seq<nat>)
    requires p <= r < |refs| == SFS_ENTRYREFS
    requires nextrefs == refs || nextrefs == Zeros(SFS_ENTRYREFS)
    requires nextrefs == refs ==> r + 1 < SFS_ENTRYREFS || refs[0] == 0
    requires r + 1 < SFS_ENTRYREFS ==> nextrefs == refs
    ensures |nextrefs| == SFS_ENTRYREFS
    ensures (if p == r then refs else ShiftedTo(refs, p, r, 0))[r := nextrefs[(r + 1) % SFS_ENTRYREFS]]
            == ShiftedTo(refs, p, r + 1, 0)
  {
  }

  /** What remove_ref_in_entry does to directory d, step by step, when it has found the reference. */
  ghost predicate RemovalSteps(t: Table, d: nat, ref: nat) {
    && d < |t| <= MAX_ENTRIES && t[d].dir && |t[d].refs| == SFS_ENTRYREFS && 0 < RefCount(t[d]) <= SFS_ENTRYREFS
    && var rc, c := RefCount(t[d]), ChainOf(t, d);
       var t1 := t[d := t[d].(refs := ShiftedTo(t[d].refs, Find(t[d].refs[..rc], ref), rc, 0))];
       && Linked(t1, c) && c[0] == d
       && match Resize(t1, c, rc - 1)
          case None => Stuck(t, d, ref)
          case Some((t2, c2)) =>
            |t2| == |t| && IsChain(t2, c2) && c2[0] == d && RefOut(t, d, ref, SetSizes(t2, c2, 0, rc - 1))
  }

  lemma RemoveSteps(t: Table, det: set<nat>, d: nat, ref: nat)
    requires Removable(t, det, d, ref)
    ensures d < |t| <= MAX_ENTRIES && |t[d].refs| == SFS_ENTRYREFS && RefCount(t[d]) <= SFS_ENTRYREFS
    ensures RefCount(t[d]) > 0 ==> EntryOk(t, d)
    ensures if Find(t[d].refs[..RefCount(t[d])], ref) == RefCount(t[d]) then RefOut(t, d, ref, t)
            else RemovalSteps(t, d, ref)
  {
    RemoveStart(t, det, d, ref);
    hide RefOut, Resize, Linked, IsChain, ChainOf, SetSizes, ShiftedTo, EntryOk, Removable, RemovalSteps;
    if Find(t[d].refs[..RefCount(t[d])], ref) < RefCount(t[d]) {
      RemoveFound(t, det, d, ref);
    }
  }

  lemma RemoveFound(t: Table, det: set<nat>, d: nat, ref: nat)
    requires Tree(t, det) && IsDir(t, d) && |t[d].refs| == SFS_ENTRYREFS && t[d].size <= SFS_ENTRYREFS
    requires ref in Items(t[d]) && t[d].refs[..t[d].size] == Items(t[d]) && RefCount(t[d]) == t[d].size
    ensures RemovalSteps(t, d, ref)
  {
    hide Resize, Linked, IsChain, SetSizes, ShiftedTo, EntryOk, Items, SizeOk, Detached, DropItem, Find;
    DetachedSteps(t, d, ref, det);
    assert t[d].next < |t| by { DirSized(t, d, det); }
  }

  lemma RemoveStart(t: Table, det: set<nat>, d: nat, ref: nat)
    requires Removable(t, det, d, ref)
    ensures d < |t| <= MAX_ENTRIES && |t[d].refs| == SFS_ENTRYREFS && RefCount(t[d]) <= SFS_ENTRYREFS
    ensures RefCount(t[d]) > 0 ==> EntryOk(t, d)
    ensures Find(t[d].refs[..RefCount(t[d])], ref) == RefCount(t[d]) ==> RefOut(t, d, ref, t)
    ensures Find(t[d].refs[..RefCount(t[d])], ref) < RefCount(t[d]) ==>
              && t[d].dir && t[d].size <= SFS_ENTRYREFS && ref in Items(t[d])
              && RefCount(t[d]) == t[d].size && t[d].refs[..t[d].size] == Items(t[d]) && IsDir(t, d) && Tree(t, det)
  {
    if t[d].size == 0 {
      assert Items(t[d]) == [];
      assert Tree(t, det) && IsHead(t, d) ==> EntryOk(t, d);
    } else if t[d].dir {
      DirSized(t, d, det);
    } else {
      FileRefsAbove(t, d, ref, det);
    }
  }

  /** What fs_list finds in a directory or in the link of one. */
  lemma ListReady(t: Table, d: nat)
    requires TreeOk(t) && d < |t| && t[d].dir
    ensures var c := if IsHead(t, d) then ChainOf(t, d) else [d];
            IsChain(t, c) && c[0] == d && |t| <= MAX_ENTRIES && |t[d].refs| == SFS_ENTRYREFS && !t[d].file
    ensures IsHead(t, d) ==> t[d].size <= SFS_ENTRYREFS && Items(t[d]) == t[d].refs[..t[d].size]
                             && forall k :: 0 <= k < t[d].size ==> t[d].refs[k] < |t|
    ensures !IsHead(t, d) ==> t[d].refs == Zeros(SFS_ENTRYREFS)
  {
    assert EntryOk(t, d) && EntryOk(t, t[d].parent);
    if IsHead(t, d) {
      assert ListOk(t, {}, d);
      ChainLinked(t, d, {});
      forall k | 0 <= k < t[d].size ensures t[d].refs[k] < |t| {
        assert t[d].refs[k] in Items(t[d]);
        assert IsChild(t, t[d].refs[k], d);
      }
    } else {
      assert SpareOk(t, t[d].parent, d);
    }
  }

  /** Reading starts at the head, with nothing in the buffer yet. */
  lemma ReadStart(t: Table, c: seq<nat>, disk: Disk, offset: nat, b: seq<byte>)
    requires Readable(t, c, disk) && offset <= t[c[0]].size && offset < 0x1_0000
    ensures OnChain(t, c, 0, c[0], t[c[0]]) && |Content(t, c, disk)| == t[c[0]].size
    ensures AtPosition(offset, 0, offset / BLOCK_SIZE, offset % BLOCK_SIZE) && offset / BLOCK_SIZE < 2 * SFS_ENTRYREFS
    ensures Holds(b, Content(t, c, disk), offset, 0)
  {
  }

  /** The block of the next piece of content, and the link that refers to it. */
  lemma PieceReady(t: Table, c: seq<nat>, disk: Disk, pos: nat, block: nat, off: nat, at: nat, m: nat)
    requires Readable(t, c, disk) && pos < |c| && AtPosition(at, pos, block, off) && block < 2 * SFS_ENTRYREFS
    requires 0 < m <= BLOCK_SIZE - off && at + m <= |Content(t, c, disk)|
    ensures IsChain(t, c) && Steps(block) == block / SFS_ENTRYREFS && pos + Steps(block) < |c|
    ensures c[pos + Steps(block)] < |t| && |t[c[pos + Steps(block)]].refs| == SFS_ENTRYREFS
    ensures var b := t[c[pos + Steps(block)]].refs[block % SFS_ENTRYREFS];
            && b < |disk| && |disk[b]| == BLOCK_SIZE && off + m <= BLOCK_SIZE
            && Content(t, c, disk)[at..at + m] == disk[b][off..off + m]
  {
    PositionParts(at, pos, block, off);
    ContentPiece(t, c, disk, at, m);
    StepsRight(block);
  }

  lemma TableSmall(s: Fs)
    requires FsOk(s)
    ensures |s.table| <= MAX_ENTRIES
  {
  }

  lemma MoveReady(s: Fs, x: nat, sp: nat, sname: string)
    requires FsOk(s) && x == FindName(s.table, sp, sname) < |s.table|
    ensures TreeOk(s.table) && Used(s.table[x]) && Removable(s.table, {}, s.table[x].parent, x)
  {
    ParentHead(s.table, x);
  }

  lemma MoveOpen(t: Table, x: nat, t1: Table, p: nat, name: string)
    requires TreeOk(t) && x < |t| && Used(t[x]) && TakenOut(t, x, t1) && p < |t|
    ensures |t1| == |t| && t1[x] == t[x] && Open(Renamed(t1, x, p, name), p)
  {
    TakenOpen(t, x, t1, p);
    RenamedOpen(t1, x, p, name);
    if Proper(t, x) { ProperTaken(t, x, t1); } else { StrayTaken(t, x, t1); }
  }

  lemma NextDone(s: Fs, op: Op, s': Fs)
    requires Next(s, op, s')
    ensures Can(s, op)
  {
  }

  lemma DirectoryDone(s: Fs, p: nat, name: string, time: nat, s': Fs, n: nat)
    requires Made(s, DirEntry(p, name, time), s', n)
    ensures n == FirstFree(s.table) && Next(s, Op.MakeDir(p, name, time), s') && Can(s, Op.MakeDir(p, name, time))
  {
    hide Open, AddedTo;
    assert Next(s, Op.MakeDir(p, name, time), s');
  }

  /** A directory that has the name is not written to. */
  lemma DirectoryUnwritten(s: Fs, p: nat, name: string, off: nat, data: seq<byte>, create: bool, time: nat)
    requires FsOk(s) && FindName(s.table, p, name) < |s.table| && s.table[FindName(s.table, p, name)].dir
    ensures !Can(s, Op.Write(p, name, off, data, create, time))
  {
    hide GrowStep;
    assert EntryOk(s.table, FindName(s.table, p, name));
    CannotWriteFound(s, p, name, off, data, create, time);
  }

  /** Where no transfer fails, a write that has got as far as the data is done, or cannot be. */
  lemma WriteDecided(s: Fs, p: nat, name: string, s1: Fs, n: nat, off: nat, data: seq<byte>, create: bool, time: nat,
                     s': Fs, r: nat)
    requires n < |s1.table| && s1.table[n].next < |s1.table|
    requires var f := FindName(s.table, p, name);
             if f < |s.table| then n == f && s1 == s else create && Made(s, FileEntry(p, name), s1, n)
    requires if r == |data| then Written(s1, n, off, data, time, s') else GrowStep(s1, n, off + |data|) == None
    ensures r == |data| <==> Can(s, Op.Write(p, name, off, data, create, time))
    ensures r == |data| ==> Next(s, Op.Write(p, name, off, data, create, time), s')
  {
    hide Made, Written, GrowStep, Can;
    if r == |data| {
      NextDone(s, Op.Write(p, name, off, data, create, time), s');
    } else if FindName(s.table, p, name) < |s.table| {
      CannotWriteFound(s, p, name, off, data, create, time);
    } else {
      CannotWriteNew(s, p, name, off, data, create, time, s1, n);
    }
  }

  lemma EntriesFull(s: Fs)
    requires NoEntry(s.table)
    ensures Full(s)
  {
  }

  lemma GrowStepStuck(s: Fs, n: nat, size: nat)
    requires n < |s.table| && s.table[n].next < |s.table| && s.table[n].size < size
    requires Extendable(s.table, n, size) && Fit(s.table, n, s.table[n].(size := size)) == None
    ensures GrowStep(s, n, size) == None
  {
    var b := LowestFree(s.table, FirstDataBlock(|s.table|), BlockLimit(s.size));
    hide LowestFree;
    ExtendableChain(s.table, n, size);
    FitRefs(s.table, n, s.table[n].(size := size), GrownHead(s.table[n], size, b).refs);
  }

  lemma GrowStepFull(s: Fs, n: nat, size: nat, free: nat)
    requires n < |s.table| && s.table[n].next < |s.table| && s.table[n].size < size
    requires NeededBlocks(s.table[n].size) < NeededBlocks(size)
    requires free == LowestFree(s.table, FirstDataBlock(|s.table|), BlockLimit(s.size)) >= UsableLimit(s.size)
    ensures GrowStep(s, n, size) == None
  {
  }

  lemma GrowStepIs(s: Fs, n: nat, size: nat, free: nat)
    requires n < |s.table| && s.table[n].next < |s.table| && s.table[n].size < size
    requires free == LowestFree(s.table, FirstDataBlock(|s.table|), BlockLimit(s.size))
    requires NeededBlocks(s.table[n].size) < NeededBlocks(size) ==> free < UsableLimit(s.size)
    ensures GrowStep(s, n, size) == Grown(s.table, n, size, free)
  {
  }

  lemma MadeFillable(s: Fs, p: nat, name: string, n: nat, s1: Fs, data: seq<byte>)
    requires FsOk(s) && p < |s.table| && Used(s.table[p]) && ValidName(name) && FindName(s.table, p, name) == |s.table|
    requires CreateLeaves(s.table, p, FileEntry(p, name), s1.table, n) && s1 == s.(table := s1.table)
    requires |data| <= BLOCK_SIZE
    ensures Made(s, FileEntry(p, name), s1, n) && n < |s1.table| && s1.table[n] == FileEntry(p, name)
    ensures Fillable(s1, n, 0, data)
    ensures Aimed(s, p, name) ==> FsOk(s1) && IsHead(s1.table, n)
  {
    hide CreateLeaves, FsOk, HasRoom, Fillable, IsHead;
    assert Made(s, FileEntry(p, name), s1, n);
    if HasRoom(s.table, p) {
      MadeInside(s, p, name, n, s1, data);
    } else {
      MadeElsewhere(s, p, name, n, s1, data);
    }
  }

  lemma MadeInside(s: Fs, p: nat, name: string, n: nat, s1: Fs, data: seq<byte>)
    requires FsOk(s) && Made(s, FileEntry(p, name), s1, n) && HasRoom(s.table, p) && |data| <= BLOCK_SIZE
    ensures n < |s1.table| && s1.table[n] == FileEntry(p, name)
    ensures FsOk(s1) && IsHead(s1.table, n) && Fillable(s1, n, 0, data)
  {
    hide Made, FsOk, HasRoom, Fillable;
    MadeOk(s, FileEntry(p, name), s1, n);
    HeadFillable(s1, n, 0, data);
  }

  lemma MadeElsewhere(s: Fs, p: nat, name: string, n: nat, s1: Fs, data: seq<byte>)
    requires FsOk(s) && Made(s, FileEntry(p, name), s1, n) && !HasRoom(s.table, p) && |data| <= BLOCK_SIZE
    ensures n < |s1.table| && s1.table[n] == FileEntry(p, name) && Fillable(s1, n, 0, data)
  {
    hide CreateLeaves, Fillable, TreeOk, HasRoom, Misplaced, Owned;
    CreateMisplaced(s.table, p, FileEntry(p, name), s1.table, n);
    assert n < |s1.table| && n != 0 by { MisplacedIndex(s1.table, n, p); }
    FreshFillable(s1, n, p, name, data);
  }

  lemma MisplacedIndex(t: Table, x: nat, p: nat)
    requires Misplaced(t, x, p)
    ensures x < |t| && x != 0
  {
  }

  lemma FoundFillable(s: Fs, n: nat, off: nat, data: seq<byte>)
    requires FsOk(s) && n < |s.table| && Used(s.table[n]) && !s.table[n].dir && off <= s.table[n].size
    requires |data| <= BLOCK_SIZE && off + |data| <= SFS_ENTRYREFS * BLOCK_SIZE
    ensures Fillable(s, n, off, data)
  {
    assert EntryOk(s.table, n);
    if IsHead(s.table, n) {
      HeadFillable(s, n, off, data);
    } else {
      LinkOfFile(s, n);
      LinkFillable(s, n, off, data);
    }
  }

  lemma ErrorOutcome(s: Fs, p: nat, name: string, off: nat, data: seq<byte>, create: bool, time: nat,
                     codes: set<nat>, s': Fs, r: nat)
    requires r >= ERROR_ANY
    ensures FileOutcome(s, p, name, off, data, create, time, codes, s', r)
  {
  }

  lemma OutcomeOf(s: Fs, p: nat, name: string, s1: Fs, n: nat, off: nat, data: seq<byte>, create: bool, time: nat,
                  codes: set<nat>, s': Fs, r: nat)
    requires var f := FindName(s.table, p, name);
             if f < |s.table| then n == f && s1 == s else create && Made(s, FileEntry(p, name), s1, n)
    requires WriteOutcome(s1, n, off, data, time, codes, s', r)
    ensures FileOutcome(s, p, name, off, data, create, time, codes, s', r)
  {
    hide Made, WriteOutcome;
  }

  /** What the result of a write says. */
  lemma OutcomeMeans(s: Fs, p: nat, name: string, off: nat, data: seq<byte>, create: bool, time: nat,
                     codes: set<nat>, s': Fs, r: nat)
    requires FsOk(s) && FileOutcome(s, p, name, off, data, create, time, codes, s', r) && |data| <= BLOCK_SIZE
    ensures r == |data| && !Fails(codes, r) ==> Next(s, Op.Write(p, name, off, data, create, time), s')
    ensures r < ERROR_ANY ==> r == |data| || Fails(codes, r)
    ensures r < ERROR_ANY && Aimed(s, p, name) ==> WroteSome(s, p, name, off, data, s')
  {
    hide FsOk, FileOutcome, Next, Aimed, WroteSome;
    if r < ERROR_ANY && !Fails(codes, r) {
      OutcomeNext(s, p, name, off, data, create, time, codes, s', r);
    }
    if r < ERROR_ANY && Aimed(s, p, name) {
      OutcomeSome(s, p, name, off, data, create, time, codes, s', r);
    }
  }

  lemma FailedPart(s: Fs, n: nat, off: nat, data: seq<byte>, s': Fs)
    requires Placed(s.table, n, off, data) && s'.size == s.size && GrowStep(s, n, off + |data|) == Some(s'.table)
    requires n < |s'.table| && s'.table[n].next < |s'.table| && Reaches(s'.table[n], s.disk, off + |data|)
    requires LayFails(s'.table[n], s.disk, off, data, s'.disk) && Confined(s'.table[n], s.disk, s'.disk)
    ensures Failed(s, n, off, data, s')
  {
  }

  // ----- copying

  /** The next bytes of b, up to a block. */
  predicate PieceOf(b: seq<byte>, offset: nat, data: seq<byte>) {
    offset <= |b| && |data| == Min(BLOCK_SIZE, |b| - offset) && data == b[offset..offset + |data|]
  }

  lemma CopyReady(s: Fs, sp: nat, sname: string, p: nat, name: string)
    requires FsOk(s) && HasRoom(s.table, p) && IsDir(s.table, sp) && FindName(s.table, p, name) == |s.table|
    requires HasFile(s, sp, sname, FindName(s.table, sp, sname))
    ensures Copyable(s, sp, sname, p, name)
  {
  }

  lemma ProgressNone(s: Fs, p: nat, name: string)
    ensures Progress(s, p, name, 0, s)
  {
  }

  /** The offset is that of a block, or the end of the source. */
  ghost predicate OnPiece(s: Fs, sp: nat, sname: string, offset: nat) {
    IsFile(s, FindName(s.table, sp, sname)) &&
    (offset % BLOCK_SIZE == 0 || offset == |FileBytes(s, FindName(s.table, sp, sname))|)
  }

  /** A piece that is not the last is a whole block. */
  lemma NextOffset(s1: Fs, p: nat, name: string, b: seq<byte>, offset: nat, copied: nat, time: nat, codes: set<nat>,
                   s2: Fs)
    requires CopyStep(s1, p, name, b, offset, copied, time, codes, s2) && (offset % BLOCK_SIZE == 0 || offset == |b|)
    ensures (offset + copied) % BLOCK_SIZE == 0 || offset + copied == |b|
  {
    hide WroteOn;
  }

  lemma SpaceTaken(s: Fs, p: nat, name: string, size: nat, s': Fs)
    requires Progress(s, p, name, size, s')
    ensures SpaceToCopy(s, size)
  {
    hide IsHead, NeededBlocks;
  }

  /** Where no transfer fails, the next piece is written, or there is no space for the copy. */
  lemma PieceDecided(s: Fs, sp: nat, sname: string, p: nat, name: string, offset: nat, clean: bool, data: seq<byte>,
                     time: nat, s1: Fs, s2: Fs, r: nat)
    requires Copying(s, sp, sname, p, name, offset, clean, s1) && HasRoom(s.table, p) && ValidName(name)
    requires IsFile(s, FindName(s.table, sp, sname)) && data != []
    requires PieceOf(FileBytes(s, FindName(s.table, sp, sname)), offset, data)
    requires Progress(s, p, name, offset, s1) && OnPiece(s, sp, sname, offset)
    requires r == |data| || r >= ERROR_ANY
    requires r == |data| <==> Can(s1, Op.Write(p, name, offset, data, true, time))
    requires r == |data| ==> Next(s1, Op.Write(p, name, offset, data, true, time), s2)
    ensures if r < ERROR_ANY then Progress(s, p, name, offset + |data|, s2)
            else !SpaceToCopy(s, |FileBytes(s, FindName(s.table, sp, sname))|)
  {
    hide FsOk, Copying, HasRoom, IsDir, FileBytes, IsFile, Next, Can, Progress, Aimed, SpaceToCopy, ValidName;
    hide NeededBlocks;
    CopySource(s, sp, sname, p, name, offset, clean, s1);
    CopyTarget(s, sp, sname, p, name, offset, clean, s1);
    CopyDecided(s, p, name, offset, data, time, s1, |FileBytes(s, FindName(s.table, sp, sname))|);
    if r == |data| {
      CopyProgress(s, p, name, offset, data, time, s1, s2);
    }
  }

  /** The target of a copy is no directory. */
  lemma FoundNoDirectory(s: Fs, sp: nat, sname: string, p: nat, name: string, offset: nat, clean: bool, s1: Fs)
    requires Copying(s, sp, sname, p, name, offset, clean, s1)
    ensures var y := FindName(s1.table, p, name); y < |s1.table| ==> !s1.table[y].dir
  {
    var y := FindName(s1.table, p, name);
    if y < |s1.table| { assert EntryOk(s1.table, y); }
  }

  lemma CopyNone(s: Fs, p: nat, name: string, b: seq<byte>, time: nat, codes: set<nat>)
    ensures CopyUpto(s, p, name, b, time, codes, 0, s)
  {
  }

  lemma StepBounds(s1: Fs, p: nat, name: string, b: seq<byte>, offset: nat, copied: nat, time: nat, codes: set<nat>,
                   s2: Fs)
    requires CopyStep(s1, p, name, b, offset, copied, time, codes, s2)
    ensures offset + copied <= |b| && (copied == 0 ==> offset == |b|)
  {
  }

  lemma StepEnds(s1: Fs, p: nat, name: string, b: seq<byte>, offset: nat, data: seq<byte>, time: nat, codes: set<nat>)
    requires PieceOf(b, offset, data) && data == []
    ensures CopyStep(s1, p, name, b, offset, 0, time, codes, s1)
  {
  }

  lemma StepTaken(s1: Fs, p: nat, name: string, b: seq<byte>, offset: nat, data: seq<byte>, time: nat, codes: set<nat>,
                  s2: Fs, r: nat)
    requires PieceOf(b, offset, data) && data != [] && r < ERROR_ANY
    requires FileOutcome(s1, p, name, offset, data, true, time, codes, s2, r)
    ensures CopyStep(s1, p, name, b, offset, |data|, time, codes, s2)
  {
    hide FileOutcome;
    assert WroteOn(s1, p, name, offset, b[offset..offset + |data|], time, codes, s2);
  }

  /** A head without a link is a chain of one. */
  lemma NewChain(t: Table, f: nat, e: Entry)
    requires f < |t| && Used(e) && e.next == 0
    ensures IsChain(t[f := e], [f])
  {
  }

  lemma SetTimesOne(t: Table, f: nat, time: nat)
    requires f < |t|
    ensures SetTimes(t, [f], 0, time) == t[f := t[f].(time := time)]
  {
    var t1 := t[f := t[f].(time := time)];
    assert SetTimes(t, [f], 0, time) == SetTimes(t1, [f], 1, time);
  }

  lemma SizedShape(t: Table, n: nat, size: nat, t1: Table)
    requires Sized(t, n, size, t1)
    ensures n < |t1| == |t| <= MAX_ENTRIES && forall i :: 0 <= i < |t1| ==> |t1[i].refs| == SFS_ENTRYREFS
    ensures NeededBlocks(t[n].size) <= NeededBlocks(size) <= SFS_ENTRYREFS
  {
    ExtendableChain(t, n, size);
    forall i | 0 <= i < |t1| ensures |t1[i].refs| == SFS_ENTRYREFS {
      SizedEntry(t, n, size, t1, i);
    }
  }

  /** Entry e, at index n, is at position pos of chain c. */
  ghost predicate OnChain(t: Table, c: seq<nat>, pos: nat, n: nat, e: Entry) {
    pos < |c| && n == c[pos] < |t| && e == t[n]
  }

  /** Buffer b starts with read bytes of the content from offset on. */
  ghost predicate Holds(b: seq<byte>, content: seq<byte>, offset: nat, read: nat) {
    read <= |b| && offset + read <= |content| && b[..read] == content[offset..offset + read]
  }

  /** The bytes a read returns: as much of the range as the file holds. */
  function ReadRange(s: seq<byte>, offset: nat, count: nat): seq<byte> {
    var lo := Min(offset, |s|);
    s[lo..lo + Min(count, |s| - lo)]
  }

  /** The writing loop after a few pieces: what is left of the data, from off on, makes the disk the
      one to be reached, and its failures are failures of the whole. */
  ghost predicate Laying(e: Entry, disk0: Disk, off0: nat, data: seq<byte>, disk: Disk, off: nat, rest: seq<byte>) {
    && Reaches(e, disk0, off0 + |data|)
    && Confined(e, disk0, disk) && Reaches(e, disk, off + |rest|) && off + |rest| <= e.size
    && Lay(e, disk, off, rest) == Lay(e, disk0, off0, data)
    && forall d :: LayFails(e, disk, off, rest, d) ==> LayFails(e, disk0, off0, data, d)
  }

  lemma LayingStarts(e: Entry, disk: Disk, off: nat, data: seq<byte>)
    requires Reaches(e, disk, off + |data|) && off + |data| <= e.size
    ensures Laying(e, disk, off, data, disk, off, data)
  {
  }

  lemma LayingTurn(e: Entry, disk0: Disk, off0: nat, data: seq<byte>, disk: Disk, off: nat, rest: seq<byte>)
    requires Laying(e, disk0, off0, data, disk, off, rest) && rest != []
    ensures var a, k := off / BLOCK_SIZE, PieceSize(off, |rest|);
            && NeededBlocks(off + k) - 1 == a < |e.refs| && e.refs[a] < |disk| && |disk[e.refs[a]]| == BLOCK_SIZE
            && Laying(e, disk0, off0, data, WriteIn(disk, e.refs[a], off % BLOCK_SIZE, rest[..k]), off + k, rest[k..])
  {
    hide Confined, Reaches, Lay, LayFails, NeededBlocks;
    var a, k := off / BLOCK_SIZE, PieceSize(off, |rest|);
    PieceReached(e, disk, off, |rest|, off + |rest|);
    LayStep(e, disk, off, rest);
    LastBlock(off, k);
    var block := Splice(disk[e.refs[a]], off % BLOCK_SIZE, rest[..k]);
    assert a < |e.refs| && Confined(e, disk0, disk[e.refs[a] := block]) by {
      LayingConfined(e, disk0, off0, data, disk, off, rest, block);
    }
    var d1 := disk[e.refs[a] := block];
    forall d | LayFails(e, d1, off + k, rest[k..], d) ensures LayFails(e, disk0, off0, data, d) {
      LayFailsLater(e, disk, off, rest, d);
    }
  }

  lemma LayingConfined(e: Entry, disk0: Disk, off0: nat, data: seq<byte>, disk: Disk, off: nat, rest: seq<byte>,
                       block: seq<byte>)
    requires Laying(e, disk0, off0, data, disk, off, rest) && rest != [] && |block| == BLOCK_SIZE
    ensures off / BLOCK_SIZE < |e.refs| && e.refs[off / BLOCK_SIZE] < |disk|
    ensures Confined(e, disk0, disk[e.refs[off / BLOCK_SIZE] := block])
  {
    hide Lay, LayFails;
    PieceReached(e, disk, off, |rest|, off + |rest|);
    NeededUp(off + 1, e.size);
    ConfinedMore(e, disk0, disk, off / BLOCK_SIZE, block);
  }

  /** A transfer that fails spoils a block of the file. */
  lemma LayingFails(e: Entry, disk0: Disk, off0: nat, data: seq<byte>, disk: Disk, off: nat, rest: seq<byte>,
                    junk: seq<byte>)
    requires Laying(e, disk0, off0, data, disk, off, rest) && rest != [] && |junk| == BLOCK_SIZE
    ensures off / BLOCK_SIZE < |e.refs| && e.refs[off / BLOCK_SIZE] < |disk|
    ensures var d := disk[e.refs[off / BLOCK_SIZE] := junk];
            Confined(e, disk0, d) && Reaches(e, disk0, off0 + |data|) && LayFails(e, disk0, off0, data, d)
  {
    hide Confined, Reaches, Lay, LayFails;
    LayingConfined(e, disk0, off0, data, disk, off, rest, junk);
    LayFailsNow(e, disk, off, rest, junk);
  }

  lemma LayingEnds(e: Entry, disk0: Disk, off0: nat, data: seq<byte>, disk: Disk, off: nat)
    requires Laying(e, disk0, off0, data, disk, off, [])
    ensures Reaches(e, disk0, off0 + |data|) && Confined(e, disk0, disk) && disk == Lay(e, disk0, off0, data)
  {
    hide LayFails;
    LayNone(e, disk, off);
  }

  /** Within one block, the block of the last byte is the block of the first. */
  lemma LastBlock(off: nat, n: nat)
    requires 0 < n && off % BLOCK_SIZE + n <= BLOCK_SIZE
    ensures NeededBlocks(off + n) - 1 == off / BLOCK_SIZE
  {
  }
}
