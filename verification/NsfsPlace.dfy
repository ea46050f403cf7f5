/** Putting an entry below whatever entry a path leads to: the kernel does not ask whether that is
    a directory, and when it is none, or is full, what is left is not a directory tree. */
module NsfsPlace {
  import opened NsfsTypes
  import opened NsfsChain
  import opened NsfsTree
  import opened NsfsFit
  import opened NsfsDir
  import opened NsfsOps
  import opened NsfsState
  import opened NsfsWrite

  /** Entry p is the link of h. */
  predicate LinkOf(t: Table, h: nat, p: nat) {
    && h < |t| && p < |t| && p != 0 && h != p
    && Used(t[h]) && Used(t[p]) && t[h].next == p && t[p].parent == h
  }

  /** Entry x is a head below p, which is no directory, the link of one, or an overfull one. */
  ghost predicate Misplaced(t: Table, x: nat, p: nat) {
    && x < |t| && p < |t| && x != 0 && x != p && Used(t[x]) && t[x].parent == p && t[p].next != x
    && (!t[p].dir || t[p].size > SFS_ENTRYREFS || LinkOf(t, t[p].parent, p))
  }

  lemma MisplacedBad(t: Table, x: nat, p: nat)
    requires Misplaced(t, x, p)
    ensures !TreeOk(t)
  {
    assert IsHead(t, x);
    if IsDir(t, p) {
      assert !EntryOk(t, p);
    } else {
      assert !EntryOk(t, x);
    }
  }

  /** Adding a reference does not change where x is; a full directory becomes overfull. */
  lemma GivenMisplaced(t: Table, p: nat, x: nat, t': Table)
    requires RefGiven(t, p, t') && (t[p].dir ==> t'[p].size == Lo16(t[p].size + 1))
    requires x < |t| && x != 0 && x != p && Used(t[x]) && t[x].parent == p && t[p].next != x
    requires !t[p].dir || SFS_ENTRYREFS <= t[p].size < 0xFFFF || LinkOf(t, t[p].parent, p)
    ensures Misplaced(t', x, p)
  {
    assert SameButRefs(t[p], t'[p], true) && SameButRefs(t[x], t'[x], false);
    var h := t[p].parent;
    if LinkOf(t, h, p) {
      assert SameButRefs(t[h], t'[h], false);
    }
  }

  // ----- creating

  /** A new head without contents. */
  predicate Fresh(e: Entry, p: nat) {
    e.parent == p && e.dir != e.file && e.size == 0 && e.next == 0 && e.refs == Zeros(SFS_ENTRYREFS)
  }

  lemma CreateOpen(t: Table, p: nat, e: Entry, n: nat)
    requires TreeOk(t) && p < |t| && Used(t[p]) && Fresh(e, p) && n < |t| && !Used(t[n])
    ensures n != 0 && n != p && t[p].next != n && t[n := e][p] == t[p]
    ensures Open(t[n := e], p)
    ensures Steps(RefCount(t[p])) < |ChainOf(t, p)| || t[p].next == 0
  {
    hide Open, ChainOf, Steps, RefCount;
    TreeOpen(t, p, {});
    assert EntryOk(t, p) && RootOk(t[0]);
    OpenBeside(t, p, e, n);
  }

  lemma OpenBeside(t: Table, p: nat, e: Entry, n: nat)
    requires p < |t| && Used(t[p]) && Open(t, p) && n < |t| && !Used(t[n]) && n != 0
    requires e.parent < |t| && e.next == 0 && |e.refs| == SFS_ENTRYREFS
    ensures Open(t[n := e], p)
  {
    var t0, c := t[n := e], ChainOf(t, p);
    assert ChainOf(t0, p) == c && n !in c;
    hide ChainOf;
    forall i | 0 <= i < |t0| ensures EntryShaped(t0, t0[i]) {
      assert EntryShaped(t, t[i]);
    }
    assert LinkedBack(t0, c) && IsChain(t0, c);
  }

  /** In a directory with room the new head becomes its last item. */
  lemma CreatedRoom(t: Table, p: nat, e: Entry, n: nat)
    requires TreeOk(t) && HasRoom(t, p) && Fresh(e, p) && n == FirstFree(t) < |t|
    ensures n != p && EntryOk(t, p) && NewHead(t, p, e)
    ensures CreateLeaves(t, p, e, Created(t, n, p, e), n)
  {
    assert EntryOk(t, p);
    NewHeadTree(t, {}, n, p, e);
    assert {} + {n} == {n};
    NewHeadHeads(t, {}, n, p, e, p);
    DirAddable(t[n := e], p, {n});
    AddedAttached(t[n := e], p, n);
  }

  /** Anywhere else it is out of place; it is a head without contents as far as it goes itself. */
  lemma CreateMisplaced(t: Table, p: nat, e: Entry, t': Table, n: nat)
    requires TreeOk(t) && p < |t| && Used(t[p]) && !HasRoom(t, p) && Fresh(e, p) && CreateLeaves(t, p, e, t', n)
    ensures Misplaced(t', n, p) && t'[n] == e && Shaped(t') && Used(t'[0])
  {
    CreateOpen(t, p, e, n);
    var t0 := t[n := e];
    AddedFrame(t0, p, n);
    assert EntryOk(t, p) && RootOk(t[0]);
    DirBounds(t, p);
    hide AddedTo, Open, RefGiven, Tree, EntryOk, HasRoom, Steps, RefCount, ChainOf;
    assert t'[n] == t0[n] by { GivenElsewhere(t0, p, t', n); }
    assert LinkOf(t, t[p].parent, p) ==> LinkOf(t0, t[p].parent, p);
    GivenMisplaced(t0, p, n, t');
    assert Shaped(t') && Used(t'[0]) by { GivenShaped(t0, p, t'); }
  }

  lemma GivenElsewhere(t: Table, d: nat, t': Table, i: nat)
    requires RefGiven(t, d, t') && i < |t| && Used(t[i]) && i != d && i != 0 && !LinksTo(t[d], i)
    ensures t'[i] == t[i]
  {
  }

  lemma GivenShaped(t: Table, d: nat, t': Table)
    requires RefGiven(t, d, t')
    ensures Shaped(t') && Used(t'[0])
  {
  }

  /** An entry in use that is no directory with room is a file's, a full directory, or a link. */
  lemma DirBounds(t: Table, p: nat)
    requires TreeOk(t) && p < |t| && Used(t[p])
    ensures HasRoom(t, p) || !t[p].dir || t[p].size == SFS_ENTRYREFS || LinkOf(t, t[p].parent, p)
  {
    assert EntryOk(t, p) && EntryOk(t, t[p].parent);
  }

  /** Writing to a file that is out of place leaves it there. */
  lemma GrownMisplaced(s: Fs, n: nat, size: nat, p: nat)
    requires Misplaced(s.table, n, p) && Used(s.table[p]) && s.table[n].next == 0
    ensures match GrowStep(s, n, size)
            case None => true
            case Some(t1) => Misplaced(t1, n, p) && (t1[n].next == 0 || (t1[n].next < |t1| && t1[n].next != n))
                             && !LinksTo(t1[n], p)
  {
    var t := s.table;
    if size > t[n].size && GrowStep(s, n, size).Some? {
      var f := FirstFree(t);
      assert !LinkOf(t, n, p);
    }
  }

  lemma TimedMisplaced(t: Table, n: nat, p: nat, time: nat)
    requires Misplaced(t, n, p) && !LinksTo(t[n], p) && (t[n].next == 0 || (t[n].next < |t| && t[n].next != n))
    ensures Misplaced(Timed(t, n, time), n, p)
  {
    TimedShort(t, n, time);
  }
}
