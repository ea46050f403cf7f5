/** Adding and removing directory items. */
module NsfsDir {
  import opened NsfsTypes
  import opened NsfsChain
  import opened NsfsTree
  import opened NsfsFit

  /** e may stand in for head h: same kind, name and parent. */
  ghost predicate Replaces(t: Table, h: nat, e: Entry) {
    && h < |t| && |e.refs| == SFS_ENTRYREFS
    && e == t[h].(time := e.time, size := e.size, refs := e.refs)
  }

  lemma FitRespares(t: Table, h: nat, e: Entry, det: set<nat>)
    requires Tree(t, det) && IsHead(t, h) && Replaces(t, h, e)
    ensures EntryOk(t, h)
    ensures match Fit(t, h, e)
            case None => true
            case Some(t') => Respare(t, t', h) && t'[h] == e.(next := t'[h].next)
                             && (RefCount(e) == 0 <==> t'[h].next == 0)
  {
    hide Tree, HeadOk, RefCount, Zeros, Respare, Fit;
    HeadEntries(t, h, det);
    if RefCount(e) == 0 {
      FitNoSpare(t, h, e);
    } else if t[h].next != 0 {
      FitSameSpare(t, h, e);
    } else {
      FitNewSpare(t, h, e);
    }
  }

  lemma FitNoSpare(t: Table, h: nat, e: Entry)
    requires IsHead(t, h) && EntryOk(t, h) && Replaces(t, h, e) && RefCount(e) == 0 && t[h].next < |t|
    ensures match Fit(t, h, e)
            case None => true
            case Some(t') => Respare(t, t', h) && t'[h] == e.(next := t'[h].next)
                             && (RefCount(e) == 0 <==> t'[h].next == 0)
  {
    hide HeadOk, RefCount, Zeros;
  }

  lemma FitSameSpare(t: Table, h: nat, e: Entry)
    requires IsHead(t, h) && EntryOk(t, h) && Replaces(t, h, e) && RefCount(e) != 0 && 0 != t[h].next < |t|
    requires EntryOk(t, t[h].next)
    ensures match Fit(t, h, e)
            case None => true
            case Some(t') => Respare(t, t', h) && t'[h] == e.(next := t'[h].next)
                             && (RefCount(e) == 0 <==> t'[h].next == 0)
  {
    hide HeadOk, RefCount, Zeros;
  }

  lemma FitNewSpare(t: Table, h: nat, e: Entry)
    requires IsHead(t, h) && EntryOk(t, h) && Replaces(t, h, e) && RefCount(e) != 0 && t[h].next == 0 && Used(t[0])
    ensures match Fit(t, h, e)
            case None => true
            case Some(t') => Respare(t, t', h) && t'[h] == e.(next := t'[h].next)
                             && (RefCount(e) == 0 <==> t'[h].next == 0)
  {
    hide HeadOk, RefCount;
  }

  lemma HeadEntries(t: Table, h: nat, det: set<nat>)
    requires Tree(t, det) && IsHead(t, h)
    ensures h < |t| && EntryOk(t, h) && 0 < |t| && Used(t[0])
    ensures t[h].next != 0 ==> t[h].next < |t| && EntryOk(t, t[h].next)
  {
    assert EntryOk(t, h);
  }

  /** Puts e in place of head h and passes its size on to the spare link, if there is one. */
  function Resized(t: Table, h: nat, e: Entry): (t': Table)
    requires h < |t| && t[h].next < |t|
    ensures |t'| == |t|
  {
    var q := t[h].next;
    if q == 0 then t[h := e] else t[h := e][q := t[q].(size := SizeAfter(e, e.size))]
  }

  lemma ResizedRespares(t: Table, h: nat, e: Entry, det: set<nat>)
    requires Tree(t, det) && IsHead(t, h) && Replaces(t, h, e)
    ensures EntryOk(t, h)
    ensures Respare(t, Resized(t, h, e), h) && Resized(t, h, e)[h] == e
  {
    assert EntryOk(t, h);
    if t[h].next != 0 {
      assert EntryOk(t, t[h].next);
    }
  }

  /** Position of x in s, or the length of s. */
  function Find(s: seq<nat>, x: nat): (p: nat)
    ensures p <= |s|
    ensures forall k :: 0 <= k < p ==> s[k] != x
    ensures p < |s| ==> s[p] == x
    decreases |s|
  {
    if s == [] || s[0] == x then 0 else 1 + Find(s[1..], x)
  }

  /** Directory entry e without item x; the items after it move one place down. */
  function DropItem(e: Entry, x: nat): (e': Entry)
    requires |e.refs| == SFS_ENTRYREFS && e.size <= SFS_ENTRYREFS && x in Items(e)
    ensures |e'.refs| == SFS_ENTRYREFS
  {
    var p := Find(Items(e), x);
    assert p < e.size by { assert Items(e) == e.refs[..e.size]; }
    e.(refs := e.refs[..p] + e.refs[p + 1..] + [0], size := e.size - 1)
  }

  /** Directory entry e with x as its last item. */
  function AddItem(e: Entry, x: nat): (e': Entry)
    requires |e.refs| == SFS_ENTRYREFS && e.size < SFS_ENTRYREFS
  {
    e.(refs := e.refs[e.size := x], size := e.size + 1)
  }

  function Remove(s: seq<nat>, p: nat): seq<nat>
    requires p < |s|
  {
    s[..p] + s[p + 1..]
  }

  lemma DropItemItems(e: Entry, x: nat)
    requires e.dir && !e.file && SizeOk(e) && |e.refs| == SFS_ENTRYREFS && x in Items(e)
    ensures var p := Find(Items(e), x);
            p < |Items(e)| && Items(DropItem(e, x)) == Remove(Items(e), p)
    ensures SizeOk(DropItem(e, x))
  {
    hide Find, Remove, Zeros;
    var p, e', n := Find(Items(e), x), DropItem(e, x), e.size;
    assert Items(e) == e.refs[..n] && p < n <= SFS_ENTRYREFS && e'.size == n - 1;
    assert e'.refs == e.refs[..p] + e.refs[p + 1..] + [0];
    assert ClearedFrom(e.refs, n);
    DropSlots(e.refs, p, n);
    assert Items(e') == e'.refs[..n - 1];
  }

  lemma DropSlots(refs: seq<nat>, p: nat, n: nat)
    requires |refs| == SFS_ENTRYREFS && p < n <= SFS_ENTRYREFS && ClearedFrom(refs, n)
    ensures var r := refs[..p] + refs[p + 1..] + [0];
            |r| == SFS_ENTRYREFS && r[..n - 1] == Remove(refs[..n], p) && ClearedFrom(r, n - 1)
  {
    var r := refs[..p] + refs[p + 1..] + [0];
    forall k | 0 <= k < SFS_ENTRYREFS
      ensures r[k] == if k < p then refs[k] else if k + 1 < SFS_ENTRYREFS then refs[k + 1] else 0
    {
    }
    var x, y := r[..n - 1], Remove(refs[..n], p);
    assert |x| == |y| && forall k :: 0 <= k < n - 1 ==> x[k] == y[k];
  }

  lemma AddItemItems(e: Entry, x: nat)
    requires e.dir && !e.file && SizeOk(e) && |e.refs| == SFS_ENTRYREFS && e.size < SFS_ENTRYREFS
    ensures Items(AddItem(e, x)) == Items(e) + [x]
    ensures SizeOk(AddItem(e, x))
  {
  }

  lemma RemoveMembers(s: seq<nat>, p: nat)
    requires p < |s| && Distinct(s)
    ensures Distinct(Remove(s, p))
    ensures forall c :: c in Remove(s, p) <==> c in s && c != s[p]
  {
    var r := Remove(s, p);
    assert forall k :: 0 <= k < |r| ==> r[k] == if k < p then s[k] else s[k + 1];
    forall c | c in s && c != s[p] ensures c in r {
      var k :| 0 <= k < |s| && s[k] == c;
      assert r[if k < p then k else k - 1] == c;
    }
  }

  /** remove_ref_in_entry on a directory of up to 120 items. */
  function Detached(t: Table, d: nat, x: nat): (r: Option<Table>)
    requires d < |t| && t[d].next < |t|
    requires |t[d].refs| == SFS_ENTRYREFS && t[d].size <= SFS_ENTRYREFS && x in Items(t[d])
    ensures r.Some? ==> |r.value| == |t|
  {
    Fit(t, d, DropItem(t[d], x))
  }

  /** Table t' is t with x taken from the list of entry d, or t itself if x is not listed there. */
  ghost predicate RefOut(t: Table, d: nat, x: nat, t': Table) {
    if d < |t| && t[d].dir && x in Items(t[d]) then
      t[d].next < |t| && |t[d].refs| == SFS_ENTRYREFS && t[d].size <= SFS_ENTRYREFS && Detached(t, d, x) == Some(t')
    else t' == t
  }

  /** Item x of entry d cannot be taken out: a link is needed and no entry is free. */
  ghost predicate Stuck(t: Table, d: nat, x: nat) {
    && d < |t| && t[d].dir && x in Items(t[d])
    && t[d].next < |t| && |t[d].refs| == SFS_ENTRYREFS && t[d].size <= SFS_ENTRYREFS && Detached(t, d, x) == None
  }

  /** add_ref_in_entry on a directory of fewer than 120 items. */
  function Attached(t: Table, d: nat, x: nat): (t': Table)
    requires d < |t| && t[d].next < |t|
    requires |t[d].refs| == SFS_ENTRYREFS && t[d].size < SFS_ENTRYREFS
    ensures |t'| == |t|
  {
    Resized(t, d, AddItem(t[d], x))
  }

  /** References refs with the one at p taken out, as far as slot r; the last slot is
      filled from outside. */
  function ShiftedTo(refs: seq<nat>, p: nat, r: nat, last: nat): (s: seq<nat>)
    requires p <= r <= |refs|
    ensures |s| == |refs|
    ensures forall k :: 0 <= k < |refs| ==>
              s[k] == if p <= k < r then (if k + 1 < |refs| then refs[k + 1] else last) else refs[k]
  {
    seq(|refs|, k requires 0 <= k < |refs| =>
      if p <= k < r then (if k + 1 < |refs| then refs[k + 1] else last) else refs[k])
  }

  lemma DroppedShifted(e: Entry, x: nat)
    requires e.dir && !e.file && SizeOk(e) && |e.refs| == SFS_ENTRYREFS && x in Items(e)
    ensures Find(Items(e), x) < e.size && DropItem(e, x).refs == ShiftedTo(e.refs, Find(Items(e), x), e.size, 0)
  {
    var p, r := Find(Items(e), x), DropItem(e, x).refs;
    assert Items(e) == e.refs[..e.size] && ClearedFrom(e.refs, e.size);
    hide Find, Items;
    assert forall k :: 0 <= k < SFS_ENTRYREFS ==> r[k] == ShiftedTo(e.refs, p, e.size, 0)[k];
  }

  /** The steps of remove_ref_in_entry amount to Detached. */
  lemma DetachedSteps(t: Table, d: nat, x: nat, det: set<nat>)
    requires Tree(t, det) && IsDir(t, d)
    ensures EntryOk(t, d) && SizeOk(t[d]) && RefCount(t[d]) == t[d].size
    ensures x in Items(t[d]) ==>
              var e, rc := DropItem(t[d], x), t[d].size;
              var t1, c := t[d := e.(size := t[d].size)], ChainOf(t, d);
              && Find(Items(t[d]), x) < rc && rc > 0
              && e.refs == ShiftedTo(t[d].refs, Find(Items(t[d]), x), rc, 0)
              && t1 == t[d := t[d].(refs := e.refs)]
              && Linked(t, c) && Linked(t1, c) && c[0] == d
              && (match Resize(t1, c, rc - 1)
                  case None => Detached(t, d, x) == None
                  case Some((t2, c2)) =>
                    && IsChain(t2, c2) && c2[0] == d
                    && Detached(t, d, x) == Some(SetSizes(t2, c2, 0, rc - 1)))
  {
    hide Tree, DropItem, Find, Items, HeadOk, SizeOk, ShiftedTo, ClearedFrom, RefCount, Fit, Resize, Linked, IsChain;
    hide ChainOf, SetSizes, InTable;
    DirSized(t, d, det);
    if x in Items(t[d]) {
      ItemDropped(t[d], x);
      var e := DropItem(t[d], x);
      var t1, c := t[d := e.(size := t[d].size)], ChainOf(t, d);
      Refits(t, d, e, det);
      ChainLinked(t, d, det);
      ChainStart(t, d);
      ResizeLinked(t1, c, t[d].size - 1);
      ResizedChain(t1, c, t[d].size - 1);
    }
  }

  lemma DirSized(t: Table, d: nat, det: set<nat>)
    requires Tree(t, det) && IsDir(t, d)
    ensures EntryOk(t, d) && SizeOk(t[d]) && RefCount(t[d]) == t[d].size <= SFS_ENTRYREFS && t[d].dir && !t[d].file
    ensures |t[d].refs| == SFS_ENTRYREFS && t[d].next < |t|
  {
    assert EntryOk(t, d);
    RefCountBounds(t[d]);
  }

  lemma ItemDropped(e: Entry, x: nat)
    requires e.dir && !e.file && SizeOk(e) && |e.refs| == SFS_ENTRYREFS && x in Items(e) && e.size <= SFS_ENTRYREFS
    ensures var e' := DropItem(e, x);
            && SizeOk(e') && RefCount(e') == e.size - 1 && |e'.refs| == SFS_ENTRYREFS
            && e' == e.(refs := e'.refs, size := e'.size) && e'.size == e.size - 1
            && Find(Items(e), x) < e.size && e'.refs == ShiftedTo(e.refs, Find(Items(e), x), e.size, 0)
  {
    DropItemItems(e, x);
    RefCountBounds(DropItem(e, x));
    DroppedShifted(e, x);
  }

  lemma ChainStart(t: Table, d: nat)
    requires d < |t|
    ensures |ChainOf(t, d)| > 0 && ChainOf(t, d)[0] == d
  {
  }

  lemma ResizedChain(t: Table, c: seq<nat>, refcount: nat)
    requires Linked(t, c)
    ensures match Resize(t, c, refcount)
            case None => true
            case Some((t', c')) => IsChain(t', c') && c'[0] == c[0] && InTable(t', c')
  {
    hide Resize;
    ResizeLinked(t, c, refcount);
  }

  /** No index of the entry table is among the references of a file. */
  lemma FileRefsAbove(t: Table, h: nat, x: nat, det: set<nat>)
    requires Tree(t, det) && IsHead(t, h) && t[h].file && x < |t|
    ensures EntryOk(t, h) && SizeOk(t[h]) && RefCount(t[h]) <= SFS_ENTRYREFS
    ensures Find(t[h].refs[..RefCount(t[h])], x) == RefCount(t[h])
  {
    assert EntryOk(t, h);
    RefCountBounds(t[h]);
  }

  // ----- adding a reference to any entry

  /** Entry d is what add_ref_in_entry expects: not in use, or the start of a chain. */
  ghost predicate Open(t: Table, d: nat) {
    && d < |t| && Shaped(t) && Used(t[0]) && t[d].next < |t|
    && if Used(t[d]) then Linked(t, ChainOf(t, d)) else t[d].next == 0
  }

  lemma OpenChain(t: Table, d: nat)
    requires Open(t, d)
    ensures var c := ChainOf(t, d);
            && InTable(t, c) && Distinct(c) && c[0] == d && 1 <= |c| <= 2 && (t[d].next != 0 ==> t[d].next != d)
            && (forall k :: 0 <= k < |c| ==> |t[c[k]].refs| == SFS_ENTRYREFS)
            && (forall i :: i in c ==> i == d || LinksTo(t[d], i)) && Shaped(t) && Used(t[0])
  {
    var c := ChainOf(t, d);
    forall k | 0 <= k < |c| ensures |t[c[k]].refs| == SFS_ENTRYREFS {
      assert EntryShaped(t, t[c[k]]);
    }
    if t[d].next != 0 {
      assert c[0] != c[1];
    }
  }

  /** A directory counts the new reference along its chain, in 16 bits; e is its entry before. */
  function Counted(t: Table, c: seq<nat>, e: Entry): (t': Table)
    requires InTable(t, c)
    ensures |t'| == |t|
  {
    if e.dir then SetSizes(t, c, 0, Lo16(e.size + 1)) else t
  }

  /** Reference slot of entry i. */
  function WithRef(t: Table, i: nat, slot: nat, x: nat): (t': Table)
    requires i < |t| && slot < |t[i].refs|
    ensures |t'| == |t|
  {
    t[i := t[i].(refs := t[i].refs[slot := x])]
  }

  /** add_ref_in_entry on any entry. When the chain has no entry for the reference,
      set_entry_refcount makes it longer; its result, which is 0, is then taken for the index of
      that entry, so that the reference goes to the root. */
  ghost function AddedTo(t: Table, d: nat, x: nat): (r: Option<Table>)
    requires Open(t, d)
    ensures r.Some? ==> |r.value| == |t|
  {
    var rc, c := RefCount(t[d]), ChainOf(t, d);
    if Steps(rc) < |c| then
      var i := c[Steps(rc)];
      assert EntryShaped(t, t[i]);
      Some(Counted(WithRef(t, i, rc % SFS_ENTRYREFS, x), c, t[d]))
    else
      ResizeLinked(t, c, Lo16(rc + 1));
      match Resize(t, c, Lo16(rc + 1))
      case None => None
      case Some((t2, c2)) =>
        assert EntryShaped(t2, t2[0]);
        Some(Counted(WithRef(t2, 0, rc % SFS_ENTRYREFS, x), c2, t[d]))
  }

  lemma WithRefChain(t: Table, c: seq<nat>, i: nat, slot: nat, x: nat)
    requires IsChain(t, c) && i < |t| && slot < |t[i].refs|
    ensures IsChain(WithRef(t, i, slot, x), c)
  {
  }

  /** The steps of add_ref_in_entry: the reference goes into the chain, or the chain is made longer
      and the reference goes to the root. */
  ghost predicate AddingSteps(t: Table, d: nat, x: nat) {
    && Open(t, d)
    && var rc, c := RefCount(t[d]), ChainOf(t, d);
       && InTable(t, c) && |c| > 0 && c[0] == d && (SFS_ENTRYREFS <= rc ==> IsChain(t, c))
       && if Steps(rc) < |c| then
            && |t[c[Steps(rc)]].refs| == SFS_ENTRYREFS
            && var t1 := WithRef(t, c[Steps(rc)], rc % SFS_ENTRYREFS, x);
               && (t[d].dir ==> IsChain(t1, c)) && AddedTo(t, d, x) == Some(Counted(t1, c, t[d]))
          else
            && Linked(t, c)
            && match Resize(t, c, Lo16(rc + 1))
               case None => AddedTo(t, d, x) == None
               case Some((t2, c2)) =>
                 && InTable(t2, c2) && |c2| > 0 && c2[0] == d && 0 < |t2| && |t2[0].refs| == SFS_ENTRYREFS
                 && var t3 := WithRef(t2, 0, rc % SFS_ENTRYREFS, x);
                    IsChain(t3, c2) && AddedTo(t, d, x) == Some(Counted(t3, c2, t[d]))
  }

  lemma OpenLinked(t: Table, d: nat)
    requires Open(t, d)
    ensures d < |t| && t[d].next < |t|
    ensures Used(t[d]) ==> Linked(t, ChainOf(t, d)) && Shaped(t) && IsChain(t, ChainOf(t, d))
    ensures !Used(t[d]) ==> RefCount(t[d]) == 0 && !t[d].dir
  {
  }

  lemma AddSteps(t: Table, d: nat, x: nat)
    requires Open(t, d)
    ensures AddingSteps(t, d, x)
  {
    hide Open, Linked, IsChain, Resize, SetSizes, ChainOf, Steps, RefCount, Shaped, Counted, Distinct;
    OpenChain(t, d);
    OpenLinked(t, d);
    var rc, c := RefCount(t[d]), ChainOf(t, d);
    ZeroSteps();
    if Steps(rc) < |c| {
      if t[d].dir { WithRefChain(t, c, c[Steps(rc)], rc % SFS_ENTRYREFS, x); }
    } else {
      AddStepsBehind(t, d, c, Lo16(rc + 1), rc % SFS_ENTRYREFS, x);
    }
  }

  lemma AddStepsBehind(t: Table, d: nat, c: seq<nat>, rc: nat, slot: nat, x: nat)
    requires Linked(t, c) && c[0] == d && slot < SFS_ENTRYREFS
    ensures match Resize(t, c, rc)
            case None => true
            case Some((t2, c2)) =>
              && InTable(t2, c2) && |c2| > 0 && c2[0] == d && 0 < |t2| && |t2[0].refs| == SFS_ENTRYREFS
              && IsChain(WithRef(t2, 0, slot, x), c2)
  {
    ResizeLinked(t, c, rc);
    if Resize(t, c, rc).Some? {
      var (t2, c2) := Resize(t, c, rc).value;
      assert EntryShaped(t2, t2[0]);
      WithRefChain(t2, c2, 0, slot, x);
    }
  }

  /** Every entry of a tree can be given a reference, also one that is not in use. */
  lemma TreeOpen(t: Table, d: nat, det: set<nat>)
    requires Tree(t, det) && d < |t|
    ensures Open(t, d) && (Steps(RefCount(t[d])) < |ChainOf(t, d)| || t[d].next == 0)
  {
    assert EntryOk(t, d);
    assert Shaped(t) by {
      forall i | 0 <= i < |t| ensures EntryShaped(t, t[i]) {
        assert EntryOk(t, i);
      }
    }
    if IsHead(t, d) {
      ChainLinked(t, d, det);
      RefCountBounds(t[d]);
    } else if Used(t[d]) {
      assert EntryOk(t, t[d].parent) && SpareOk(t, t[d].parent, d);
    }
  }

  /** A directory entry that can take one more reference, at the head of a chain of one or two. */
  ghost predicate Addable(t: Table, d: nat) {
    && d < |t| && Open(t, d) && t[d].dir && !t[d].file && t[d].size < SFS_ENTRYREFS
    && |t[d].refs| == SFS_ENTRYREFS && t[d].next < |t|
  }

  lemma DirAddable(t: Table, d: nat, det: set<nat>)
    requires Tree(t, det) && IsDir(t, d) && t[d].size < SFS_ENTRYREFS
    ensures Addable(t, d)
  {
    assert EntryOk(t, d);
    TreeOpen(t, d, det);
  }

  /** On a directory of fewer than 120 items, add_ref_in_entry amounts to Attached. */
  lemma AddedAttached(t: Table, d: nat, x: nat)
    requires Addable(t, d)
    ensures AddedTo(t, d, x) == Some(Attached(t, d, x))
  {
    OpenChain(t, d);
    var t1, c := WithRef(t, d, t[d].size, x), ChainOf(t, d);
    assert RefCount(t[d]) == t[d].size && Steps(t[d].size) == 0;
    hide Linked, IsChain, Shaped, SetSizes, Open;
    SetSizesShort(t1, c, t[d].size + 1);
    assert Lo16(t[d].size + 1) == t[d].size + 1;
    assert AddedTo(t, d, x) == Some(SetSizes(t1, c, 0, t[d].size + 1));
    assert t1[d := t1[d].(size := t[d].size + 1)] == t[d := AddItem(t[d], x)];
    assert SetSizes(t1, c, 0, t[d].size + 1) == Attached(t, d, x);
  }

  /** From t to t', of entries in use and of d only references, sizes, and the link out of d change,
      and that of d, its link and the root only. */
  ghost predicate RefGiven(t: Table, d: nat, t': Table) {
    && d < |t| && |t'| == |t| && Shaped(t') && Used(t'[0])
    && (forall i :: 0 <= i < |t| && (i == d || Used(t[i])) ==> SameButRefs(t[i], t'[i], i == d))
    && (forall i :: 0 <= i < |t| && Used(t[i]) && i != d && i != 0 && !LinksTo(t[d], i) ==> t'[i] == t[i])
    && (t'[d].next == t[d].next || t'[d].next == 0 || (t'[d].next < |t| && !Used(t[t'[d].next])))
  }

  predicate SameButRefs(e: Entry, e': Entry, relinked: bool) {
    && e'.parent == e.parent && e'.name == e.name && e'.dir == e.dir && e'.file == e.file
    && (relinked || e'.next == e.next)
  }

  /** What add_ref_in_entry leaves of entries in use; a new link out of d was a free entry. */
  lemma AddedFrame(t: Table, d: nat, x: nat)
    requires Open(t, d) && (Steps(RefCount(t[d])) < |ChainOf(t, d)| || t[d].next == 0)
    ensures match AddedTo(t, d, x)
            case None => true
            case Some(t') => RefGiven(t, d, t') && (t[d].dir ==> t'[d].size == Lo16(t[d].size + 1))
  {
    if Steps(RefCount(t[d])) < |ChainOf(t, d)| {
      AddedInChain(t, d, x);
    } else {
      AddedBehind(t, d, x);
    }
  }

  lemma AddedInChain(t: Table, d: nat, x: nat)
    requires Open(t, d) && Steps(RefCount(t[d])) < |ChainOf(t, d)|
    ensures match AddedTo(t, d, x)
            case None => true
            case Some(t') => RefGiven(t, d, t') && (t[d].dir ==> t'[d].size == Lo16(t[d].size + 1))
  {
    hide Linked, IsChain, SetSizes, RefCount, Steps, Resize, Shaped, Open, ChainOf, Distinct;
    OpenChain(t, d);
    var rc, c := RefCount(t[d]), ChainOf(t, d);
    var t1 := WithRef(t, c[Steps(rc)], rc % SFS_ENTRYREFS, x);
    SetSizesFrame(t1, c, 0, Lo16(t[d].size + 1));
    RefShaped(t, c[Steps(rc)], rc % SFS_ENTRYREFS, x);
    SizesShaped(t1, c, Lo16(t[d].size + 1));
    assert c[0..] == c;
  }

  lemma RefShaped(t: Table, i: nat, slot: nat, x: nat)
    requires Shaped(t) && Used(t[0]) && i < |t| && slot < SFS_ENTRYREFS
    ensures slot < |t[i].refs| && Shaped(WithRef(t, i, slot, x)) && Used(WithRef(t, i, slot, x)[0])
  {
    assert EntryShaped(t, t[i]);
    forall k | 0 <= k < |t| ensures EntryShaped(t, WithRef(t, i, slot, x)[k]) {
      assert EntryShaped(t, t[k]);
    }
  }

  lemma SizesShaped(t: Table, c: seq<nat>, size: nat)
    requires Shaped(t) && Used(t[0]) && InTable(t, c)
    ensures Shaped(SetSizes(t, c, 0, size)) && Used(SetSizes(t, c, 0, size)[0])
  {
    SetSizesFrame(t, c, 0, size);
    forall k | 0 <= k < |t| ensures EntryShaped(t, SetSizes(t, c, 0, size)[k]) {
      assert EntryShaped(t, t[k]);
    }
  }

  /** Where the chain is too short for the new reference, one of the root is overwritten. */
  lemma RootOverwritten(t: Table, d: nat, x: nat)
    requires Open(t, d) && |ChainOf(t, d)| <= Steps(RefCount(t[d]))
    ensures match AddedTo(t, d, x)
            case None => true
            case Some(t') =>
              0 < |t'| && |t'[0].refs| == SFS_ENTRYREFS && t'[0].refs[RefCount(t[d]) % SFS_ENTRYREFS] == x
  {
    hide Open, LinkedBack, IsChain, Resize, SetSizes, ChainOf, Steps, RefCount, Shaped, Distinct, AddedTo;
    AddSteps(t, d, x);
    var rc, c := RefCount(t[d]), ChainOf(t, d);
    match Resize(t, c, Lo16(rc + 1))
    case None =>
      assert AddedTo(t, d, x).None? by { NotAdded(t, d, x); }
    case Some((t2, c2)) =>
      if t[d].dir { SetSizesFrame(WithRef(t2, 0, rc % SFS_ENTRYREFS, x), c2, 0, Lo16(t[d].size + 1)); }
  }

  lemma NotAdded(t: Table, d: nat, x: nat)
    requires Open(t, d) && |ChainOf(t, d)| <= Steps(RefCount(t[d])) && Linked(t, ChainOf(t, d))
    requires Resize(t, ChainOf(t, d), Lo16(RefCount(t[d]) + 1)).None?
    ensures AddedTo(t, d, x).None?
  {
  }

  lemma AddedBehind(t: Table, d: nat, x: nat)
    requires Open(t, d) && Steps(RefCount(t[d])) >= 1 && t[d].next == 0
    ensures match AddedTo(t, d, x)
            case None => true
            case Some(t') => RefGiven(t, d, t') && (t[d].dir ==> t'[d].size == Lo16(t[d].size + 1))
  {
    hide IsChain, Shaped, SetSizes, Steps, Resize;
    var rc := RefCount(t[d]);
    ZeroSteps();
    assert Used(t[d]) && ChainOf(t, d) == [d] && Linked(t, [d]);
    LongerFrame(t, d, Lo16(rc + 1));
    hide RefCount, ChainOf, Open;
    if AddedTo(t, d, x).Some? {
      var (t2, c2) := Resize(t, [d], Lo16(rc + 1)).value;
      var t3 := WithRef(t2, 0, rc % SFS_ENTRYREFS, x);
      SetSizesFrame(t3, c2, 0, Lo16(t[d].size + 1));
      RefShaped(t2, 0, rc % SFS_ENTRYREFS, x);
      SizesShaped(t3, c2, Lo16(t[d].size + 1));
      assert c2[0..] == c2;
    }
  }

  lemma ZeroSteps()
    ensures forall n: nat :: n < SFS_ENTRYREFS ==> Steps(n) == 0
  {
  }

  lemma LongerFrame(t: Table, d: nat, rc: nat)
    requires d < |t| && Linked(t, [d])
    ensures match Resize(t, [d], rc)
            case None => true
            case Some((t2, c2)) =>
              && |t2| == |t| && Linked(t2, c2) && c2[0] == d && Distinct(c2) && InTable(t2, c2)
              && |t2[0].refs| == SFS_ENTRYREFS && (forall i :: 0 <= i < |t| && Used(t[i]) && i != d ==> i !in c2)
              && (forall i :: 0 <= i < |t| && Used(t[i]) && i != d ==> t2[i] == t[i])
              && t2[d] == t[d].(next := t2[d].next, refs := t2[d].refs)
              && (t2[d].next == 0 || (t2[d].next < |t| && !Used(t[t2[d].next])))
  {
    ResizeLinked(t, [d], rc);
    GrowOthers(t, d, Links(rc));
    GrowFresh(t, d, Links(rc));
    assert Resize(t, [d], rc).Some? ==> EntryShaped(Resize(t, [d], rc).value.0, Resize(t, [d], rc).value.0[0]);
  }

  lemma DetachTree(t: Table, d: nat, x: nat, det: set<nat>)
    requires Tree(t, det) && IsDir(t, d)
    ensures EntryOk(t, d) && SizeOk(t[d])
    ensures x in Items(t[d]) ==>
              match Detached(t, d, x)
              case None => true
              case Some(t') => Tree(t', det + {x}) && Respare(t, t', d)
  {
    assert EntryOk(t, d) && ListOk(t, det, d);
    if x in Items(t[d]) && Detached(t, d, x).Some? {
      var e, t' := DropItem(t[d], x), Detached(t, d, x).value;
      DropItemItems(t[d], x);
      FitRespares(t, d, e, det);
      RespareHeads(t, t', d, det);
      RemoveMembers(Items(t[d]), Find(Items(t[d]), x));
      DetachList(t, t', d, x, det);
      RespareTree(t, t', d, det, det + {x});
    }
  }

  lemma DetachList(t: Table, t': Table, d: nat, x: nat, det: set<nat>)
    requires Tree(t, det) && IsDir(t, d) && Respare(t, t', d) && ListOk(t, det, d)
    requires Distinct(Items(t'[d])) && forall c :: c in Items(t'[d]) <==> c in Items(t[d]) && c != x
    ensures ListOk(t', det + {x}, d)
  {
    RespareHeads(t, t', d, det);
    forall c: nat
      ensures c in Items(t'[d]) <==> IsChild(t', c, d) && c !in det + {x}
    {
      if IsHead(t, c) {
        assert EntryOk(t, c) && EntryOk(t, d);
      }
    }
  }

  lemma AttachTree(t: Table, d: nat, x: nat, det: set<nat>)
    requires Tree(t, det) && IsDir(t, d) && t[d].size < SFS_ENTRYREFS
    requires x in det && IsChild(t, x, d)
    ensures EntryOk(t, d)
    ensures var t' := Attached(t, d, x); Tree(t', det - {x}) && Respare(t, t', d)
  {
    assert EntryOk(t, d) && ListOk(t, det, d);
    var e, t' := AddItem(t[d], x), Attached(t, d, x);
    AddItemItems(t[d], x);
    ResizedRespares(t, d, e, det);
    AttachList(t, t', d, x, det);
    RespareTree(t, t', d, det, det - {x});
  }

  lemma AttachList(t: Table, t': Table, d: nat, x: nat, det: set<nat>)
    requires Tree(t, det) && IsDir(t, d) && Respare(t, t', d) && ListOk(t, det, d)
    requires x in det && IsChild(t, x, d) && Items(t'[d]) == Items(t[d]) + [x]
    ensures ListOk(t', det - {x}, d)
  {
    RespareHeads(t, t', d, det);
    forall c: nat
      ensures c in Items(t'[d]) <==> IsChild(t', c, d) && c !in det - {x}
    {
      if IsHead(t, c) {
        assert EntryOk(t, c) && EntryOk(t, d);
      }
    }
  }
}
