/** Chains of entries. A file or directory whose references do not fit in one entry
    continues in the entry named by its next field. This module says what the resizing
    of a chain computes, and proves the shape of the chain that results. */
module NsfsChain {
  import opened NsfsTypes

  /** c lists, from the head on, the entries of one chain of t. */
  ghost predicate IsChain(t: Table, c: seq<nat>) {
    && |c| > 0
    && (forall k :: 0 <= k < |c| ==> c[k] < |t|)
    && (forall k :: 1 <= k < |c| ==> c[k] != 0)
    && (forall k :: 0 <= k < |c| ==> Used(t[c[k]]))
    && (forall j, k :: 0 <= j < k < |c| && k == j + 1 ==> t[c[j]].next == c[k])
    && t[c[|c| - 1]].next == 0
    && Distinct(c)
  }

  predicate Distinct(c: seq<nat>) {
    forall j, k :: 0 <= j < k < |c| ==> c[j] != c[k]
  }

  /** Every chained entry points back to its predecessor. */
  ghost predicate LinkedBack(t: Table, c: seq<nat>)
    requires forall k :: 0 <= k < |c| ==> c[k] < |t|
  {
    forall j, k :: 0 <= j < k < |c| && k == j + 1 ==> t[c[k]].parent == c[j]
  }

  /** Entries needed to hold refcount references after the head: the kernel walks this
      many links from the head, so that a chain keeps one more entry than it fills. */
  function Links(refcount: nat): nat {
    refcount / SFS_ENTRYREFS + if refcount % SFS_ENTRYREFS != 0 then 1 else 0
  }

  function ClearFrom(refs: seq<nat>, from: nat): (r: seq<nat>)
    requires from <= |refs|
    ensures |r| == |refs|
    ensures forall k :: 0 <= k < |r| ==> r[k] == if k < from then refs[k] else 0
  {
    refs[..from] + Zeros(|refs| - from)
  }

  /** Entry written for a new link after entry last. */
  function Link(e: Entry, last: nat): Entry {
    e.(parent := last, next := 0, size := 0, refs := Zeros(SFS_ENTRYREFS))
  }

  /** Table after appending one link f to the chain that ends in last. */
  function Append(t: Table, last: nat, f: nat): (t': Table)
    requires last < |t| && f < |t|
    ensures |t'| == |t|
  {
    t[last := t[last].(next := f)][f := Link(t[last], last)]
  }

  /** Appends m links after last, each in the lowest free entry; none when the table is full. */
  function Grow(t: Table, last: nat, m: nat): (r: Option<(Table, seq<nat>)>)
    requires last < |t|
    ensures r.Some? ==> |r.value.0| == |t| && |r.value.1| == m
    ensures r.Some? ==> forall k :: 0 <= k < m ==> r.value.1[k] < |t|
    decreases m
  {
    if m == 0 then Some((t, [])) else
    var f := FirstFree(t);
    if f == |t| then None else
    var rest := Grow(Append(t, last, f), f, m - 1);
    if rest.None? then None else
    Some((rest.value.0, [f] + rest.value.1))
  }

  /** The indexes at positions m and later of a chain. */
  function Tail(c: seq<nat>, m: nat): (s: set<nat>)
    requires Distinct(c)
    ensures forall k :: 0 <= k < |c| ==> (c[k] in s <==> m <= k)
    ensures forall i :: i in s ==> i in c
  {
    set k | m <= k < |c| :: c[k]
  }

  /** Zeroes the entries at the indexes in s. */
  function ZeroOut(t: Table, s: set<nat>): (t': Table)
    ensures |t'| == |t|
    ensures forall i :: 0 <= i < |t| ==> t'[i] == if i in s then Zero() else t[i]
  {
    seq(|t|, i requires 0 <= i < |t| => if i in s then Zero() else t[i])
  }

  /** Ends the chain at its entry last, clearing the references from slot from on. */
  function EndAt(t: Table, last: nat, from: nat): (t': Table)
    requires last < |t| && |t[last].refs| == SFS_ENTRYREFS && from < SFS_ENTRYREFS
    ensures |t'| == |t|
  {
    t[last := t[last].(next := 0, refs := ClearFrom(t[last].refs, from))]
  }

  /** Table and chain left by resizing chain c to refcount references. */
  ghost function Resize(t: Table, c: seq<nat>, refcount: nat): (r: Option<(Table, seq<nat>)>)
    requires Shaped(t) && IsChain(t, c)
    ensures r.Some? ==> |r.value.0| == |t| && |r.value.1| == 1 + Links(refcount)
  {
    var m := Links(refcount);
    if m < |c| then
      Some((ZeroOut(EndAt(t, c[m], refcount % SFS_ENTRYREFS), Tail(c, m + 1)), c[..m + 1]))
    else
      match Grow(t, c[|c| - 1], m - (|c| - 1))
      case None => None
      case Some(g) => Some((g.0, c + g.1))
  }

  /** A chain: live entries linked forth and back. */
  ghost predicate Linked(t: Table, c: seq<nat>) {
    Shaped(t) && IsChain(t, c) && LinkedBack(t, c) && Used(t[0])
  }

  /** f is a copy of e as a link: same kind, name and time, and nothing in it yet. */
  predicate FreshLink(e: Entry, f: Entry) {
    && f.dir == e.dir && f.file == e.file && f.name == e.name && f.time == e.time
    && f.size == 0 && f.refs == Zeros(SFS_ENTRYREFS)
  }

  /** The next field of the entry at position k of a chain. */
  lemma NextLink(t: Table, c: seq<nat>, k: nat)
    requires IsChain(t, c) && k < |c|
    ensures t[c[k]].next == if k + 1 < |c| then c[k + 1] else 0
    ensures t[c[k]].next == 0 <==> k == |c| - 1
  {
    if k + 1 < |c| {
      assert t[c[k]].next == c[k + 1];
    }
  }

  lemma AppendChain(t: Table, c: seq<nat>, f: nat)
    requires IsChain(t, c) && LinkedBack(t, c) && f < |t| && !Used(t[f]) && f != 0 && f !in c
    ensures IsChain(Append(t, c[|c| - 1], f), c + [f]) && LinkedBack(Append(t, c[|c| - 1], f), c + [f])
  {
    hide Zeros;
  }

  lemma AppendShape(t: Table, c: seq<nat>, f: nat)
    requires Linked(t, c)
    requires f < |t| && !Used(t[f])
    ensures Linked(Append(t, c[|c| - 1], f), c + [f])
    ensures FreshLink(t[c[|c| - 1]], Append(t, c[|c| - 1], f)[f])
  {
    var t' := Append(t, c[|c| - 1], f);
    forall i | 0 <= i < |t| ensures EntryShaped(t', t'[i]) {
      assert EntryShaped(t, t[i]);
    }
    assert f !in c;
    AppendChain(t, c, f);
  }

  /** Growing takes free entries only and fills them with fresh links. */
  lemma {:induction false} GrowFresh(t: Table, last: nat, m: nat)
    requires last < |t| && Used(t[last])
    ensures match Grow(t, last, m)
            case None => true
            case Some((t', f)) =>
              forall k :: 0 <= k < |f| ==> !Used(t[f[k]]) && FreshLink(t[last], t'[f[k]])
    decreases m
  {
    if m > 0 && Grow(t, last, m).Some? {
      var f := FirstFree(t);
      var t1 := Append(t, last, f);
      GrowFresh(t1, f, m - 1);
      GrowOthers(t1, f, m - 1);
      var (t', fs) := Grow(t1, f, m - 1).value;
      assert Grow(t, last, m).value == (t', [f] + fs);
      FreshMore(t, last, f, t', fs);
    }
  }

  lemma FreshMore(t: Table, last: nat, f: nat, t': Table, fs: seq<nat>)
    requires last < |t| && f < |t| && Used(t[last]) && !Used(t[f]) && |t'| == |t|
    requires forall k :: 0 <= k < |fs| ==> fs[k] < |t|
    requires var t1 := Append(t, last, f);
             && Used(t1[f]) && (t'[f] == t1[f] || (fs != [] && t'[f] == t1[f].(next := fs[0])))
             && forall k :: 0 <= k < |fs| ==> !Used(t1[fs[k]]) && FreshLink(t1[f], t'[fs[k]])
    ensures var r := [f] + fs;
            forall k :: 0 <= k < |r| ==> !Used(t[r[k]]) && FreshLink(t[last], t'[r[k]])
  {
    hide Zeros;
    var r, t1 := [f] + fs, Append(t, last, f);
    forall k | 0 <= k < |r| ensures !Used(t[r[k]]) && FreshLink(t[last], t'[r[k]]) {
      if k > 0 {
        assert r[k] == fs[k - 1] && !Used(t1[fs[k - 1]]);
      }
    }
  }

  /** Growing changes nothing but its new links and the link out of the old last entry. */
  lemma {:induction false} GrowOthers(t: Table, last: nat, m: nat)
    requires last < |t| && Used(t[last])
    ensures match Grow(t, last, m)
            case None => true
            case Some((t', f)) =>
              && t'[last] == (if m > 0 then t[last].(next := f[0]) else t[last])
              && (forall i :: 0 <= i < |t| && Used(t[i]) && i != last ==> t'[i] == t[i])
              && (forall i :: 0 <= i < |t| && i !in f && i != last ==> t'[i] == t[i])
    decreases m
  {
    if m > 0 && Grow(t, last, m).Some? {
      var f := FirstFree(t);
      GrowOthers(Append(t, last, f), f, m - 1);
    }
  }

  /** A grown chain is a chain, linked forth and back. */
  lemma {:induction false} GrowLinked(t: Table, c: seq<nat>, m: nat)
    requires Linked(t, c)
    ensures match Grow(t, c[|c| - 1], m)
            case None => true
            case Some((t', f)) => Linked(t', c + f)
    decreases m
  {
    var last := c[|c| - 1];
    if Grow(t, last, m).None? {
    } else if m == 0 {
      assert c + [] == c;
    } else {
      var f := FirstFree(t);
      var t1 := Append(t, last, f);
      AppendShape(t, c, f);
      GrowLinked(t1, c + [f], m - 1);
      assert c + ([f] + Grow(t1, f, m - 1).value.1) == (c + [f]) + Grow(t1, f, m - 1).value.1;
    }
  }

  /** The first entries of a chain form a chain once the last of them ends it. */
  lemma PrefixLinked(t: Table, t': Table, c: seq<nat>, m: nat, refs: seq<nat>)
    requires Linked(t, c) && m < |c| && Shaped(t') && |t'| == |t| && Used(t'[0])
    requires forall k :: 0 <= k < m ==> t'[c[k]] == t[c[k]]
    requires t'[c[m]] == t[c[m]].(next := 0, refs := refs)
    ensures Linked(t', c[..m + 1])
  {
    var c' := c[..m + 1];
    assert forall k :: 0 <= k < |c'| ==> c'[k] == c[k];
  }

  /** What cutting a chain after its link m leaves. */
  lemma CutFrame(t: Table, c: seq<nat>, m: nat, from: nat)
    requires Linked(t, c) && m < |c| && from < SFS_ENTRYREFS
    ensures var t' := ZeroOut(EndAt(t, c[m], from), Tail(c, m + 1));
            && Shaped(t') && Used(t'[0])
            && (forall k :: 0 <= k < m ==> t'[c[k]] == t[c[k]])
            && t'[c[m]] == t[c[m]].(next := 0, refs := ClearFrom(t[c[m]].refs, from))
            && (forall k :: m < k < |c| ==> t'[c[k]] == Zero())
            && (forall i :: 0 <= i < |t| && i !in c ==> t'[i] == t[i])
  {
    var t1 := EndAt(t, c[m], from);
    var t' := ZeroOut(t1, Tail(c, m + 1));
    assert 0 !in Tail(c, m + 1);
    forall i | 0 <= i < |t| ensures EntryShaped(t', t'[i]) {
      assert EntryShaped(t, t[i]);
    }
  }

  /** Resizing leaves a chain of exactly one entry more than the references fill, linked
      forth and back; links that stay keep their place and the ones gained were free. */
  lemma ResizeLinked(t: Table, c: seq<nat>, refcount: nat)
    requires Linked(t, c)
    ensures match Resize(t, c, refcount)
            case None => true
            case Some((t', c')) =>
              && Linked(t', c') && |c'| == 1 + Links(refcount)
              && (c' <= c || c <= c')
              && (forall k :: |c| <= k < |c'| ==> !Used(t[c'[k]]))
  {
    hide Linked, IsChain, Shaped, ZeroOut, EndAt, Tail, ClearFrom, Grow, Zeros, Links;
    var m := Links(refcount);
    if m < |c| {
      CutLinked(t, c, m, refcount % SFS_ENTRYREFS);
    } else {
      GrownLinked(t, c, m - (|c| - 1));
    }
  }

  lemma CutLinked(t: Table, c: seq<nat>, m: nat, from: nat)
    requires Linked(t, c) && m < |c| && from < SFS_ENTRYREFS
    ensures Linked(ZeroOut(EndAt(t, c[m], from), Tail(c, m + 1)), c[..m + 1])
  {
    hide ZeroOut, EndAt, Tail, ClearFrom, LinkedBack;
    CutFrame(t, c, m, from);
    PrefixLinked(t, ZeroOut(EndAt(t, c[m], from), Tail(c, m + 1)), c, m, ClearFrom(t[c[m]].refs, from));
  }

  lemma GrownLinked(t: Table, c: seq<nat>, m: nat)
    requires Linked(t, c) && m > 0
    ensures match Grow(t, c[|c| - 1], m)
            case None => true
            case Some((t', f)) =>
              && Linked(t', c + f) && (forall k :: |c| <= k < |c + f| ==> !Used(t[(c + f)[k]]))
  {
    hide Grow, FreshLink, LinkedBack, EntryShaped, Distinct;
    GrowFresh(t, c[|c| - 1], m);
    GrowLinked(t, c, m);
  }

  /** From chain c of t to chain c' of t': entries cut off are zeroed, entries outside the
      chain stay as they were unless they become links, and entries before the last keep
      all but their link. */
  ghost predicate Kept(t: Table, c: seq<nat>, t': Table, c': seq<nat>) {
    && |t| == |t'| && InTable(t, c) && InTable(t, c')
    && (forall k :: |c'| <= k < |c| ==> t'[c[k]] == Zero())
    && (forall i :: 0 <= i < |t| && i !in c && i !in c' ==> t'[i] == t[i])
    && (forall j, k :: 0 <= j < |c| && 0 <= j < k < |c'| && k == j + 1 ==>
          t'[c[j]] == t[c[j]].(next := c'[k]))
  }

  ghost predicate InTable(t: Table, c: seq<nat>) {
    forall k :: 0 <= k < |c| ==> c[k] < |t|
  }

  /** Every reference of the last entry of a chain from slot from on is unused. */
  ghost predicate LastCleared(t: Table, c: seq<nat>, from: nat) {
    && |c| > 0 && c[|c| - 1] < |t|
    && ClearedFrom(t[c[|c| - 1]].refs, from)
  }

  predicate ClearedFrom(refs: seq<nat>, from: nat) {
    forall j :: from <= j < |refs| ==> refs[j] == 0
  }

  /** Resizing keeps what it should. */
  lemma ResizeKeeps(t: Table, c: seq<nat>, refcount: nat)
    requires Linked(t, c)
    ensures match Resize(t, c, refcount)
            case None => true
            case Some((t', c')) => Kept(t, c, t', c')
  {
    var m := Links(refcount);
    hide Linked, IsChain, Shaped, Kept, ClearedFrom, InTable, ZeroOut, EndAt, Tail, Grow;
    if m < |c| {
      CutKeeps(t, c, m, refcount % SFS_ENTRYREFS);
    } else {
      GrownKeeps(t, c, m - (|c| - 1));
    }
  }

  /** Resizing clears the references of the last entry from the count on. */
  lemma ResizeClears(t: Table, c: seq<nat>, refcount: nat)
    requires Linked(t, c)
    ensures match Resize(t, c, refcount)
            case None => true
            case Some((t', c')) => LastCleared(t', c', refcount % SFS_ENTRYREFS)
  {
    hide Linked, IsChain, Shaped, ZeroOut, EndAt, Tail, ClearFrom, Grow, Zeros, Links, LastCleared;
    var m := Links(refcount);
    if m < |c| {
      CutClears(t, c, m, refcount % SFS_ENTRYREFS);
    } else {
      GrownClears(t, c, m - (|c| - 1), refcount % SFS_ENTRYREFS);
    }
  }

  lemma CutClears(t: Table, c: seq<nat>, m: nat, from: nat)
    requires Linked(t, c) && m < |c| && from < SFS_ENTRYREFS
    ensures LastCleared(ZeroOut(EndAt(t, c[m], from), Tail(c, m + 1)), c[..m + 1], from)
  {
    hide ZeroOut, EndAt, Tail, LinkedBack, LastCleared;
    CutFrame(t, c, m, from);
    LastIs(ZeroOut(EndAt(t, c[m], from), Tail(c, m + 1)), c[..m + 1], c[m], from);
  }

  lemma LastIs(t: Table, c: seq<nat>, last: nat, from: nat)
    requires |c| > 0 && c[|c| - 1] == last < |t| && ClearedFrom(t[last].refs, from)
    ensures LastCleared(t, c, from)
  {
  }

  lemma GrownClears(t: Table, c: seq<nat>, m: nat, from: nat)
    requires Linked(t, c) && m > 0
    ensures match Grow(t, c[|c| - 1], m)
            case None => true
            case Some((t', f)) => LastCleared(t', c + f, from)
  {
    hide LinkedBack;
    var last := c[|c| - 1];
    GrowFresh(t, last, m);
    if Grow(t, last, m).Some? {
      var (t', f) := Grow(t, last, m).value;
      assert FreshLink(t[last], Grow(t, last, m).value.0[f[|f| - 1]]);
      LastIs(t', c + f, f[|f| - 1], from);
    }
  }

  lemma CutKeeps(t: Table, c: seq<nat>, m: nat, from: nat)
    requires Linked(t, c) && m < |c| && from < SFS_ENTRYREFS
    ensures Kept(t, c, ZeroOut(EndAt(t, c[m], from), Tail(c, m + 1)), c[..m + 1])
  {
    CutFrame(t, c, m, from);
    assert forall k :: 0 <= k < |c[..m + 1]| ==> c[..m + 1][k] == c[k];
  }

  lemma GrownKeeps(t: Table, c: seq<nat>, m: nat)
    requires Linked(t, c) && m > 0
    ensures match Grow(t, c[|c| - 1], m)
            case None => true
            case Some((t', f)) => Kept(t, c, t', c + f)
  {
    hide Grow, EntryShaped, LinkedBack;
    var last := c[|c| - 1];
    GrowOthers(t, last, m);
    if Grow(t, last, m).Some? {
      var (t', f) := Grow(t, last, m).value;
      assert forall i :: i in f ==> i in c + f;
      assert forall j :: 0 <= j < |c| - 1 ==> c[j] != last && t'[c[j]] == t[c[j]];
    }
  }

  /** set_entry_size along a chain from position k on: each entry gets the size remaining
      at it, in 16 bits. */
  function SetSizes(t: Table, c: seq<nat>, k: nat, size: nat): (t': Table)
    requires forall j :: 0 <= j < |c| ==> c[j] < |t|
    requires k <= |c|
    ensures |t'| == |t|
    decreases |c| - k
  {
    if k == |c| then t else
    SetSizes(t[c[k] := t[c[k]].(size := size)], c, k + 1, SizeAfter(t[c[k]], size))
  }

  /** Size left for the next link, wrapping around in a 16-bit uint. */
  function SizeAfter(e: Entry, size: nat): nat {
    if e.file then Lo16(size - SFS_ENTRYREFS * BLOCK_SIZE)
    else if e.dir then Lo16(size - SFS_ENTRYREFS)
    else size
  }

  /** Only sizes change, and the head of the chain gets the whole size. */
  lemma {:induction false} SetSizesFrame(t: Table, c: seq<nat>, k: nat, size: nat)
    requires InTable(t, c) && k <= |c|
    ensures forall i :: 0 <= i < |t| ==> SetSizes(t, c, k, size)[i] == t[i].(size := SetSizes(t, c, k, size)[i].size)
    ensures forall i :: 0 <= i < |t| && i !in c[k..] ==> SetSizes(t, c, k, size)[i] == t[i]
    ensures Distinct(c) && k < |c| ==> SetSizes(t, c, k, size)[c[k]].size == size
    decreases |c| - k
  {
    if k < |c| {
      var t1 := t[c[k] := t[c[k]].(size := size)];
      SetSizesFrame(t1, c, k + 1, SizeAfter(t[c[k]], size));
      assert forall i :: i in c[k + 1..] ==> i in c[k..];
      assert Distinct(c) ==> c[k] !in c[k + 1..];
    }
  }

  /** set_entry_time_to_current along a chain from position k on. */
  function SetTimes(t: Table, c: seq<nat>, k: nat, time: nat): (t': Table)
    requires forall j :: 0 <= j < |c| ==> c[j] < |t|
    requires k <= |c|
    ensures |t'| == |t|
    decreases |c| - k
  {
    if k == |c| then t else
    SetTimes(t[c[k] := t[c[k]].(time := time)], c, k + 1, time)
  }

  /** Links that get_nref_entry_from_entry follows to find reference nref: it divides by the
      entry capacity until nothing is left, once for each link. */
  function Steps(nref: nat): nat {
    if nref / SFS_ENTRYREFS == 0 then 0 else 1 + Steps(nref / SFS_ENTRYREFS)
  }

  /** That is the entry holding the reference exactly for the first two entries of a chain. */
  lemma StepsRight(nref: nat)
    ensures Steps(nref) == nref / SFS_ENTRYREFS <==> nref < 2 * SFS_ENTRYREFS
  {
    StepsBound(nref / SFS_ENTRYREFS);
  }

  lemma {:induction false} StepsBound(q: nat)
    ensures Steps(q) <= q / SFS_ENTRYREFS
  {
    if q / SFS_ENTRYREFS > 0 {
      StepsBound(q / SFS_ENTRYREFS);
    }
  }

  function FreeEntries(t: Table): (s: set<nat>)
    ensures forall i: nat :: i in s <==> i < |t| && !Used(t[i])
  {
    set i: nat | i < |t| && !Used(t[i])
  }

  /** Growing fails exactly when there are too few free entries. */
  lemma {:induction false} GrowFails(t: Table, last: nat, m: nat)
    requires last < |t| && Used(t[last])
    ensures Grow(t, last, m).None? <==> |FreeEntries(t)| < m
    decreases m
  {
    if m > 0 {
      var f := FirstFree(t);
      if f == |t| {
        assert FreeEntries(t) == {};
      } else {
        var t1 := Append(t, last, f);
        GrowFails(t1, f, m - 1);
        assert FreeEntries(t1) == FreeEntries(t) - {f};
        assert |FreeEntries(t1)| == |FreeEntries(t)| - 1;
      }
    }
  }

  /** Resizing needs one free entry for each link it adds, and succeeds exactly then. */
  lemma ResizeSucceeds(t: Table, c: seq<nat>, refcount: nat)
    requires Linked(t, c)
    ensures Resize(t, c, refcount).Some? <==> 1 + Links(refcount) - |c| <= |FreeEntries(t)|
  {
    if Links(refcount) >= |c| {
      GrowFails(t, c[|c| - 1], Links(refcount) - (|c| - 1));
    }
  }

  /** The promise that unused references are 0 is kept for a shrunk chain exactly when the
      entry before the spare one was already clear past the count: with a count that does
      not fill that entry, only the spare entry is cleared. */
  lemma UnusedRefsCleared(t: Table, c: seq<nat>, refcount: nat)
    requires Linked(t, c) && refcount % SFS_ENTRYREFS != 0 && Links(refcount) < |c|
    ensures var (t', c') := Resize(t, c, refcount).value;
            ClearedFrom(t'[c'[|c'| - 2]].refs, refcount % SFS_ENTRYREFS) <==>
            ClearedFrom(t[c[Links(refcount) - 1]].refs, refcount % SFS_ENTRYREFS)
  {
  }
}
