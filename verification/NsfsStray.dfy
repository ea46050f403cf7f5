/** What a lookup can return besides an item of the directory: a spare link that has the name of
    its directory, or the root under its own name. Deleting or moving such an entry is no different
    to the code, and breaks the tree. */
module NsfsStray {
  import opened NsfsTypes
  import opened NsfsTree
  import opened NsfsFit
  import opened NsfsDir
  import opened NsfsSubtree
  import opened NsfsDelete
  import opened NsfsOps
  import opened NsfsState

  /** A head other than the root. */
  predicate Proper(t: Table, x: nat) {
    x != 0 && IsHead(t, x)
  }

  /** The spare link of d carries the looked up name: links have their head as parent. */
  predicate Shadowed(t: Table, d: nat, name: string)
    requires d < |t|
  {
    t[d].next != 0 && t[d].next < |t| && t[t[d].next].name == name
  }

  /** The name is not the root's own, and is not that of the link of the directory, or an item
      of that name comes before the link. */
  ghost predicate Clear(t: Table, p: nat, name: string) {
    && !(p == 0 && name == ROOT_DIR_NAME)
    && (p < |t| && Shadowed(t, p, name) ==> exists c: nat :: c < t[p].next && IsChild(t, c, p) && t[c].name == name)
  }

  /** A lookup returns an item exactly when the name is clear. */
  lemma ProperFound(t: Table, p: nat, name: string)
    requires TreeOk(t) && FindName(t, p, name) < |t|
    ensures Proper(t, FindName(t, p, name)) <==> Clear(t, p, name)
  {
    var x := FindName(t, p, name);
    assert EntryOk(t, x) && EntryOk(t, 0) && RootOk(t[0]) && Used(t[0]);
    assert p == 0 && name == ROOT_DIR_NAME ==> Matches(t[0], p, name) && x == 0;
    if x != 0 && IsSpare(t, x) {
      assert Shadowed(t, p, name) && t[p].next == x;
      forall c: nat | c < x && IsChild(t, c, p) ensures t[c].name != name {
        assert !Matches(t[c], p, name);
      }
    } else if x != 0 && Shadowed(t, p, name) {
      assert p < |t| && EntryOk(t, p);
      assert Matches(t[t[p].next], p, name);
      assert IsSpare(t, t[p].next) && x < t[p].next && IsChild(t, x, p);
    }
  }

  // ----- the entry that lists or precedes a found one

  /** remove_ref_in_entry is called on a head; what is not an item is in no list. */
  lemma ParentHead(t: Table, x: nat)
    requires TreeOk(t) && x < |t| && Used(t[x])
    ensures var h := t[x].parent;
            && IsHead(t, h) && EntryOk(t, h) && EntryOk(t, x)
            && (Proper(t, x) ==> t[h].dir && x in Items(t[h]))
            && (!Proper(t, x) && t[h].dir ==> x !in Items(t[h]))
  {
    assert EntryOk(t, x) && EntryOk(t, 0) && RootOk(t[0]);
    var h := t[x].parent;
    assert EntryOk(t, h);
    if Proper(t, x) {
      ParentLists(t, {}, x);
    } else if x == 0 {
      assert IsHead(t, 0);
      assert ListOk(t, {}, 0) && !IsChild(t, 0, 0);
    } else {
      assert t[h].next == x && SpareOk(t, h, x);
      LinkOfHead(t, h, x);
      if t[h].dir { assert ListOk(t, {}, h) && !IsChild(t, x, h); }
    }
  }

  /** A link has no link: its own next field is 0. */
  lemma LinkOfHead(t: Table, h: nat, x: nat)
    requires TreeOk(t) && h < |t| && x < |t| && x != 0 && Used(t[x]) && t[h].next == x && t[x].parent == h
    ensures IsHead(t, h)
  {
    assert EntryOk(t, h) && EntryOk(t, t[h].parent) && SpareOk(t, h, x);
  }

  // ----- deleting

  /** Nothing is left, not even the root. */
  ghost predicate Wiped(t: Table) {
    forall i :: 0 <= i < |t| ==> t[i] == Zero()
  }

  /** What delete_n leaves when it is called on the root or on a link: of the references of a
      directory's link, all 0, the first leads to the root. */
  ghost predicate StrayDeleted(t: Table, x: nat, t': Table) {
    && x < |t| && |t'| == |t|
    && if x == 0 || (t[x].dir && t[x].size != 0) then Wiped(t') else t' == t[x := Zero()]
  }

  lemma StrayDeletedBad(t: Table, x: nat, t': Table)
    requires TreeOk(t) && x < |t| && Used(t[x]) && !Proper(t, x) && StrayDeleted(t, x, t')
    ensures !TreeOk(t')
  {
    assert EntryOk(t, x);
    if !Wiped(t') {
      var h := t[x].parent;
      assert EntryOk(t, h) && SpareOk(t, h, x);
      assert !EntryOk(t', h);
    }
  }

  /** Table t is t0 with the first b items l of the root deleted. */
  ghost predicate Clearing(t0: Table, l: seq<nat>, b: nat, t: Table) {
    |t| == |t0| && Tree(t, {}) && Acyclic(t) && IsDir(t, 0) && b <= |l| && Items(t[0]) == l[b..]
  }

  lemma ClearStart(t: Table)
    requires TreeOk(t)
    ensures Clearing(t, Items(t[0]), 0, t)
    ensures |t[0].refs| == SFS_ENTRYREFS && t[0].size <= SFS_ENTRYREFS && Items(t[0]) == t[0].refs[..t[0].size]
    ensures t[0].dir && t[0].parent == 0 && t[0].next < |t|
  {
    assert EntryOk(t, 0) && RootOk(t[0]) && HeadOk(|t|, t[0]);
    RefCountBounds(t[0]);
  }

  lemma ClearStep(t0: Table, l: seq<nat>, b: nat, t: Table)
    requires Clearing(t0, l, b, t) && b < |l|
    ensures Tree(t, {}) && Deletable(t, {}, l[b])
    ensures match Deleted(t, {}, l[b])
            case None => true
            case Some(t') => Clearing(t0, l, b + 1, t')
  {
    var c := l[b];
    assert Items(t[0])[0] == c && c in Items(t[0]);
    assert EntryOk(t, 0) && ListOk(t, {}, 0) && IsChild(t, c, 0);
    DeletedTree(t, {}, c);
    if Deleted(t, {}, c).Some? {
      DirSized(t, 0, {});
      ParentLists(t, {}, c);
      var e, t1, t' := DropItem(t[0], c), Detached(t, 0, c).value, Deleted(t, {}, c).value;
      RootAbove(t, c);
      DropItemItems(t[0], c);
      FitRespares(t, 0, e, {});
      RefCountBounds(e);
      assert Find(Items(t[0]), c) == 0 && Items(e) == l[b + 1..];
      assert t'[0] == t1[0] == e.(next := t1[0].next);
      assert IsHead(t', 0) by { assert EntryOk(t', 0); }
    }
  }

  /** Every entry in use is below the root. */
  lemma {:induction false} AllBelowRoot(t: Table, i: nat)
    requires Tree(t, {}) && Acyclic(t) && i < |t| && Used(t[i])
    ensures Under(t, i, 0)
    decreases DepthOf(t)[i]
  {
    if i != 0 {
      assert EntryOk(t, i) && EntryOk(t, t[i].parent);
      AllBelowRoot(t, t[i].parent);
    }
  }

  /** A root without items has no link either. */
  lemma RootChildless(t: Table, c: nat)
    requires Tree(t, {}) && Items(t[0]) == [] && t[0].size == 0 && 0 < c < |t| && Used(t[c])
    ensures t[c].parent != 0
  {
    assert EntryOk(t, c) && EntryOk(t, 0) && ListOk(t, {}, 0);
    assert IsHead(t, 0);
    assert IsHead(t, c) && t[c].parent == 0 ==> IsChild(t, c, 0);
  }

  /** With the last item of the root everything else is gone, the link of the root included. */
  lemma ClearEnd(t0: Table, l: seq<nat>, t: Table)
    requires Clearing(t0, l, |l|, t)
    ensures t[0].size == 0 && |t[0].refs| == SFS_ENTRYREFS && Wiped(t[0 := Zero()])
  {
    DirSized(t, 0, {});
    assert Items(t[0]) == t[0].refs[..t[0].size];
    forall i: nat | 0 < i < |t| ensures t[i] == Zero() {
      assert EntryOk(t, i);
      if Used(t[i]) {
        AllBelowRoot(t, i);
        var c := UnderVia(t, i, 0);
        RootChildless(t, c);
      }
    }
  }

  // ----- delete_n, whatever it is called on

  /** What delete_n is called on: an item of a directory or the link of a file, while the
      heads in det are in no list; the root; the link of a directory; or an entry that is
      zeroed already. */
  datatype Kind = Listed(det: set<nat>) | Top | Chained | Blank

  ghost predicate CanDelete(t: Table, k: Kind, n: nat) {
    match k
    case Listed(det) => Tree(t, det) && n !in det && (Deletable(t, det, n) || Loose(t, n))
    case Top => TreeOk(t) && n == 0
    case Chained => TreeOk(t) && IsSpare(t, n) && t[n].dir
    case Blank => n < |t| <= MAX_ENTRIES && t[n] == Zero() && t[0].size == 0 && |t[0].refs| == SFS_ENTRYREFS
  }

  /** The table t' that delete_n leaves. */
  ghost predicate Erased(t: Table, k: Kind, n: nat, t': Table) {
    match k
    case Listed(det) => (Deletable(t, det, n) || Loose(t, n)) && DeleteGoal(t, det, n) == Some(t')
    case Top => |t'| == |t| && Wiped(t')
    case Chained => StrayDeleted(t, n, t')
    case Blank => t' == t
  }

  /** remove_ref_in_entry finds a head, or an entry without references. */
  ghost predicate Removable(t: Table, det: set<nat>, d: nat, ref: nat) {
    || (Tree(t, det) && IsHead(t, d) && (t[d].file ==> ref < |t|))
    || (d < |t| <= MAX_ENTRIES && t[d].size == 0 && |t[d].refs| == SFS_ENTRYREFS)
  }

  ghost function Unlisted(k: Kind): set<nat> {
    match k
    case Listed(det) => det
    case _ => {}
  }

  /** delete_n on an entry of one kind calls itself on kinds of lower rank, or on entries below
      one more that is in no list. */
  ghost function Rank(k: Kind): nat {
    match k
    case Blank => 0
    case Listed(_) => 1
    case Top => 2
    case Chained => 3
  }

  ghost function Indexes(n: nat): (s: set<nat>)
    ensures forall i: nat :: i in s <==> i < n
  {
    if n == 0 then {} else Indexes(n - 1) + {n - 1}
  }

  lemma DeleteReady(t: Table, k: Kind, n: nat)
    requires CanDelete(t, k, n)
    ensures n < |t| <= MAX_ENTRIES && |t[n].refs| == SFS_ENTRYREFS && Removable(t, Unlisted(k), t[n].parent, n)
  {
    match k
    case Listed(det) =>
      if Loose(t, n) {
        StartLoose(t, det, n);
      } else {
        StartHead(t, det, n);
      }
    case Blank =>
    case _ =>
      assert EntryOk(t, n);
      ParentHead(t, n);
  }

  /** The reference to n is out of its parent's list, which made table t of t0. */
  ghost predicate Underway(t0: Table, k: Kind, n: nat, entry: Entry, t: Table) {
    match k
    case Listed(det) =>
      && (Deletable(t0, det, n) || Loose(t0, n)) && DeleteGoal(t0, det, n).Some?
      && Started(DeleteGoal(t0, det, n).value, det + {n}, n, entry, t)
    case _ => CanDelete(t0, k, n) && n < |t0| && t == t0 && entry == t0[n]
  }

  lemma DeleteStarts(t0: Table, k: Kind, n: nat, t: Table)
    requires CanDelete(t0, k, n) && n < |t0| && RefOut(t0, t0[n].parent, n, t)
    ensures Underway(t0, k, n, t0[n], t)
  {
    match k
    case Listed(det) =>
      if Loose(t0, n) {
        StartLoose(t0, det, n);
      } else {
        StartHead(t0, det, n);
      }
    case Blank =>
    case _ =>
      ParentHead(t0, n);
      assert !Proper(t0, n);
  }

  // ----- the items, one after the other

  /** Table t is t1 after the first b of the items l of n. */
  ghost predicate Emptied(t1: Table, k: Kind, n: nat, l: seq<nat>, b: nat, t: Table) {
    match k
    case Listed(det) => Emptying(t1, det + {n}, n, l, b, t)
    case Top => n == 0 && Clearing(t1, l, b, t)
    case Chained => && CanDelete(t1, Chained, n) && l == Items(t1[n]) && |t| == |t1|
                 && b <= |l| && if b == 0 then t == t1 else Wiped(t)
    case Blank => false
  }

  ghost function ItemKind(k: Kind, n: nat, b: nat): Kind {
    match k
    case Listed(det) => Listed(det + {n})
    case Top => Listed({})
    case _ => if b == 0 then Top else Blank
  }

  lemma ItemsStart(t0: Table, k: Kind, n: nat, entry: Entry, t: Table)
    requires Underway(t0, k, n, entry, t) && entry.dir
    ensures n < |t| <= MAX_ENTRIES && entry == t[n] && |entry.refs| == SFS_ENTRYREFS
    ensures Items(entry) == entry.refs[..Min(entry.size, SFS_ENTRYREFS)]
    ensures Emptied(t, k, n, Items(entry), 0, t)
  {
    match k
    case Listed(det) =>
      assert EntryOk(t, n);
      EmptyStart(t, det + {n}, n, Items(entry));
    case Top => ClearStart(t);
    case Chained => assert EntryOk(t, n);
    case Blank =>
  }

  lemma ItemReady(t1: Table, k: Kind, n: nat, l: seq<nat>, b: nat, t: Table)
    requires Emptied(t1, k, n, l, b, t) && b < |l|
    ensures CanDelete(t, ItemKind(k, n, b), l[b])
  {
    match k
    case Listed(det) =>
      EmptyStep(t1, det + {n}, n, l, b, t);
      ItemsBelow(t1, det + {n}, n, l, b);
    case Top =>
      ClearStep(t1, l, b, t);
    case Chained =>
      assert EntryOk(t1, t1[n].parent) && SpareOk(t1, t1[n].parent, n);
    case Blank =>
  }

  lemma ItemErased(t1: Table, k: Kind, n: nat, l: seq<nat>, b: nat, t: Table, t': Table)
    requires Emptied(t1, k, n, l, b, t) && b < |l| && Erased(t, ItemKind(k, n, b), l[b], t')
    ensures Emptied(t1, k, n, l, b + 1, t')
  {
    match k
    case Listed(det) => EmptyStep(t1, det + {n}, n, l, b, t);
    case Top => ClearStep(t1, l, b, t);
    case _ =>
  }

  // ----- the link, and the entry itself

  /** What delete_n started on t0 has left to do: erase the link next of n, and n. */
  ghost predicate Closing(t0: Table, k: Kind, n: nat, next: nat, t: Table) {
    match k
    case Listed(det) =>
      && (Deletable(t0, det, n) || Loose(t0, n)) && DeleteGoal(t0, det, n).Some?
      && Finishing(DeleteGoal(t0, det, n).value, det + {n}, n, next, t)
    case Top => && n == 0 && 0 < |t0| == |t| <= MAX_ENTRIES && t[0].size == 0 && |t[0].refs| == SFS_ENTRYREFS
                 && next < |t| && Wiped(t[0 := Zero()])
    case Chained => && next == 0 && n < |t0| == |t| && n != 0
                 && if t0[n].dir && t0[n].size != 0 then Wiped(t) else t == t0
    case Blank => CanDelete(t0, Blank, n) && t == t0 && next == 0
  }

  lemma ItemsEnd(t0: Table, k: Kind, n: nat, entry: Entry, t1: Table, t: Table)
    requires Underway(t0, k, n, entry, t1) && entry.dir && Emptied(t1, k, n, Items(entry), |Items(entry)|, t)
    ensures Closing(t0, k, n, entry.next, t)
  {
    match k
    case Listed(det) => FinishingDir(t1, det + {n}, n, Items(entry), t);
    case Top =>
      ClearStart(t0);
      ClearEnd(t0, Items(entry), t);
    case Chained =>
      assert EntryOk(t0, t0[n].parent) && SpareOk(t0, t0[n].parent, n);
      assert EntryOk(t0, n);
    case Blank =>
  }

  lemma NoItems(t0: Table, k: Kind, n: nat, entry: Entry, t: Table)
    requires Underway(t0, k, n, entry, t) && !entry.dir
    ensures Closing(t0, k, n, entry.next, t)
  {
  }

  ghost function NextKind(k: Kind, n: nat): Kind {
    match k
    case Listed(det) => Listed(det + {n})
    case _ => Blank
  }

  lemma NextBelow(k: Kind, n: nat, b: nat, m: nat)
    ensures k.Listed? ==> Indexes(m) - Unlisted(NextKind(k, n)) == Indexes(m) - Unlisted(k) - {n}
    ensures k.Listed? ==> ItemKind(k, n, b) == NextKind(k, n)
    ensures k.Top? || k.Chained? ==> Rank(ItemKind(k, n, b)) < Rank(k) && Rank(NextKind(k, n)) < Rank(k)
  {
  }

  lemma LinkReady(t0: Table, k: Kind, n: nat, next: nat, t: Table)
    requires Closing(t0, k, n, next, t) && next != 0
    ensures CanDelete(t, NextKind(k, n), next)
  {
    assert k.Top? ==> t[0 := Zero()][next] == t[next];
  }

  lemma LinkErased(t0: Table, k: Kind, n: nat, next: nat, t: Table, t': Table)
    requires Closing(t0, k, n, next, t) && next != 0 && Erased(t, NextKind(k, n), next, t')
    ensures n < |t'| && Erased(t0, k, n, t'[n := Zero()])
  {
  }

  lemma NoLink(t0: Table, k: Kind, n: nat, t: Table)
    requires Closing(t0, k, n, 0, t)
    ensures n < |t| && Erased(t0, k, n, t[n := Zero()])
  {
  }

  // ----- deleting the entry that a lookup returned

  ghost predicate DeleteLeaves(t: Table, x: nat, t': Table) {
    if Proper(t, x) then Deletable(t, {}, x) && Deleted(t, {}, x) == Some(t') else StrayDeleted(t, x, t')
  }

  function KindOf(t: Table, x: nat): Kind
    requires x < |t|
  {
    if x == 0 then Top else if IsHead(t, x) || t[x].file then Listed({}) else Chained
  }

  lemma FoundKind(t: Table, x: nat)
    requires TreeOk(t) && x < |t| && Used(t[x])
    ensures CanDelete(t, KindOf(t, x), x)
    ensures Proper(t, x) ==> Deletable(t, {}, x)
  {
    assert EntryOk(t, x);
  }

  lemma FoundErased(t: Table, x: nat, t': Table)
    requires TreeOk(t) && x < |t| && Used(t[x]) && Erased(t, KindOf(t, x), x, t')
    ensures DeleteLeaves(t, x, t')
  {
    assert EntryOk(t, x);
  }
}
