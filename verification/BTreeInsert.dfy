/**
 Insertion with page splitting (mdb_cursor_put for a new key, mdb_page_split): a full page is cut
 in two, the separator goes to the parent, which may be full in turn, up to a new root.
 */
module BTreeInsert {
  import opened BTree
  import opened PageSplit
  import SlottedPage

  const MAXKEYSIZE: nat := 511
  const NOKEY := Key(0, 0)

  /** Node, padding and slot of a leaf entry; large data lives on overflow pages. */
  function LeafRoom(e: Entry, psize: nat): nat {
    var sz := 8 + e.key.len + e.dsize;
    SlottedPage.Even(if sz > SlottedPage.NodeMax(psize) then 8 + e.key.len + 8 else sz) + 2
  }

  function BranchRoom(k: Key): nat {
    SlottedPage.Even(8 + k.len) + 2
  }

  function LeafRooms(es: seq<Entry>, psize: nat): (r: seq<nat>)
    ensures |r| == |es| && forall i :: 0 <= i < |es| ==> r[i] == LeafRoom(es[i], psize)
  {
    seq(|es|, i requires 0 <= i < |es| => LeafRoom(es[i], psize))
  }

  function BranchRooms(ks: seq<Key>): (r: seq<nat>)
    ensures |r| == |ks| && forall i :: 0 <= i < |ks| ==> r[i] == BranchRoom(ks[i])
  {
    seq(|ks|, i requires 0 <= i < |ks| => BranchRoom(ks[i]))
  }

  /** Space for slots and nodes in a page. */
  function PageMax(psize: nat): int {
    psize - SlottedPage.HEADER
  }

  /** Every page is within its limit and every key within the key size limit. */
  ghost predicate Fits(t: Tree, psize: nat) {
    match t
    case Leaf(es) =>
      Sum(LeafRooms(es, psize)) <= PageMax(psize) && ShortKeys(es)
    case Branch(keys, kids) =>
      && Sum(BranchRooms(keys)) <= PageMax(psize) && (forall i :: 0 <= i < |keys| ==> keys[i].len <= MAXKEYSIZE)
      && forall i :: 0 <= i < |kids| ==> Fits(kids[i], psize)
  }

  /** A page size the operating system uses. */
  predicate PageSize(psize: nat) {
    4096 <= psize < 0x1_0000 && psize % 2 == 0
  }

  lemma RoomLimits(psize: nat)
    requires PageSize(psize)
    ensures forall e: Entry :: e.key.len <= MAXKEYSIZE ==> LeafRoom(e, psize) <= PageMax(psize) / 2
    ensures forall k: Key :: k.len <= MAXKEYSIZE ==> BranchRoom(k) <= PageMax(psize) / 4
  {
  }

  // ----- the map after insertion -------------------------------------------------------------

  /** The number of entries below k, for sorted entries. */
  ghost function Place(es: seq<Entry>, k: int): nat {
    if es == [] || k <= es[0].key.rank then 0 else 1 + Place(es[1..], k)
  }

  lemma {:induction false} PlaceIsRank(es: seq<Entry>, k: int)
    requires Sorted(es)
    ensures IsRank(es, k, Place(es, k))
  {
    if es != [] && es[0].key.rank < k {
      PlaceIsRank(es[1..], k);
      assert forall i :: 1 <= i < |es| ==> es[i] == es[1..][i - 1];
    }
  }

  ghost function Inserted(es: seq<Entry>, e: Entry): seq<Entry> {
    var r := Place(es, e.key.rank);
    if r <= |es| then es[..r] + [e] + es[r..] else es
  }

  ghost predicate Absent(es: seq<Entry>, k: int) {
    forall i :: 0 <= i < |es| ==> es[i].key.rank != k
  }

  /** The old entries and the new one. */
  lemma InsertedIs(es: seq<Entry>, e: Entry)
    requires Sorted(es)
    ensures multiset(Inserted(es, e)) == multiset(es) + multiset{e}
  {
    PlaceIsRank(es, e.key.rank);
    var r := Place(es, e.key.rank);
    assert es == es[..r] + es[r..];
  }

  /** Inserted at the rank. */
  lemma InsertedAt(es: seq<Entry>, e: Entry, r: nat)
    requires Sorted(es) && IsRank(es, e.key.rank, r)
    ensures Inserted(es, e) == es[..r] + [e] + es[r..]
  {
    PlaceIsRank(es, e.key.rank);
    SameRank(es, e.key.rank, r, Place(es, e.key.rank));
  }

  lemma SameRank(es: seq<Entry>, k: int, r: nat, q: nat)
    requires IsRank(es, k, r) && IsRank(es, k, q)
    ensures r == q
  {
    assert r < |es| ==> k <= es[r].key.rank;
    assert q < |es| ==> k <= es[q].key.rank;
  }

  lemma InsertedSorted(es: seq<Entry>, e: Entry)
    requires Sorted(es) && Absent(es, e.key.rank)
    ensures Sorted(Inserted(es, e)) && Inserted(es, e) != [] && |Inserted(es, e)| == |es| + 1
  {
    PlaceIsRank(es, e.key.rank);
  }

  /** Inserting into the middle part, when the key belongs there. */
  lemma InsertedInside(a: seq<Entry>, b: seq<Entry>, c: seq<Entry>, e: Entry)
    requires Sorted(a + b + c) && AllBelow(a, e.key.rank) && AllAbove(c, e.key.rank)
    ensures Inserted(a + b + c, e) == a + Inserted(b, e) + c
  {
    hide Sorted, AllBelow, AllAbove, Inserted, IsRank, Place;
    SortedPart(a, b, c);
    PlaceIsRank(b, e.key.rank);
    var r := Place(b, e.key.rank);
    RankParts(a, b, c, e.key.rank, r);
    RankWithin(b, e.key.rank, r);
    InsertedAt(a + b + c, e, |a| + r);
    InsertedAt(b, e, r);
    SliceInside(a, b, c, e, r);
  }

  lemma RankWithin(es: seq<Entry>, k: int, r: nat)
    requires IsRank(es, k, r)
    ensures r <= |es|
  {
  }

  lemma SliceInside(a: seq<Entry>, b: seq<Entry>, c: seq<Entry>, e: Entry, r: nat)
    requires r <= |b|
    ensures var s := a + b + c; s[..|a| + r] + [e] + s[|a| + r..] == a + (b[..r] + [e] + b[r..]) + c
  {
    var s := a + b + c;
    assert s[..|a| + r] == a + b[..r] && s[|a| + r..] == b[r..] + c;
  }

  datatype Outcome = Fail | Grown(t: Tree) | Split(left: Tree, sep: Key, right: Tree)

  // ----- when a cut does not fit ------------------------------------------------------------------

  /** What a page of the descent hands to its parent: nothing, a separator, or a failure. */
  datatype Climb = Stays | Rises(sep: Key) | Stuck

  ghost function ClimbOf(o: Outcome): Climb {
    match o case Fail => Stuck case Grown(_) => Stays case Split(_, sep, _) => Rises(sep)
  }

  /** The page is too full for its new node, the sizes are not looked at, and a half does not fit. */
  ghost predicate LeafStuck(all: seq<Entry>, i: nat, psize: nat)
    requires i < |all|
  {
    var rooms, pmax := LeafRooms(all, psize), PageMax(psize);
    Sum(rooms) > pmax >= 0 && !Checked(rooms, i, pmax) && !Halves(rooms, |all| / 2, pmax)
  }

  /** The same for a branch page, whose right part drops its first key. */
  ghost predicate BranchStuck(ks: seq<Key>, i: nat, psize: nat)
    requires 1 <= i < |ks|
  {
    var rooms, pmax, mid := BranchRooms(ks), PageMax(psize), |ks| / 2;
    && Sum(rooms) > pmax >= 0 && !Checked(rooms, i, pmax)
    && (Sum(BranchRooms(ks[..mid])) > pmax || Sum(BranchRooms([NOKEY] + ks[mid + 1..])) > pmax)
  }

  ghost function LeafCutAt(all: seq<Entry>, i: nat, psize: nat): (s: nat)
    requires i < |all|
    ensures s < |all|
  {
    var rooms, pmax := LeafRooms(all, psize), PageMax(psize);
    if pmax >= 0 && |all| >= 3 && CutAt(rooms, i, pmax) < |all| then CutAt(rooms, i, pmax) else 0
  }

  ghost function BranchCutAt(ks: seq<Key>, i: nat, psize: nat): (s: nat)
    requires i < |ks|
    ensures s < |ks|
  {
    var rooms, pmax := BranchRooms(ks), PageMax(psize);
    if pmax >= 0 && |ks| >= 3 && CutAt(rooms, i, pmax) < |ks| then CutAt(rooms, i, pmax) else 0
  }

  ghost function LeafClimb(all: seq<Entry>, i: nat, psize: nat): Climb
    requires i < |all|
  {
    var rooms, pmax := LeafRooms(all, psize), PageMax(psize);
    if Sum(rooms) <= pmax then Stays
    else if LeafStuck(all, i, psize) then Stuck
    else Rises(all[LeafCutAt(all, i, psize)].key)
  }

  ghost function BranchClimb(ks: seq<Key>, i: nat, psize: nat): Climb
    requires 1 <= i < |ks|
  {
    var rooms, pmax := BranchRooms(ks), PageMax(psize);
    if Sum(rooms) <= pmax then Stays
    else if BranchStuck(ks, i, psize) then Stuck
    else Rises(ks[BranchCutAt(ks, i, psize)])
  }

  /** The subtree a search enters. */
  function ChildOf(keys: seq<Key>, k: int): (i: nat)
    ensures keys != [] ==> i < |keys|
  {
    if |keys| <= 1 || keys[|keys| - 1].rank <= k then (if keys == [] then 0 else |keys| - 1)
    else ChildOf(keys[..|keys| - 1], k)
  }

  /** From the leaf up: a page gets a node only if the page below it on the way of the descent was cut. */
  ghost function Climbs(t: Tree, e: Entry, psize: nat): Climb {
    match t
    case Leaf(es) =>
      var all, i := Inserted(es, e), Place(es, e.key.rank);
      if i < |all| then LeafClimb(all, i, psize) else Stays
    case Branch(keys, kids) =>
      var i := ChildOf(keys, e.key.rank);
      if i >= |keys| || i >= |kids| then Stays else
      var c := Climbs(kids[i], e, psize);
      if c.Rises? then BranchClimb(keys[..i + 1] + [c.sep] + keys[i + 1..], i + 1, psize) else c
  }

  /** A leaf with its new entry, whole or cut. */
  ghost function LeafAfter(all: seq<Entry>, i: nat, psize: nat): Outcome
    requires i < |all|
  {
    var c := LeafClimb(all, i, psize);
    if c.Stays? then Grown(Leaf(all)) else if c.Stuck? then Fail else
      var s := LeafCutAt(all, i, psize);
      Split(Leaf(all[..s]), c.sep, Leaf(all[s..]))
  }

  /** A branch page with its new child, whole or cut. */
  ghost function BranchAfter(ks: seq<Key>, ts: seq<Tree>, i: nat, psize: nat): Outcome
    requires 1 <= i < |ks| == |ts|
  {
    var c := BranchClimb(ks, i, psize);
    if c.Stays? then Grown(Branch(ks, ts)) else if c.Stuck? then Fail else
      var s := BranchCutAt(ks, i, psize);
      Split(LeftPart(ks, ts, s), c.sep, RightPart(ks, ts, s))
  }

  /** What an insertion below t makes of it. */
  ghost function After(t: Tree, e: Entry, psize: nat): Outcome {
    match t
    case Leaf(es) =>
      var all, i := Inserted(es, e), Place(es, e.key.rank);
      if i < |all| then LeafAfter(all, i, psize) else Grown(t)
    case Branch(keys, kids) =>
      var i := ChildOf(keys, e.key.rank);
      if i >= |keys| || |keys| != |kids| then Grown(t) else
      Above(keys, kids, i, After(kids[i], e, psize), psize)
  }

  /** A branch page after its subtree i. */
  ghost function Above(keys: seq<Key>, kids: seq<Tree>, i: nat, sub: Outcome, psize: nat): Outcome
    requires i < |keys| == |kids|
  {
    match sub
    case Fail => Fail
    case Grown(m) => Grown(Branch(keys, Replaced(kids, i, [m])))
    case Split(l, sep, r) => BranchAfter(keys[..i + 1] + [sep] + keys[i + 1..], Replaced(kids, i, [l, r]), i + 1, psize)
  }

  /** The sizes on the descent say what goes up. */
  lemma {:induction false} AfterClimbs(t: Tree, e: Entry, psize: nat)
    requires Shape(t)
    ensures ClimbOf(After(t, e, psize)) == Climbs(t, e, psize)
  {
    hide Inserted, Place, LeafClimb, BranchClimb, Separates;
    match t
    case Leaf(_) =>
    case Branch(keys, kids) =>
      var i := ChildOf(keys, e.key.rank);
      AfterClimbs(kids[i], e, psize);
  }

  /** A new root over the two parts of a cut one. */
  ghost function Rooted(o: Outcome): Outcome {
    if o.Split? then Grown(Branch([NOKEY, o.sep], [o.left, o.right])) else o
  }

  /** The number of pages cut on the way up. */
  ghost function Cuts(t: Tree, e: Entry, psize: nat): nat {
    (if Climbs(t, e, psize).Rises? then 1 else 0) +
    match t
    case Leaf(_) => 0
    case Branch(keys, kids) =>
      var i := ChildOf(keys, e.key.rank);
      if i < |keys| && i < |kids| then Cuts(kids[i], e, psize) else 0
  }

  /** The pages an insertion adds: a right part for each page cut, and a root over a cut one. */
  ghost function NewPages(t: Tree, e: Entry, psize: nat): nat {
    Cuts(t, e, psize) + if Climbs(t, e, psize).Rises? then 1 else 0
  }

  /** The pages cut are those of the lowest levels. */
  lemma {:induction false} CutLevels(t: Tree, e: Entry, psize: nat)
    requires Shape(t)
    ensures if Climbs(t, e, psize).Rises? then Cuts(t, e, psize) == Height(t) + 1 else Cuts(t, e, psize) <= Height(t)
  {
    hide Inserted, Place, LeafClimb, BranchClimb, Separates;
    match t
    case Leaf(_) =>
    case Branch(keys, kids) =>
      CutLevels(kids[ChildOf(keys, e.key.rank)], e, psize);
  }

  /** Some page on the way from the leaf up gets a node and is stuck with it. */
  ghost predicate Overflows(t: Tree, e: Entry, psize: nat) {
    Climbs(t, e, psize) == Stuck
  }

  /** No page has twenty keys: every split looks at the sizes. */
  ghost predicate FewKeys(t: Tree) {
    NumKeys(t) < 20 && (t.Branch? ==> forall i :: 0 <= i < |t.kids| ==> FewKeys(t.kids[i]))
  }

  lemma {:induction false} FewKeysFit(t: Tree, e: Entry, psize: nat)
    requires FewKeys(t)
    ensures !Overflows(t, e, psize)
  {
    hide Inserted, Place;
    match t
    case Leaf(es) => AtMostOneMore(es, e);
    case Branch(keys, kids) =>
      var i := ChildOf(keys, e.key.rank);
      if i < |keys| && i < |kids| { FewKeysFit(kids[i], e, psize); }
  }

  lemma AtMostOneMore(es: seq<Entry>, e: Entry)
    ensures |Inserted(es, e)| <= |es| + 1
  {
  }

  lemma {:induction false} ChildIsEntered(keys: seq<Key>, k: int, i: nat)
    requires i < |keys| && (i > 0 ==> keys[i].rank <= k) && (i + 1 < |keys| ==> k < keys[i + 1].rank)
    requires forall a, b :: 1 <= a < b < |keys| ==> keys[a].rank < keys[b].rank
    ensures ChildOf(keys, k) == i
  {
    var n := |keys| - 1;
    if i < n {
      assert i + 1 < n ==> keys[i + 1].rank < keys[n].rank;
      ChildIsEntered(keys[..n], k, i);
    }
  }

  ghost predicate Sound(t: Tree, h: nat, psize: nat) {
    Shape(t) && Height(t) == h && Fits(t, psize)
  }

  /** One page, or two with a separator, that hold exactly the entries all. */
  ghost predicate Gives(o: Outcome, all: seq<Entry>, h: nat, psize: nat) {
    match o
    case Fail => true
    case Grown(t) => Sound(t, h, psize) && Entries(t) == all
    case Split(l, sep, r) =>
      && Sound(l, h, psize) && Sound(r, h, psize) && Entries(l) + Entries(r) == all
      && Separates(sep, l, r) && sep.len <= MAXKEYSIZE
  }

  // ----- leaf pages ------------------------------------------------------------------------------

  lemma SumInsert(s: seq<nat>, i: nat, x: nat)
    requires i <= |s|
    ensures Sum(s[..i] + [x] + s[i..]) == Sum(s) + x
  {
    SumSplit(s, i);
    SumJoin(s[..i] + [x], s[i..]);
    SumJoin(s[..i], [x]);
    assert [x][..0] == [];
  }

  method InsertLeaf(es: seq<Entry>, e: Entry, psize: nat) returns (o: Outcome)
    requires PageSize(psize) && es != [] && Sorted(es) && Absent(es, e.key.rank)
    requires Fits(Leaf(es), psize) && e.key.len <= MAXKEYSIZE
    ensures Gives(o, Inserted(es, e), 0, psize) && ClimbOf(o) == Climbs(Leaf(es), e, psize)
    ensures o == After(Leaf(es), e, psize)
  {
    hide Sum, LeafRooms, Gives, Inserted, Sorted;
    var i := LeafPlace(es, e);
    var all := es[..i] + [e] + es[i..];
    LeafRoomsInsert(es, e, i, psize);
    KeysWithin(es, e, i);
    if Sum(LeafRooms(es, psize)) + LeafRoom(e, psize) <= PageMax(psize) {
      GrownLeaf(all, psize);
      return Grown(Leaf(all));
    }
    o := CutLeaf(i, all, psize);
  }

  method LeafPlace(es: seq<Entry>, e: Entry) returns (i: nat)
    requires Sorted(es) && Absent(es, e.key.rank)
    ensures i <= |es| && i == Place(es, e.key.rank) && Inserted(es, e) == es[..i] + [e] + es[i..]
    ensures Sorted(Inserted(es, e))
  {
    var exact;
    i, exact := NodeSearch(Leaf(es), e.key.rank);
    LeafRank(es, e.key.rank, i);
    InsertedAt(es, e, i);
    PlaceIsRank(es, e.key.rank);
    SameRank(es, e.key.rank, i, Place(es, e.key.rank));
    InsertedSorted(es, e);
  }

  ghost predicate ShortKeys(es: seq<Entry>) {
    forall i :: 0 <= i < |es| ==> es[i].key.len <= MAXKEYSIZE
  }

  lemma KeysWithin(es: seq<Entry>, e: Entry, i: nat)
    requires ShortKeys(es) && e.key.len <= MAXKEYSIZE && i <= |es|
    ensures ShortKeys(es[..i] + [e] + es[i..])
  {
  }

  lemma GrownLeaf(all: seq<Entry>, psize: nat)
    requires all != [] && ShortKeys(all) && Sum(LeafRooms(all, psize)) <= PageMax(psize)
    ensures Gives(Grown(Leaf(all)), all, 0, psize)
  {
  }

  /** Cut the leaf; the separator is the first key of the right part.  The cut fails exactly when
      the sizes are not looked at and a half of the cut in the middle does not fit. */
  method CutLeaf(i: nat, all: seq<Entry>, psize: nat) returns (o: Outcome)
    requires PageSize(psize) && i < |all| && Sorted(all) && ShortKeys(all)
    requires Sum(LeafRooms(all, psize)) > PageMax(psize)
    requires Sum(LeafRooms(all, psize)) - LeafRooms(all, psize)[i] <= PageMax(psize)
    ensures Gives(o, all, 0, psize) && (o == Fail <==> LeafStuck(all, i, psize))
    ensures ClimbOf(o) == LeafClimb(all, i, psize) && o == LeafAfter(all, i, psize)
  {
    hide Sum, Gives, LeafRoom;
    var rooms, pmax := LeafRooms(all, psize), PageMax(psize);
    RoomLimits(psize);
    assert Splittable(rooms, i, pmax);
    var s := SplitPoint(rooms, i, pmax);
    if Sum(rooms[..s]) > pmax || Sum(rooms[s..]) > pmax {
      FailGives(all, 0, psize);
      return Fail;
    }
    SplitLeaf(all, s, psize);
    return Split(Leaf(all[..s]), all[s].key, Leaf(all[s..]));
  }

  lemma FailGives(all: seq<Entry>, h: nat, psize: nat)
    ensures Gives(Fail, all, h, psize)
  {
  }

  lemma SplitLeaf(all: seq<Entry>, s: nat, psize: nat)
    requires Sorted(all) && ShortKeys(all) && 1 <= s < |all|
    requires Sum(LeafRooms(all, psize)[..s]) <= PageMax(psize) && Sum(LeafRooms(all, psize)[s..]) <= PageMax(psize)
    ensures Gives(Split(Leaf(all[..s]), all[s].key, Leaf(all[s..])), all, 0, psize)
  {
    hide Sum, LeafRooms;
    LeafCut(all, s, psize);
  }

  lemma LeafRank(es: seq<Entry>, k: int, i: nat)
    requires i <= |es| && (forall j :: 0 <= j < i ==> KeyAt(Leaf(es), j).rank < k)
    requires forall j :: i <= j < |es| ==> k <= KeyAt(Leaf(es), j).rank
    ensures IsRank(es, k, i)
  {
    forall j | 0 <= j < i ensures es[j].key.rank < k { assert KeyAt(Leaf(es), j).rank < k; }
    forall j | i <= j < |es| ensures k <= es[j].key.rank { assert k <= KeyAt(Leaf(es), j).rank; }
  }

  lemma LeafRoomsInsert(es: seq<Entry>, e: Entry, i: nat, psize: nat)
    requires i <= |es|
    ensures var rooms := LeafRooms(es[..i] + [e] + es[i..], psize);
      Sum(rooms) == Sum(LeafRooms(es, psize)) + LeafRoom(e, psize) && rooms[i] == LeafRoom(e, psize)
  {
    var r := LeafRooms(es, psize);
    SumInsert(r, i, LeafRoom(e, psize));
    assert LeafRooms(es[..i] + [e] + es[i..], psize) == r[..i] + [LeafRoom(e, psize)] + r[i..];
  }

  lemma LeafCut(all: seq<Entry>, s: nat, psize: nat)
    requires Sorted(all) && 1 <= s < |all|
    ensures LeafRooms(all[..s], psize) == LeafRooms(all, psize)[..s]
    ensures LeafRooms(all[s..], psize) == LeafRooms(all, psize)[s..]
    ensures Separates(all[s].key, Leaf(all[..s]), Leaf(all[s..])) && all[..s] + all[s..] == all
  {
  }

  // ----- branch pages ----------------------------------------------------------------------------

  /** Subtrees of one height with separators between neighbours. */
  ghost predicate Chain(keys: seq<Key>, kids: seq<Tree>, h: nat) {
    && |keys| == |kids|
    && (forall i :: 0 <= i < |kids| ==> Shape(kids[i]) && Height(kids[i]) == h)
    && (forall i :: 1 <= i < |kids| ==> Separates(keys[i], kids[i - 1], kids[i]))
  }

  lemma ShapeIsChain(keys: seq<Key>, kids: seq<Tree>, h: nat)
    requires |keys| == |kids| >= 2
    ensures Shape(Branch(keys, kids)) && Height(Branch(keys, kids)) == h + 1 <==>
      keys[0].len == 0 && Chain(keys, kids, h)
  {
    hide Separates;
  }

  /** Put one tree, or two with a separator, in the place of subtree i. */
  function Replaced<T>(kids: seq<T>, i: nat, ts: seq<T>): seq<T>
    requires i < |kids|
  {
    kids[..i] + ts + kids[i + 1..]
  }

  lemma ReplacedEntries(kids: seq<Tree>, i: nat, ts: seq<Tree>)
    requires i < |kids|
    ensures Flat(Replaced(kids, i, ts)) == Flat(kids[..i]) + Flat(ts) + Flat(kids[i + 1..])
  {
    hide Flat;
    FlatAppend(kids[..i] + ts, kids[i + 1..]);
    FlatAppend(kids[..i], ts);
  }

  lemma FlatTwo(a: Tree, b: Tree)
    ensures Flat([a, b]) == Entries(a) + Entries(b)
  {
    hide Flat, Entries;
    FlatOne(a);
    FlatSnoc([a], b);
    assert [a] + [b] == [a, b];
  }

  /** The trees put in place of a subtree keep to the separators around it. */
  ghost predicate Between(es: seq<Entry>, keys: seq<Key>, i: nat)
    requires i < |keys|
  {
    && es != []
    && (i > 0 ==> keys[i].rank <= es[0].key.rank)
    && (i + 1 < |keys| ==> es[|es| - 1].key.rank < keys[i + 1].rank)
  }

  lemma InsertedBetween(t: Tree, e: Entry, i: nat)
    requires WellFormed(t) && Enters(t, e.key.rank, i) && i < |t.kids| && Sorted(Entries(t.kids[i]))
    requires Entries(t.kids[i]) != []
    ensures Between(Inserted(Entries(t.kids[i]), e), t.keys, i)
  {
    var es := Entries(t.kids[i]);
    PlaceIsRank(es, e.key.rank);
    if i > 0 { assert Separates(t.keys[i], t.kids[i - 1], t.kids[i]); }
    if i + 1 < |t.keys| { assert Separates(t.keys[i + 1], t.kids[i], t.kids[i + 1]); }
  }

  lemma OneChain(keys: seq<Key>, kids: seq<Tree>, h: nat, i: nat, m: Tree)
    requires Chain(keys, kids, h) && i < |kids| && Shape(m) && Height(m) == h && Between(Entries(m), keys, i)
    ensures Chain(keys, Replaced(kids, i, [m]), h)
  {
    hide Entries, Shape, Height;
    var ks := Replaced(kids, i, [m]);
    assert |ks| == |kids| && forall j :: 0 <= j < |kids| ==> ks[j] == if j == i then m else kids[j];
    forall j | 1 <= j < |ks| ensures Separates(keys[j], ks[j - 1], ks[j]) {
      assert Separates(keys[j], kids[j - 1], kids[j]);
    }
  }

  lemma TwoChain(keys: seq<Key>, kids: seq<Tree>, h: nat, i: nat, l: Tree, sep: Key, r: Tree)
    requires Chain(keys, kids, h) && i < |kids| && Shape(l) && Height(l) == h && Shape(r) && Height(r) == h
    requires Separates(sep, l, r) && Between(Entries(l) + Entries(r), keys, i)
    ensures Chain(keys[..i + 1] + [sep] + keys[i + 1..], Replaced(kids, i, [l, r]), h)
  {
    hide Entries, Shape, Height;
    var ks, ts := keys[..i + 1] + [sep] + keys[i + 1..], Replaced(kids, i, [l, r]);
    var es := Entries(l) + Entries(r);
    assert es[0] == Entries(l)[0] && es[|es| - 1] == Entries(r)[|Entries(r)| - 1];
    assert |ts| == |ks| == |kids| + 1;
    assert forall j :: 0 <= j < |ts| ==>
      ts[j] == if j < i then kids[j] else if j == i then l else if j == i + 1 then r else kids[j - 1];
    forall j | 1 <= j < |ts| ensures Separates(ks[j], ts[j - 1], ts[j]) {
      if j <= i {
        assert Separates(keys[j], kids[j - 1], kids[j]);
      } else if j > i + 1 {
        assert Separates(keys[j - 1], kids[j - 2], kids[j - 1]);
      }
    }
  }

  /** The two pages a branch page is cut into: the right one drops its first key. */
  function LeftPart(keys: seq<Key>, kids: seq<Tree>, s: nat): Tree
    requires s <= |keys| == |kids|
  {
    Branch(keys[..s], kids[..s])
  }

  function RightPart(keys: seq<Key>, kids: seq<Tree>, s: nat): Tree
    requires s < |keys| == |kids|
  {
    Branch([NOKEY] + keys[s + 1..], kids[s..])
  }

  lemma CutChain(keys: seq<Key>, kids: seq<Tree>, h: nat, s: nat)
    requires Chain(keys, kids, h) && 1 <= s < |kids|
    ensures Chain(keys[..s], kids[..s], h) && Chain([NOKEY] + keys[s + 1..], kids[s..], h)
    ensures Separates(keys[s], LeftPart(keys, kids, s), RightPart(keys, kids, s))
    ensures Flat(kids) == Entries(LeftPart(keys, kids, s)) + Entries(RightPart(keys, kids, s))
  {
    hide Shape, Height, Flat;
    assert Separates(keys[s], kids[s - 1], kids[s]);
    FlatAt(kids, s);
    FlatAt(kids, s - 1);
    var rk, rt := [NOKEY] + keys[s + 1..], kids[s..];
    forall j | 1 <= j < |rt| ensures Separates(rk[j], rt[j - 1], rt[j]) {
      assert Separates(keys[s + j], kids[s + j - 1], kids[s + j]);
    }
    forall j | 1 <= j < s ensures Separates(keys[..s][j], kids[..s][j - 1], kids[..s][j]) {
      assert Separates(keys[j], kids[j - 1], kids[j]);
    }
  }

  ghost predicate KidsFit(keys: seq<Key>, kids: seq<Tree>, psize: nat) {
    && (forall i :: 0 <= i < |keys| ==> keys[i].len <= MAXKEYSIZE)
    && (forall i :: 0 <= i < |kids| ==> Fits(kids[i], psize))
  }

  lemma BranchRoomsInsert(keys: seq<Key>, k: Key, i: nat)
    requires i <= |keys|
    ensures var rooms := BranchRooms(keys[..i] + [k] + keys[i..]);
      Sum(rooms) == Sum(BranchRooms(keys)) + BranchRoom(k) && rooms[i] == BranchRoom(k)
  {
    var r := BranchRooms(keys);
    SumInsert(r, i, BranchRoom(k));
    assert BranchRooms(keys[..i] + [k] + keys[i..]) == r[..i] + [BranchRoom(k)] + r[i..];
  }

  lemma PartRooms(keys: seq<Key>, s: nat)
    requires 1 <= s < |keys|
    ensures BranchRooms(keys[..s]) == BranchRooms(keys)[..s]
    ensures Sum(BranchRooms([NOKEY] + keys[s + 1..])) <= Sum(BranchRooms(keys)[s..])
  {
    var r := BranchRooms(keys);
    assert BranchRooms(keys[..s]) == r[..s];
    assert BranchRooms([NOKEY] + keys[s + 1..]) == [BranchRoom(NOKEY)] + r[s + 1..];
    SumJoin([BranchRoom(NOKEY)], r[s + 1..]);
    SumCons(r, s);
    assert [BranchRoom(NOKEY)][..0] == [];
  }

  lemma BranchFits(keys: seq<Key>, kids: seq<Tree>, psize: nat)
    requires KidsFit(keys, kids, psize) && Sum(BranchRooms(keys)) <= PageMax(psize)
    ensures Fits(Branch(keys, kids), psize)
  {
  }

  lemma PartsFit(keys: seq<Key>, kids: seq<Tree>, s: nat, psize: nat)
    requires KidsFit(keys, kids, psize) && 1 <= s < |keys| == |kids|
    ensures KidsFit(keys[..s], kids[..s], psize) && KidsFit([NOKEY] + keys[s + 1..], kids[s..], psize)
  {
    hide Fits;
  }

  /** The two parts of a cut branch page. */
  lemma PartsGive(keys: seq<Key>, kids: seq<Tree>, h: nat, s: nat, psize: nat)
    requires Chain(keys, kids, h) && KidsFit(keys, kids, psize) && 2 <= s <= |kids| - 2 && keys[0].len == 0
    requires Sum(BranchRooms(keys[..s])) <= PageMax(psize)
    requires Sum(BranchRooms([NOKEY] + keys[s + 1..])) <= PageMax(psize)
    ensures Gives(Split(LeftPart(keys, kids, s), keys[s], RightPart(keys, kids, s)), Flat(kids), h + 1, psize)
  {
    hide Chain, Shape, Height, Sum, BranchRooms, Entries, Separates, Fits;
    ChainLength(keys, kids, h);
    CutChain(keys, kids, h, s);
    PartsFit(keys, kids, s, psize);
    BranchFits(keys[..s], kids[..s], psize);
    BranchFits([NOKEY] + keys[s + 1..], kids[s..], psize);
    ShapeIsChain(keys[..s], kids[..s], h);
    ShapeIsChain([NOKEY] + keys[s + 1..], kids[s..], h);
    assert keys[s].len <= MAXKEYSIZE;
  }

  lemma WholeGives(keys: seq<Key>, kids: seq<Tree>, h: nat, psize: nat)
    requires Chain(keys, kids, h) && KidsFit(keys, kids, psize) && 2 <= |kids| == |keys| && keys[0].len == 0
    requires Sum(BranchRooms(keys)) <= PageMax(psize)
    ensures Gives(Grown(Branch(keys, kids)), Flat(kids), h + 1, psize)
  {
    hide Chain, Shape, Height, Sum, BranchRooms, Separates, Fits, Flat;
    BranchFits(keys, kids, psize);
    ShapeIsChain(keys, kids, h);
  }

  lemma ChainLength(keys: seq<Key>, kids: seq<Tree>, h: nat)
    requires Chain(keys, kids, h)
    ensures |keys| == |kids|
  {
  }

  /** The page cut off on the right is hung into the parent, or the parent is cut in turn. */
  method Hang(keys: seq<Key>, kids: seq<Tree>, i: nat, l: Tree, sep: Key, r: Tree, psize: nat, ghost h: nat)
    returns (o: Outcome)
    requires PageSize(psize) && 2 <= |keys| == |kids| && i < |kids| && keys[0].len == 0 && Chain(keys, kids, h)
    requires Fits(Branch(keys, kids), psize) && Sound(l, h, psize) && Sound(r, h, psize) && sep.len <= MAXKEYSIZE
    requires Separates(sep, l, r) && Between(Entries(l) + Entries(r), keys, i)
    ensures var ks := keys[..i + 1] + [sep] + keys[i + 1..];
      && (o == Fail <==> BranchStuck(ks, i + 1, psize)) && ClimbOf(o) == BranchClimb(ks, i + 1, psize)
      && o == BranchAfter(ks, Replaced(kids, i, [l, r]), i + 1, psize)
    ensures Gives(o, Flat(kids[..i]) + (Entries(l) + Entries(r)) + Flat(kids[i + 1..]), h + 1, psize)
  {
    hide Chain, Shape, Height, Sum, BranchRooms, Separates, Flat, Between, Gives;
    var ks, ts := keys[..i + 1] + [sep] + keys[i + 1..], Replaced(kids, i, [l, r]);
    TwoChain(keys, kids, h, i, l, sep, r);
    ReplacedEntries(kids, i, [l, r]);
    FlatTwo(l, r);
    HungFits(keys, kids, i, l, sep, r, psize);
    BranchRoomsInsert(keys, sep, i + 1);
    if Sum(BranchRooms(keys)) + BranchRoom(sep) <= PageMax(psize) {
      WholeGives(ks, ts, h, psize);
      return Grown(Branch(ks, ts));
    }
    var rooms, pmax := BranchRooms(ks), PageMax(psize);
    CanSplit(ks, i + 1, psize);
    var s := SplitPoint(rooms, i + 1, pmax);
    PartRooms(ks, s);
    if Sum(BranchRooms(ks[..s])) > pmax || Sum(BranchRooms([NOKEY] + ks[s + 1..])) > pmax {
      FailGives(Flat(ts), h + 1, psize);
      return Fail;
    }
    PartsGive(ks, ts, h, s, psize);
    return Split(LeftPart(ks, ts, s), ks[s], RightPart(ks, ts, s));
  }

  lemma HungFits(keys: seq<Key>, kids: seq<Tree>, i: nat, l: Tree, sep: Key, r: Tree, psize: nat)
    requires |keys| == |kids| && i < |kids| && Fits(Branch(keys, kids), psize) && Fits(l, psize) && Fits(r, psize)
    requires sep.len <= MAXKEYSIZE
    ensures KidsFit(keys[..i + 1] + [sep] + keys[i + 1..], Replaced(kids, i, [l, r]), psize)
  {
    hide Sum;
  }

  lemma CanSplit(ks: seq<Key>, j: nat, psize: nat)
    requires PageSize(psize) && j < |ks| && forall i :: 0 <= i < |ks| ==> ks[i].len <= MAXKEYSIZE
    requires Sum(BranchRooms(ks)) > PageMax(psize) && Sum(BranchRooms(ks)) - BranchRooms(ks)[j] <= PageMax(psize)
    ensures Splittable(BranchRooms(ks), j, PageMax(psize)) && AllAtMost(BranchRooms(ks), PageMax(psize) / 4)
  {
    hide Sum;
    RoomLimits(psize);
  }

  /** Insert a new key below t. */
  method Insert(t: Tree, e: Entry, psize: nat) returns (o: Outcome, cuts: nat)
    requires PageSize(psize) && WellFormed(t) && Fits(t, psize) && Absent(Entries(t), e.key.rank)
    requires e.key.len <= MAXKEYSIZE
    ensures Gives(o, Inserted(Entries(t), e), Height(t), psize)
    ensures ClimbOf(o) == Climbs(t, e, psize) && o == After(t, e, psize) && cuts == Cuts(t, e, psize)
    decreases t
  {
    hide Gives, Sorted, Inserted;
    if t.Leaf? {
      o := InsertLeaf(t.entries, e, psize);
      cuts := if o.Split? then 1 else 0;
      return;
    }
    o, cuts := InsertBranch(t, e, psize);
  }

  method InsertBranch(t: Tree, e: Entry, psize: nat) returns (o: Outcome, cuts: nat)
    requires t.Branch?
    requires PageSize(psize) && WellFormed(t) && Fits(t, psize) && Absent(Entries(t), e.key.rank)
    requires e.key.len <= MAXKEYSIZE
    ensures Gives(o, Inserted(Entries(t), e), Height(t), psize)
    ensures ClimbOf(o) == Climbs(t, e, psize) && o == After(t, e, psize) && cuts == Cuts(t, e, psize)
    decreases t, 0
  {
    hide Gives, Sorted, Inserted, Absent, Flat, Sum, Height, Shape, Chain, Between, Separates, Climbs, BranchClimb,
         BranchStuck, After, BranchAfter, Entries, Cuts;
    var i := ChildIndex(t, e.key.rank);
    InsertReady(t, e, i);
    ClimbsOn(t, e, i, psize);
    var sub;
    sub, cuts := Insert(t.kids[i], e, psize);
    match sub {
      case Fail =>
        FailGives(Inserted(Entries(t), e), Height(t), psize);
        o := Fail;
      case Grown(m) =>
        GrownBelow(t, i, m, Inserted(Entries(t.kids[i]), e), psize);
        o := Grown(Branch(t.keys, Replaced(t.kids, i, [m])));
      case Split(l, sep, r) =>
        SplitBelow(sub, Inserted(Entries(t.kids[i]), e), Height(t.kids[i]), psize);
        o := Hang(t.keys, t.kids, i, l, sep, r, psize, Height(t.kids[i]));
    }
    if o.Split? { cuts := cuts + 1; }
  }

  lemma ClimbsOn(t: Tree, e: Entry, i: nat, psize: nat)
    requires WellFormed(t) && Enters(t, e.key.rank, i)
    ensures i < |t.kids| && i < |t.keys|
    ensures var c := Climbs(t.kids[i], e, psize);
      Climbs(t, e, psize) ==
      if c.Rises? then BranchClimb(t.keys[..i + 1] + [c.sep] + t.keys[i + 1..], i + 1, psize) else c
    ensures Cuts(t, e, psize) == Cuts(t.kids[i], e, psize) + if Climbs(t, e, psize).Rises? then 1 else 0
    ensures |t.keys| == |t.kids| && After(t, e, psize) == Above(t.keys, t.kids, i, After(t.kids[i], e, psize), psize)
  {
    hide BranchClimb, Above, WellFormed, ChildOf;
    EnteredIs(t, e.key.rank, i);
  }

  lemma EnteredIs(t: Tree, k: int, i: nat)
    requires WellFormed(t) && Enters(t, k, i)
    ensures |t.keys| == |t.kids| && i < |t.kids| && ChildOf(t.keys, k) == i
  {
    hide Separates, Sorted, Entries;
    forall a, b | 1 <= a < b < |t.keys| ensures t.keys[a].rank < t.keys[b].rank { KeysIncrease(t, a, b); }
    ChildIsEntered(t.keys, k, i);
  }

  /** The subtree entered is fit for the insertion, and the whole follows from it. */
  lemma InsertReady(t: Tree, e: Entry, i: nat)
    requires WellFormed(t) && t.Branch? && Enters(t, e.key.rank, i) && Absent(Entries(t), e.key.rank)
    ensures 2 <= |t.kids| == |t.keys| && t.keys[0].len == 0 && Chain(t.keys, t.kids, Height(t.kids[i]))
    ensures WellFormed(t.kids[i]) && Height(t) == Height(t.kids[i]) + 1 && Absent(Entries(t.kids[i]), e.key.rank)
    ensures Between(Inserted(Entries(t.kids[i]), e), t.keys, i)
    ensures Inserted(Entries(t), e) == Flat(t.kids[..i]) + Inserted(Entries(t.kids[i]), e) + Flat(t.kids[i + 1..])
  {
    hide Flat, Height, Separates, Inserted, Between;
    KidWellFormed(t, i);
    EntersBetween(t, e.key.rank, i);
    InsertedInside(Flat(t.kids[..i]), Entries(t.kids[i]), Flat(t.kids[i + 1..]), e);
    InsertedBetween(t, e, i);
    ShapeIsChain(t.keys, t.kids, Height(t.kids[i]));
    AbsentPart(Flat(t.kids[..i]), Entries(t.kids[i]), Flat(t.kids[i + 1..]), e.key.rank);
  }

  lemma AbsentPart(a: seq<Entry>, b: seq<Entry>, c: seq<Entry>, k: int)
    requires Absent(a + b + c, k)
    ensures Absent(b, k)
  {
    assert forall i :: 0 <= i < |b| ==> (a + b + c)[|a| + i] == b[i];
  }

  lemma GrownBelow(t: Tree, i: nat, m: Tree, es: seq<Entry>, psize: nat)
    requires t.Branch? && i < |t.kids| && 2 <= |t.kids| == |t.keys| && t.keys[0].len == 0 && Fits(t, psize)
    requires Chain(t.keys, t.kids, Height(t.kids[i])) && Between(es, t.keys, i)
    requires Gives(Grown(m), es, Height(t.kids[i]), psize)
    ensures Gives(Grown(Branch(t.keys, Replaced(t.kids, i, [m]))), Flat(t.kids[..i]) + es + Flat(t.kids[i + 1..]),
                  Height(t.kids[i]) + 1, psize)
  {
    hide Flat, Sum, Shape, Separates, BranchRooms;
    OneChain(t.keys, t.kids, Height(t.kids[i]), i, m);
    ReplacedEntries(t.kids, i, [m]);
    FlatOne(m);
    WholeGives(t.keys, Replaced(t.kids, i, [m]), Height(t.kids[i]), psize);
  }

  lemma SplitBelow(o: Outcome, es: seq<Entry>, h: nat, psize: nat)
    requires o.Split? && Gives(o, es, h, psize)
    ensures Sound(o.left, h, psize) && Sound(o.right, h, psize) && Separates(o.sep, o.left, o.right)
    ensures o.sep.len <= MAXKEYSIZE
    ensures Entries(o.left) + Entries(o.right) == es
  {
  }

  /**
   Insert a new key into a tree.  Whenever it succeeds, the new tree is well-formed and within its
   pages, its entries are the old ones with e in its place, and it is at most one level higher; more is the
   number of pages it takes.
   */
  method Put(t: Tree, e: Entry, psize: nat) returns (ok: bool, t': Tree, more: nat)
    requires PageSize(psize) && (t == Leaf([]) || WellFormed(t)) && Fits(t, psize)
    requires Absent(Entries(t), e.key.rank) && e.key.len <= MAXKEYSIZE
    ensures ok ==> WellFormed(t') && Fits(t', psize) && Entries(t') == Inserted(Entries(t), e)
    ensures ok ==> Sorted(Entries(t')) && multiset(Entries(t')) == multiset(Entries(t)) + multiset{e}
    ensures ok ==> Height(t) <= Height(t') <= Height(t) + 1
    ensures !ok <==> Overflows(t, e, psize)
    ensures ok && t != Leaf([]) ==> Rooted(After(t, e, psize)) == Grown(t') && more == NewPages(t, e, psize)
  {
    hide Inserted, Absent, Flat, Shape, Fits, After;
    EntriesSorted(t);
    InsertedIs(Entries(t), e);
    if t == Leaf([]) {
      OneEntry(e, psize);
      return true, Leaf([e]), 1;
    }
    ok, t', more := PutBelow(t, e, psize);
    if ok { EntriesSorted(t'); }
  }

  lemma EntriesSorted(t: Tree)
    requires t == Leaf([]) || WellFormed(t)
    ensures Sorted(Entries(t)) && (t == Leaf([]) ==> Entries(t) == [])
  {
    hide Shape, Flat;
  }

  lemma OneEntry(e: Entry, psize: nat)
    requires PageSize(psize) && e.key.len <= MAXKEYSIZE
    ensures WellFormed(Leaf([e])) && Fits(Leaf([e]), psize) && Inserted([], e) == [e]
  {
    RoomLimits(psize);
    SumBound(LeafRooms([e], psize), PageMax(psize) / 2, 1);
  }

  method PutBelow(t: Tree, e: Entry, psize: nat) returns (ok: bool, t': Tree, more: nat)
    requires PageSize(psize) && WellFormed(t) && Fits(t, psize) && Absent(Entries(t), e.key.rank)
    requires e.key.len <= MAXKEYSIZE
    ensures ok ==> WellFormed(t') && Fits(t', psize) && Entries(t') == Inserted(Entries(t), e)
    ensures ok ==> Height(t) <= Height(t') <= Height(t) + 1
    ensures !ok <==> Overflows(t, e, psize)
    ensures ok ==> Rooted(After(t, e, psize)) == Grown(t') && more == NewPages(t, e, psize)
  {
    hide Inserted, Sum, Flat, Shape, Fits;
    var o, cuts := Insert(t, e, psize);
    InsertedSorted(Entries(t), e);
    match o {
      case Fail => return false, t, 0;
      case Grown(u) => return true, u, cuts;
      case Split(l, sep, r) =>
        NewRoot(l, sep, r, Height(t), psize);
        return true, Branch([NOKEY, sep], [l, r]), cuts + 1;
    }
  }

  lemma NewRoot(l: Tree, sep: Key, r: Tree, h: nat, psize: nat)
    requires PageSize(psize) && Sound(l, h, psize) && Sound(r, h, psize) && Separates(sep, l, r)
    requires sep.len <= MAXKEYSIZE
    ensures Gives(Grown(Branch([NOKEY, sep], [l, r])), Entries(l) + Entries(r), h + 1, psize)
  {
    hide Flat, Sum, Shape, BranchRooms;
    var ks, ts := [NOKEY, sep], [l, r];
    FlatTwo(l, r);
    RoomLimits(psize);
    SumBound(BranchRooms(ks), PageMax(psize) / 4, 2);
    assert Chain(ks, ts, h);
    WholeGives(ks, ts, h, psize);
  }

  // ----- a page that overflows -----------------------------------------------------------------------

  /** Nine large entries, then eleven small ones, and a small new one before them all. */
  ghost function Uneven(): seq<Entry> {
    seq(20, i => Entry(Key(i + 1, 2), 0, if i < 9 then 426 else 0))
  }

  const LATECOMER := Entry(Key(0, 4), 0, 240)

  /** Twenty entries within a page of 4096 bytes and a new one of less than a sixteenth of it, for which the cut
      in the middle leaves more on the left than a page holds. */
  lemma MiddleCutOverflows(es: seq<Entry>)
    requires es == Uneven()
    ensures PageSize(4096) && LATECOMER.key.len <= MAXKEYSIZE
    ensures WellFormed(Leaf(es)) && Fits(Leaf(es), 4096) && Absent(Entries(Leaf(es)), LATECOMER.key.rank)
    ensures Overflows(Leaf(es), LATECOMER, 4096)
  {
    hide Sum, LeafRooms, Copies, Uneven, Inserted, Place;
    UnevenRooms(es);
    UnevenSorted(es);
    InsertedFirst(es);
    UnevenSums(Copies(438, 9), Copies(12, 11));
  }

  lemma UnevenSums(big: seq<nat>, small: seq<nat>)
    requires big == Copies(438, 9) && small == Copies(12, 11)
    ensures Sum(big + small) == 4074 && Sum([254] + (big + small)) == 4328 && Sum(([254] + (big + small))[..10]) == 4196
  {
    hide Sum, Copies;
    SumJoin(big, small);
    SumJoin([254], big + small);
    SumJoin([254], big);
    SumOne(254);
    assert ([254] + (big + small))[..10] == [254] + big;
  }

  lemma SumOne(n: nat)
    ensures Sum([n]) == n
  {
    assert [n][..0] == [];
  }

  lemma UnevenSorted(es: seq<Entry>)
    requires es == Uneven()
    ensures |es| == 20 && Sorted(es) && ShortKeys(es) && Absent(es, LATECOMER.key.rank)
  {
  }

  lemma InsertedFirst(es: seq<Entry>)
    requires es == Uneven()
    ensures Place(es, LATECOMER.key.rank) == 0 && Inserted(es, LATECOMER) == [LATECOMER] + es
  {
    assert es[..0] + [LATECOMER] + es[0..] == [LATECOMER] + es;
  }

  lemma UnevenRooms(es: seq<Entry>)
    requires es == Uneven()
    ensures LeafRooms(es, 4096) == Copies(438, 9) + Copies(12, 11)
    ensures LeafRooms([LATECOMER] + es, 4096) == [254] + (Copies(438, 9) + Copies(12, 11))
  {
    hide Copies, Sum, LeafRoom;
    var all := [LATECOMER] + es;
    assert LeafRoom(LATECOMER, 4096) == 254 by { Room(LATECOMER); }
    forall i | 0 <= i < 20 ensures LeafRoom(es[i], 4096) == if i < 9 then 438 else 12 { Room(es[i]); }
    assert all[0] == LATECOMER && forall i :: 1 <= i < 21 ==> all[i] == es[i - 1];
    assert LeafRooms(es, 4096) == Copies(438, 9) + Copies(12, 11);
  }

  lemma Room(e: Entry)
    requires e.key.len + e.dsize <= 1000 && (e.key.len + e.dsize) % 2 == 0
    ensures LeafRoom(e, 4096) == 10 + e.key.len + e.dsize
  {
  }
}
