/**
 The B+tree of mdb.c, without sub-databases for duplicates: pages as values, search within a
 page, and what a well-formed tree says about the sorted map it stands for.
 */
module BTree {

  /** A key: its place in the comparison order, and its length in bytes. */
  datatype Key = Key(rank: int, len: nat)

  datatype Entry = Entry(key: Key, data: int, dsize: nat)

  /** keys[0] of a branch page is never looked at and has no bytes. */
  datatype Tree = Leaf(entries: seq<Entry>) | Branch(keys: seq<Key>, kids: seq<Tree>)

  /** The entries in order: the map the tree stands for. */
  ghost function Entries(t: Tree): seq<Entry>
    decreases t, 0
  {
    match t
    case Leaf(es) => es
    case Branch(_, kids) => Flat(kids)
  }

  ghost function Flat(ts: seq<Tree>): seq<Entry>
    decreases ts, |ts|
  {
    if ts == [] then [] else Flat(ts[..|ts| - 1]) + Entries(ts[|ts| - 1])
  }

  ghost predicate Sorted(es: seq<Entry>) {
    forall i, j :: 0 <= i < j < |es| ==> es[i].key.rank < es[j].key.rank
  }

  /** Exactly the first r entries are below k. */
  ghost predicate IsRank(es: seq<Entry>, k: int, r: nat) {
    && r <= |es|
    && (forall i :: 0 <= i < r ==> es[i].key.rank < k)
    && (forall i :: r <= i < |es| ==> k <= es[i].key.rank)
  }

  ghost predicate AllBelow(es: seq<Entry>, k: int) {
    forall i :: 0 <= i < |es| ==> es[i].key.rank < k
  }

  ghost predicate AllAbove(es: seq<Entry>, k: int) {
    forall i :: 0 <= i < |es| ==> k < es[i].key.rank
  }

  ghost function Height(t: Tree): nat {
    if t.Leaf? || t.kids == [] then 0 else 1 + Height(t.kids[0])
  }

  /** k separates the entries of two neighbouring subtrees. */
  ghost predicate Separates(k: Key, a: Tree, b: Tree) {
    var l, r := Entries(a), Entries(b);
    l != [] && r != [] && l[|l| - 1].key.rank < k.rank <= r[0].key.rank
  }

  ghost predicate Shape(t: Tree) {
    match t
    case Leaf(es) => es != []
    case Branch(keys, kids) =>
      && 2 <= |kids| == |keys| && keys[0].len == 0
      && (forall i :: 0 <= i < |kids| ==> Shape(kids[i]) && Height(kids[i]) == Height(kids[0]))
      && (forall i :: 1 <= i < |kids| ==> Separates(keys[i], kids[i - 1], kids[i]))
  }

  /** Sorted contents, separators that bound both sides, leaves at equal depth, no empty page. */
  ghost predicate WellFormed(t: Tree) {
    Shape(t) && Sorted(Entries(t))
  }

  // ----- in-order contents --------------------------------------------------------------------

  lemma FlatSnoc(ts: seq<Tree>, t: Tree)
    ensures Flat(ts + [t]) == Flat(ts) + Entries(t)
  {
    hide Entries;
    assert (ts + [t])[..|ts|] == ts;
  }

  lemma Assoc(a: seq<Entry>, b: seq<Entry>, c: seq<Entry>)
    ensures a + (b + c) == (a + b) + c
  {
  }

  lemma {:induction false} FlatAppend(a: seq<Tree>, b: seq<Tree>)
    ensures Flat(a + b) == Flat(a) + Flat(b)
    decreases |b|
  {
    hide Flat, Entries;
    if b == [] {
      assert a + b == a;
      FlatNone();
    } else {
      var n := |b| - 1;
      var b', t := b[..n], b[n];
      FlatAppend(a, b');
      assert a + b == (a + b') + [t];
      assert b == b' + [t];
      FlatSnoc(a + b', t);
      FlatSnoc(b', t);
      Assoc(Flat(a), Flat(b'), Entries(t));
    }
  }

  lemma FlatNone()
    ensures Flat([]) == []
  {
  }

  lemma FlatOne(t: Tree)
    ensures Flat([t]) == Entries(t)
  {
    FlatSnoc([], t);
    assert [] + [t] == [t];
  }

  lemma FlatAt(ts: seq<Tree>, i: nat)
    requires i < |ts|
    ensures Flat(ts) == Flat(ts[..i]) + Flat(ts[i..])
    ensures Flat(ts[..i + 1]) == Flat(ts[..i]) + Entries(ts[i])
    ensures Flat(ts[i..]) == Entries(ts[i]) + Flat(ts[i + 1..])
  {
    hide Flat, Entries;
    Pieces(ts, i);
    FlatAppend(ts[..i], ts[i..]);
    FlatSnoc(ts[..i], ts[i]);
    FlatAppend([ts[i]], ts[i + 1..]);
    FlatOne(ts[i]);
  }

  lemma Pieces<T>(ts: seq<T>, i: nat)
    requires i < |ts|
    ensures ts[..i] + ts[i..] == ts && ts[..i] + [ts[i]] == ts[..i + 1] && [ts[i]] + ts[i + 1..] == ts[i..]
  {
  }

  lemma {:induction false} NotEmpty(t: Tree)
    requires Shape(t)
    ensures Entries(t) != []
  {
    if t.Branch? {
      FlatAt(t.kids, 0);
      NotEmpty(t.kids[0]);
    }
  }

  lemma SortedPart(a: seq<Entry>, b: seq<Entry>, c: seq<Entry>)
    requires Sorted(a + b + c)
    ensures Sorted(a) && Sorted(b) && Sorted(c)
    ensures forall i, j :: 0 <= i < |a| && 0 <= j < |b| ==> a[i].key.rank < b[j].key.rank
    ensures forall i, j :: 0 <= i < |b| && 0 <= j < |c| ==> b[i].key.rank < c[j].key.rank
  {
    var s := a + b + c;
    assert forall i :: 0 <= i < |a| ==> s[i] == a[i];
    assert forall i :: 0 <= i < |b| ==> s[|a| + i] == b[i];
    assert forall i :: 0 <= i < |c| ==> s[|a| + |b| + i] == c[i];
  }

  /** Before, inside and after subtree i. */
  lemma Around(ts: seq<Tree>, i: nat)
    requires i < |ts| && Sorted(Flat(ts))
    ensures Flat(ts) == Flat(ts[..i]) + Entries(ts[i]) + Flat(ts[i + 1..])
    ensures Sorted(Flat(ts[..i])) && Sorted(Entries(ts[i])) && Sorted(Flat(ts[i + 1..]))
  {
    hide Flat, Entries, Sorted;
    FlatAt(ts, i);
    Assoc(Flat(ts[..i]), Entries(ts[i]), Flat(ts[i + 1..]));
    SortedPart(Flat(ts[..i]), Entries(ts[i]), Flat(ts[i + 1..]));
  }

  lemma KidWellFormed(t: Tree, i: nat)
    requires WellFormed(t) && t.Branch? && i < |t.kids|
    ensures WellFormed(t.kids[i]) && Entries(t.kids[i]) != [] && Height(t) == Height(t.kids[i]) + 1
  {
    hide Flat, Sorted, Separates;
    Around(t.kids, i);
    NotEmpty(t.kids[i]);
  }

  lemma {:induction false} KeysIncrease(t: Tree, i: nat, j: nat)
    requires WellFormed(t) && t.Branch? && 1 <= i < j < |t.keys|
    ensures t.keys[i].rank < t.keys[j].rank
    decreases j
  {
    if i + 1 < j { KeysIncrease(t, i, j - 1); }
    KidWellFormed(t, j - 1);
    assert Separates(t.keys[j - 1], t.kids[j - 2], t.kids[j - 1]) && Separates(t.keys[j], t.kids[j - 1], t.kids[j]);
    var es := Entries(t.kids[j - 1]);
    if |es| > 1 { assert es[0].key.rank < es[|es| - 1].key.rank; }
  }

  // ----- search within a page -----------------------------------------------------------------

  function NumKeys(t: Tree): nat {
    if t.Leaf? then |t.entries| else |t.keys|
  }

  function KeyAt(t: Tree, i: nat): Key
    requires i < NumKeys(t)
  {
    if t.Leaf? then t.entries[i].key else t.keys[i]
  }

  function Low(t: Tree): nat {
    if t.Leaf? then 0 else 1
  }

  ghost predicate Ordered(t: Tree) {
    forall i, j :: Low(t) <= i < j < NumKeys(t) ==> KeyAt(t, i).rank < KeyAt(t, j).rank
  }

  lemma PageOrdered(t: Tree)
    requires WellFormed(t)
    ensures Ordered(t) && NumKeys(t) > Low(t)
  {
    if t.Branch? {
      forall i, j | 1 <= i < j < |t.keys| ensures t.keys[i].rank < t.keys[j].rank { KeysIncrease(t, i, j); }
    }
  }

  /** Binary search for the first key not below k. */
  method NodeSearch(t: Tree, k: int) returns (i: nat, exact: bool)
    requires Ordered(t) && (t.Branch? ==> NumKeys(t) > 1)
    ensures Low(t) <= i <= NumKeys(t)
    ensures forall j :: Low(t) <= j < i ==> KeyAt(t, j).rank < k
    ensures forall j :: i <= j < NumKeys(t) ==> k <= KeyAt(t, j).rank
    ensures exact <==> i < NumKeys(t) && KeyAt(t, i).rank == k
  {
    var n: int := NumKeys(t);
    var low: int, high: int, rc := Low(t), n - 1, 0;
    i := 0;
    while low <= high
      invariant Low(t) <= low <= high + 1 <= n
      invariant forall j :: Low(t) <= j < low ==> KeyAt(t, j).rank < k
      invariant forall j :: high < j < n ==> k < KeyAt(t, j).rank
      invariant (rc == 0 && i == 0 && low == Low(t) && high == n - 1) || (rc > 0 && i == low - 1) ||
        (rc < 0 && i == high + 1)
      decreases high - low
    {
      i := (low + high) / 2;
      rc := k - KeyAt(t, i).rank;
      if rc == 0 { break; }
      if rc > 0 { low := i + 1; } else { high := i - 1; }
    }
    if rc > 0 { i := i + 1; }
    exact := rc == 0 && n > 0;
  }

  /** The subtree a search for k has to enter. */
  ghost predicate Enters(t: Tree, k: int, i: nat) {
    && t.Branch? && i < |t.keys|
    && (i > 0 ==> t.keys[i].rank <= k)
    && (i + 1 < |t.keys| ==> k < t.keys[i + 1].rank)
  }

  method ChildIndex(t: Tree, k: int) returns (i: nat)
    requires WellFormed(t) && t.Branch?
    ensures Enters(t, k, i)
  {
    hide Shape, Sorted, Entries;
    PageOrdered(t);
    var exact;
    i, exact := NodeSearch(t, k);
    if i == NumKeys(t) {
      i := NumKeys(t) - 1;
    } else if !exact {
      i := i - 1;
    }
    assert i > 0 ==> KeyAt(t, i).rank <= k;
    assert i + 1 < NumKeys(t) ==> k < KeyAt(t, i + 1).rank;
  }

  /** All before the subtree entered is below k, all after it is above. */
  lemma EntersBetween(t: Tree, k: int, i: nat)
    requires WellFormed(t) && Enters(t, k, i) && i < |t.kids|
    ensures Entries(t) == Flat(t.kids[..i]) + Entries(t.kids[i]) + Flat(t.kids[i + 1..])
    ensures AllBelow(Flat(t.kids[..i]), k) && AllAbove(Flat(t.kids[i + 1..]), k)
  {
    hide Flat;
    Around(t.kids, i);
    FlatNone();
    if i > 0 { LeftBelow(t, k, i); } else { assert t.kids[..i] == []; }
    if i + 1 < |t.kids| { RightAbove(t, k, i); } else { assert t.kids[i + 1..] == []; }
  }

  lemma RankParts(a: seq<Entry>, b: seq<Entry>, c: seq<Entry>, k: int, r: nat)
    requires AllBelow(a, k) && AllAbove(c, k) && IsRank(b, k, r)
    ensures IsRank(a + b + c, k, |a| + r)
  {
  }

  lemma LeftBelow(t: Tree, k: int, i: nat)
    requires WellFormed(t) && t.Branch? && 0 < i < |t.kids| && t.keys[i].rank <= k
    ensures AllBelow(Flat(t.kids[..i]), k)
  {
    var a := Flat(t.kids[..i]);
    Around(t.kids, i);
    assert Separates(t.keys[i], t.kids[i - 1], t.kids[i]);
    FlatAt(t.kids, i - 1);
    assert a[|a| - 1].key.rank < k;
  }

  lemma RightAbove(t: Tree, k: int, i: nat)
    requires WellFormed(t) && t.Branch? && 0 <= i < |t.kids| - 1 && k < t.keys[i + 1].rank
    ensures AllAbove(Flat(t.kids[i + 1..]), k)
  {
    var c := Flat(t.kids[i + 1..]);
    Around(t.kids, i);
    assert Separates(t.keys[i + 1], t.kids[i], t.kids[i + 1]);
    FlatAt(t.kids, i + 1);
    assert k < c[0].key.rank;
  }
}
