/**
 Storing and finding: what a lookup answers after an insertion, and that a tree's measure of a full page is that of
 the page itself.
 */
module Store {
  import opened Common
  import opened Octets
  import opened BTree
  import BTreeInsert
  import Cursor
  import PageSplit
  import SlottedPage

  /** The entry of a key among entries in order. */
  ghost predicate Finds(es: seq<Entry>, k: int, r: Option<Entry>) {
    match r
    case None => forall i :: 0 <= i < |es| ==> es[i].key.rank != k
    case Some(e) => e in es && e.key.rank == k
  }

  /** mdb_cursor_get with MDB_SET on a new cursor. */
  method Find(t: Tree, key: Key) returns (r: Option<Entry>)
    requires (t == Leaf([]) || WellFormed(t)) && Height(t) < Cursor.CURSOR_STACK && key.len > 0
    ensures Finds(Entries(t), key.rank, r)
  {
    hide WellFormed, Height, Flat, Finds;
    var c := new Cursor.Cursor(t);
    var rc := c.Set(key, false);
    if rc != Cursor.Success {
      NotThere(t, key.rank);
      return None;
    }
    c.InRange();
    r := Some(c.pg[c.snum - 1].entries[c.ki[c.snum - 1]]);
    There(t, key.rank, c.Position());
  }

  lemma NotThere(t: Tree, k: int)
    requires (t == Leaf([]) || WellFormed(t)) && Cursor.Answers(Entries(t), k, false, false)
    ensures Finds(Entries(t), k, None)
  {
    hide Flat, Shape, Entries;
    BTreeInsert.EntriesSorted(t);
    BTreeInsert.PlaceIsRank(Entries(t), k);
  }

  lemma There(t: Tree, k: int, p: nat)
    requires (t == Leaf([]) || WellFormed(t)) && Cursor.Answers(Entries(t), k, false, true)
    requires IsRank(Entries(t), k, p)
    ensures p < |Entries(t)| && Finds(Entries(t), k, Some(Entries(t)[p]))
  {
    hide Flat, Shape, Entries;
  }

  /** After an insertion the new entry is found under its key, and under every other key what was found before. */
  method PutThenFind(t: Tree, e: Entry, psize: nat, key: Key) returns (ok: bool, r: Option<Entry>)
    requires BTreeInsert.PageSize(psize) && (t == Leaf([]) || WellFormed(t)) && BTreeInsert.Fits(t, psize)
    requires BTreeInsert.Absent(Entries(t), e.key.rank) && e.key.len <= BTreeInsert.MAXKEYSIZE
    requires Height(t) + 1 < Cursor.CURSOR_STACK && key.len > 0
    ensures ok && key.rank == e.key.rank ==> r == Some(e)
    ensures ok && key.rank != e.key.rank ==> Finds(Entries(t), key.rank, r)
  {
    hide WellFormed, Height, Flat, BTreeInsert.Fits, BTreeInsert.Absent, Finds, BTreeInsert.Inserted;
    var t', more;
    ok, t', more := BTreeInsert.Put(t, e, psize);
    r := None;
    if ok {
      r := Find(t', key);
      FoundAfter(Entries(t), Entries(t'), e, key.rank, r);
    }
  }

  lemma FoundAfter(es: seq<Entry>, es': seq<Entry>, e: Entry, k: int, r: Option<Entry>)
    requires multiset(es') == multiset(es) + multiset{e} && BTreeInsert.Absent(es, e.key.rank) && Finds(es', k, r)
    ensures if k == e.key.rank then r == Some(e) else Finds(es, k, r)
  {
    forall x ensures x in es' <==> x in es || x == e { assert x in multiset(es') <==> x in multiset(es) || x == e; }
    assert e in es';
    if r == None {
      forall i | 0 <= i < |es| ensures es[i].key.rank != k { assert es[i] in es'; }
    }
  }

  // ----- the measure of a page ------------------------------------------------------------------------------

  /** Node and slot of each item. */
  function Spaces(its: seq<SlottedPage.Item>, psize: nat): (r: seq<nat>)
    ensures |r| == |its| && forall i :: 0 <= i < |its| ==> r[i] == SlottedPage.SpaceFor(its[i], psize) + 2
  {
    seq(|its|, i requires 0 <= i < |its| => SlottedPage.SpaceFor(its[i], psize) + 2)
  }

  ghost function Nodes(its: seq<SlottedPage.Item>, psize: nat, over: seq<byte>): seq<SlottedPage.Node>
    requires |over| == 8 && forall i :: 0 <= i < |its| ==> SlottedPage.Storable(its[i])
  {
    seq(|its|, i requires 0 <= i < |its| => SlottedPage.NodeOf(its[i], psize, over))
  }

  /** A new page takes all the items, one after the other, exactly when they fit together. */
  method FillPage(leaf: bool, its: seq<SlottedPage.Item>, psize: nat, over: seq<byte>)
    returns (ok: bool, p: SlottedPage.Page)
    requires 16 <= psize < 0x1_0000 && psize % 2 == 0 && |over| == 8
    requires forall i :: 0 <= i < |its| ==> SlottedPage.Storable(its[i]) && its[i].LeafItem? == leaf
    ensures fresh(p) && p.Valid() && p.mem.Length == psize && p.leaf == leaf
    ensures ok <==> PageSplit.Sum(Spaces(its, psize)) <= psize - 16
    ensures ok ==> p.nodes == Nodes(its, psize, over)
  {
    hide SlottedPage.Held, SlottedPage.NodeOf, SlottedPage.SpaceFor, PageSplit.Sum, SlottedPage.Total;
    p := new SlottedPage.Page(psize, leaf);
    ghost var rooms := Spaces(its, psize);
    NoRooms(rooms);
    for i := 0 to |its|
      invariant p.Valid() && fresh(p) && fresh(p.mem) && fresh(p.ptrs) && p.mem.Length == psize && p.leaf == leaf
      invariant |p.nodes| == i && p.nodes == Nodes(its[..i], psize, over)
      invariant 2 * i + SlottedPage.Total(p.nodes) == PageSplit.Sum(rooms[..i])
    {
      p.FreeSpace();
      PageSplit.SumSnoc(rooms, i);
      PageSplit.SumSplit(rooms, i + 1);
      ghost var was := p.nodes;
      var rc := p.Add(i, its[i], Some(over));
      if rc != SlottedPage.Success { return false, p; }
      SlottedPage.SpaceIsSize(its[i], psize, over);
      SlottedPage.TotalInsert(was, i, SlottedPage.NodeOf(its[i], psize, over));
    }
    p.FreeSpace();
    assert its[..|its|] == its && rooms[..|its|] == rooms;
    ok := true;
  }

  lemma NoRooms(rooms: seq<nat>)
    ensures PageSplit.Sum(rooms[..0]) == 0 && SlottedPage.Total([]) == 0
  {
  }

  /** The items of a leaf's entries: keys and data of those sizes. */
  ghost predicate LeafItems(es: seq<Entry>, its: seq<SlottedPage.Item>) {
    |its| == |es| && forall i :: 0 <= i < |es| ==>
      its[i].LeafItem? && its[i].flags % 2 == 0 && |its[i].key| == es[i].key.len && its[i].dsize == es[i].dsize
  }

  ghost predicate BranchItems(ks: seq<Key>, its: seq<SlottedPage.Item>) {
    |its| == |ks| && forall i :: 0 <= i < |ks| ==> its[i].BranchItem? && |its[i].key| == ks[i].len
  }

  /** What the tree counts for its pages is what the pages take. */
  lemma RoomsAreSpaces(es: seq<Entry>, ks: seq<Key>, its: seq<SlottedPage.Item>, psize: nat)
    ensures LeafItems(es, its) ==> BTreeInsert.LeafRooms(es, psize) == Spaces(its, psize)
    ensures BranchItems(ks, its) ==> BTreeInsert.BranchRooms(ks) == Spaces(its, psize)
    ensures BTreeInsert.PageMax(psize) == psize - 16
  {
  }
}
