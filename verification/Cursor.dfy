/**
 Cursors of mdb.c: a stack of pages and indices into a tree.  Every move is stated by the
 position it leads to in the sequence of all entries.
 */
module Cursor {
  import opened BTree

  const CURSOR_STACK: nat := 32

  ghost predicate Linked(p: Tree, k: nat, q: Tree) {
    p.Branch? && k < |p.kids| && q == p.kids[k]
  }

  /** The first n pages lead down from the root, each by the index beside it. */
  ghost predicate Stacked(root: Tree, pg: seq<Tree>, ki: seq<nat>, n: nat) {
    && 1 <= n <= |pg| == |ki| && pg[0] == root
    && forall i :: 0 <= i < n - 1 ==> Linked(pg[i], ki[i], pg[i + 1])
  }

  /** How many entries lie before the page on top. */
  ghost function Start(pg: seq<Tree>, ki: seq<nat>, n: nat): nat
    requires 1 <= n <= |pg| == |ki|
    requires forall i :: 0 <= i < n - 1 ==> Linked(pg[i], ki[i], pg[i + 1])
  {
    if n == 1 then 0 else
      assert Linked(pg[n - 2], ki[n - 2], pg[n - 1]);
      Start(pg, ki, n - 1) + |Flat(pg[n - 2].kids[..ki[n - 2]])|
  }

  lemma {:induction false} StartFrame(pg: seq<Tree>, ki: seq<nat>, pg': seq<Tree>, ki': seq<nat>, n: nat)
    requires 1 <= n <= |pg| == |ki| && n <= |pg'| == |ki'|
    requires forall i :: 0 <= i < n - 1 ==> Linked(pg[i], ki[i], pg[i + 1])
    requires (forall i :: 0 <= i < n ==> pg'[i] == pg[i]) && (forall i :: 0 <= i < n - 1 ==> ki'[i] == ki[i])
    ensures forall i :: 0 <= i < n - 1 ==> Linked(pg'[i], ki'[i], pg'[i + 1])
    ensures Start(pg', ki', n) == Start(pg, ki, n)
  {
    if n > 1 { StartFrame(pg, ki, pg', ki', n - 1); }
  }

  /** Every page on the stack is well-formed, and the heights count down. */
  lemma {:induction false} PageWellFormed(root: Tree, pg: seq<Tree>, ki: seq<nat>, n: nat)
    requires WellFormed(root) && Stacked(root, pg, ki, n)
    ensures WellFormed(pg[n - 1]) && Height(pg[n - 1]) + n - 1 == Height(root)
  {
    hide WellFormed, Height;
    if n > 1 {
      assert Linked(pg[n - 2], ki[n - 2], pg[n - 1]);
      PageWellFormed(root, pg, ki, n - 1);
      KidWellFormed(pg[n - 2], ki[n - 2]);
    }
  }

  /** The top page's entries are the stretch of all entries from Start on. */
  lemma {:induction false} Located(root: Tree, pg: seq<Tree>, ki: seq<nat>, n: nat)
    returns (a: seq<Entry>, c: seq<Entry>)
    requires Stacked(root, pg, ki, n)
    ensures Entries(root) == a + Entries(pg[n - 1]) + c && |a| == Start(pg, ki, n)
  {
    hide Flat;
    if n == 1 {
      a, c := [], [];
    } else {
      a, c := Located(root, pg, ki, n - 1);
      var p, k := pg[n - 2], ki[n - 2];
      assert Linked(p, k, pg[n - 1]);
      FlatAt(p.kids, k);
      var l, m, r := Flat(p.kids[..k]), Entries(p.kids[k]), Flat(p.kids[k + 1..]);
      assert a + (l + (m + r)) + c == (a + l) + m + (r + c);
      a, c := a + l, r + c;
    }
  }

  // ----- sibling moves -----------------------------------------------------------------------

  /** pg and ki after stepping to child k of the page at n - 2 and pushing it. */
  lemma Pushed(root: Tree, pg: seq<Tree>, ki: seq<nat>, n: nat, i: nat)
    requires 2 <= n <= |pg| && Stacked(root, pg, ki, n - 1) && pg[n - 2].Branch?
    requires ki[n - 2] < |pg[n - 2].kids|
    ensures var pg' := pg[n - 1 := pg[n - 2].kids[ki[n - 2]]];
      && Stacked(root, pg', ki[n - 1 := i], n)
      && Start(pg', ki[n - 1 := i], n) == Start(pg, ki, n - 1) + |Flat(pg[n - 2].kids[..ki[n - 2]])|
  {
    var pg', ki' := pg[n - 1 := pg[n - 2].kids[ki[n - 2]]], ki[n - 1 := i];
    StartFrame(pg, ki, pg', ki', n - 1);
    assert Linked(pg'[n - 2], ki'[n - 2], pg'[n - 1]);
  }

  lemma SizeUpTo(ts: seq<Tree>, k: nat)
    requires k < |ts|
    ensures |Flat(ts[..k + 1])| == |Flat(ts[..k])| + |Entries(ts[k])|
    ensures k + 1 == |ts| ==> |Flat(ts)| == |Flat(ts[..k])| + |Entries(ts[k])|
    ensures |Flat(ts[..0])| == 0
  {
    FlatAt(ts, k);
    if k + 1 == |ts| { assert ts[..k + 1] == ts; }
  }

  /** What a move to the neighbouring page at level n does to the stack. */
  ghost predicate Moved(root: Tree, right: bool, found: bool, pg: seq<Tree>, ki: seq<nat>, pg': seq<Tree>,
                        ki': seq<nat>, n: nat)
    requires Stacked(root, pg, ki, n)
  {
    && Stacked(root, pg', ki', n)
    && if !found then
         pg' == pg && ki' == ki &&
         if right then Start(pg, ki, n) + |Entries(pg[n - 1])| == |Entries(root)| else Start(pg, ki, n) == 0
       else if right then
         Start(pg', ki', n) == Start(pg, ki, n) + |Entries(pg[n - 1])| && ki'[n - 1] == 0
       else
         Start(pg', ki', n) + |Entries(pg'[n - 1])| == Start(pg, ki, n) && ki'[n - 1] + 1 == NumKeys(pg'[n - 1])
  }

  /** At the root there is no neighbour. */
  lemma MoveFails0(root: Tree, right: bool, pg: seq<Tree>, ki: seq<nat>)
    requires Stacked(root, pg, ki, 1)
    ensures Moved(root, right, false, pg, ki, pg, ki, 1)
  {
  }

  /** No neighbour one level up and none within the parent. */
  lemma MoveFails(root: Tree, right: bool, pg: seq<Tree>, ki: seq<nat>, n: nat)
    requires 2 <= n && Stacked(root, pg, ki, n) && Stacked(root, pg, ki, n - 1)
    requires Moved(root, right, false, pg, ki, pg, ki, n - 1)
    requires if right then ki[n - 2] + 1 >= NumKeys(pg[n - 2]) else ki[n - 2] == 0
    requires WellFormed(pg[n - 2])
    ensures Moved(root, right, false, pg, ki, pg, ki, n)
  {
    hide Flat;
    assert Linked(pg[n - 2], ki[n - 2], pg[n - 1]);
    SizeUpTo(pg[n - 2].kids, ki[n - 2]);
  }

  /** A step within the parent. */
  lemma MoveWithin(root: Tree, right: bool, pg: seq<Tree>, ki: seq<nat>, n: nat, k: nat, i: nat)
    requires 2 <= n && Stacked(root, pg, ki, n) && Linked(pg[n - 2], ki[n - 2], pg[n - 1]) && k < |pg[n - 2].kids|
    requires if right then k == ki[n - 2] + 1 && i == 0 else k + 1 == ki[n - 2] && i + 1 == NumKeys(pg[n - 2].kids[k])
    ensures Moved(root, right, true, pg, ki, pg[n - 1 := pg[n - 2].kids[k]], ki[n - 2 := k][n - 1 := i], n)
  {
    hide Flat;
    var ki1 := ki[n - 2 := k];
    StartFrame(pg, ki, pg, ki1, n - 1);
    Pushed(root, pg, ki1, n, i);
    SizeUpTo(pg[n - 2].kids, if right then ki[n - 2] else k);
  }

  /** A step of the parent to its neighbour, then down to that page's first or last child. */
  lemma MoveAcross(root: Tree, right: bool, pg: seq<Tree>, ki: seq<nat>, pg1: seq<Tree>, ki1: seq<nat>, n: nat, i: nat)
    requires 2 <= n && Stacked(root, pg, ki, n) && Stacked(root, pg, ki, n - 1)
    requires Linked(pg[n - 2], ki[n - 2], pg[n - 1])
    requires |pg1| == |pg| && Moved(root, right, true, pg, ki, pg1, ki1, n - 1)
    requires WellFormed(pg[n - 2]) && WellFormed(pg1[n - 2]) && pg1[n - 2].Branch? && ki1[n - 2] < |pg1[n - 2].kids|
    requires if right then ki[n - 2] + 1 >= NumKeys(pg[n - 2]) && i == 0
      else ki[n - 2] == 0 && i + 1 == NumKeys(pg1[n - 2].kids[ki1[n - 2]])
    ensures Moved(root, right, true, pg, ki, pg1[n - 1 := pg1[n - 2].kids[ki1[n - 2]]], ki1[n - 1 := i], n)
  {
    hide Flat;
    Pushed(root, pg1, ki1, n, i);
    SizeUpTo(pg[n - 2].kids, ki[n - 2]);
    SizeUpTo(pg1[n - 2].kids, ki1[n - 2]);
  }

  // ----- descent ------------------------------------------------------------------------------

  datatype Rc = Success | NotFound | CursorFull | BadValSize

  datatype Target = ToKey(k: int) | ToFirst | ToLast

  /** The entries of t are those from start on; all before are below k and all after are above. */
  ghost predicate Carries(root: Tree, t: Tree, start: nat, k: int) {
    var es, ts := Entries(root), Entries(t);
    && start + |ts| <= |es| && es[start..start + |ts|] == ts
    && AllBelow(es[..start], k) && AllAbove(es[start + |ts|..], k)
  }

  lemma RankCarries(root: Tree, t: Tree, start: nat, k: int, r: nat)
    requires Carries(root, t, start, k) && IsRank(Entries(t), k, r)
    ensures IsRank(Entries(root), k, start + r)
  {
    var es, ts := Entries(root), Entries(t);
    RankParts(es[..start], ts, es[start + |ts|..], k, r);
    assert es[..start] + ts + es[start + |ts|..] == es;
  }

  lemma CarriesDown(es: seq<Entry>, start: nat, k: int, l: seq<Entry>, m: seq<Entry>, r: seq<Entry>)
    requires start + |l + m + r| <= |es| && es[start..start + |l + m + r|] == l + m + r
    requires AllBelow(es[..start], k) && AllAbove(es[start + |l + m + r|..], k) && AllBelow(l, k) && AllAbove(r, k)
    ensures es[start + |l|..start + |l| + |m|] == m
    ensures AllBelow(es[..start + |l|], k) && AllAbove(es[start + |l| + |m|..], k)
  {
    var ts := l + m + r;
    assert forall j :: start <= j < start + |ts| ==> es[j] == ts[j - start];
  }

  /** The target lies in t, whose entries begin at start. */
  ghost predicate Aims(root: Tree, target: Target, t: Tree, start: nat) {
    match target
    case ToKey(k) => Carries(root, t, start, k)
    case ToFirst => start == 0
    case ToLast => start + |Entries(t)| == |Entries(root)|
  }

  lemma AimsAtRoot(root: Tree, target: Target)
    ensures Aims(root, target, root, 0)
  {
  }

  lemma AimsDown(root: Tree, target: Target, t: Tree, start: nat, i: nat)
    requires WellFormed(t) && t.Branch? && Aims(root, target, t, start) && i < |t.kids|
    requires match target case ToKey(k) => Enters(t, k, i) case ToFirst => i == 0 case ToLast => i + 1 == |t.kids|
    ensures Aims(root, target, t.kids[i], start + |Flat(t.kids[..i])|)
  {
    hide Flat, WellFormed;
    match target
    case ToKey(k) =>
      EntersBetween(t, k, i);
      CarriesDown(Entries(root), start, k, Flat(t.kids[..i]), Entries(t.kids[i]), Flat(t.kids[i + 1..]));
    case _ => SizeUpTo(t.kids, i);
  }

  /** A key between the first and the last of a leaf has its place in that leaf. */
  lemma LeafCarries(root: Tree, pg: seq<Tree>, ki: seq<nat>, n: nat, k: int)
    requires WellFormed(root) && Stacked(root, pg, ki, n) && pg[n - 1].Leaf? && pg[n - 1].entries != []
    requires var es := pg[n - 1].entries; es[0].key.rank <= k <= es[|es| - 1].key.rank
    ensures Carries(root, pg[n - 1], Start(pg, ki, n), k)
  {
    hide Start, Shape, Flat;
    var a, c := Located(root, pg, ki, n);
    var es := pg[n - 1].entries;
    SortedPart(a, es, c);
    var all := Entries(root);
    assert all[..|a|] == a && all[|a|..|a| + |es|] == es && all[|a| + |es|..] == c;
  }

  /** The page at level n - 1 within its parent, by numbers of entries. */
  lemma OneUp(root: Tree, pg: seq<Tree>, ki: seq<nat>, n: nat) returns (before: nat, after: nat)
    requires WellFormed(root) && Stacked(root, pg, ki, n) && 2 <= n
    ensures Start(pg, ki, n) == Start(pg, ki, n - 1) + before
    ensures |Entries(pg[n - 2])| == before + |Entries(pg[n - 1])| + after
    ensures if ki[n - 2] + 1 < NumKeys(pg[n - 2]) then after > 0 else after == 0
  {
    hide Flat, WellFormed, Shape;
    var p, k := pg[n - 2], ki[n - 2];
    assert Linked(p, k, pg[n - 1]);
    PageWellFormed(root, pg, ki, n - 1);
    BranchKids(p);
    before, after := |Flat(p.kids[..k])|, |Flat(p.kids[k + 1..])|;
    FlatAt(p.kids, k);
    if k + 1 < |p.kids| {
      FlatAt(p.kids, k + 1);
      KidWellFormed(p, k + 1);
    } else {
      assert p.kids[k + 1..] == [];
      FlatNone();
    }
  }

  /** With no right neighbour at any level the leaf is the last one. */
  lemma {:induction false} Rightmost(root: Tree, pg: seq<Tree>, ki: seq<nat>, n: nat)
    requires WellFormed(root) && Stacked(root, pg, ki, n)
    requires forall i :: 0 <= i < n - 1 ==> ki[i] + 1 >= NumKeys(pg[i])
    ensures Start(pg, ki, n) + |Entries(pg[n - 1])| == |Entries(root)|
  {
    hide Flat, WellFormed, Entries;
    if n > 1 {
      Rightmost(root, pg, ki, n - 1);
      var before, after := OneUp(root, pg, ki, n);
    }
  }

  /** With a right neighbour at some level, entries follow. */
  lemma {:induction false} NotRightmost(root: Tree, pg: seq<Tree>, ki: seq<nat>, n: nat, i: nat)
    requires WellFormed(root) && Stacked(root, pg, ki, n) && i < n - 1 && ki[i] + 1 < NumKeys(pg[i])
    ensures Start(pg, ki, n) + |Entries(pg[n - 1])| < |Entries(root)|
  {
    hide Flat, WellFormed, Entries;
    var before, after := OneUp(root, pg, ki, n);
    if i < n - 2 {
      NotRightmost(root, pg, ki, n - 1, i);
    } else {
      var a, c := Located(root, pg, ki, n - 1);
    }
  }

  /** Above the last key of the last leaf there is nothing. */
  lemma BeyondLast(root: Tree, pg: seq<Tree>, ki: seq<nat>, n: nat, k: int)
    requires WellFormed(root) && Stacked(root, pg, ki, n) && pg[n - 1].Leaf? && pg[n - 1].entries != []
    requires Start(pg, ki, n) + |Entries(pg[n - 1])| == |Entries(root)|
    requires var es := pg[n - 1].entries; es[|es| - 1].key.rank < k
    ensures IsRank(Entries(root), k, |Entries(root)|)
  {
    hide Start, Shape, Flat;
    var a, c := Located(root, pg, ki, n);
    var es := pg[n - 1].entries;
    SortedPart(a, es, c);
    assert c == [];
    assert Entries(root)[|Entries(root)| - 1] == es[|es| - 1];
  }

  /** Found or not found as the map has it: the first key not below k, and k itself unless a range is asked for. */
  ghost predicate Answers(es: seq<Entry>, k: int, range: bool, found: bool) {
    forall r: nat :: IsRank(es, k, r) ==> (found <==> r < |es| && (range || es[r].key.rank == k))
  }

  lemma AnswersAt(es: seq<Entry>, k: int, range: bool, r: nat)
    requires IsRank(es, k, r)
    ensures Answers(es, k, range, r < |es| && (range || es[r].key.rank == k))
  {
    forall q: nat | IsRank(es, k, q) ensures q == r { RankUnique(es, k, r, q); }
  }

  lemma RankInLeaf(es: seq<Entry>, k: int, i: nat)
    requires i <= |es| && (forall j :: 0 <= j < i ==> KeyAt(Leaf(es), j).rank < k)
    requires forall j :: i <= j < |es| ==> k <= KeyAt(Leaf(es), j).rank
    ensures IsRank(es, k, i)
  {
    forall j | 0 <= j < i ensures es[j].key.rank < k { assert KeyAt(Leaf(es), j).rank < k; }
    forall j | i <= j < |es| ensures k <= es[j].key.rank { assert k <= KeyAt(Leaf(es), j).rank; }
  }

  /** Where the sorted entries contain k. */
  lemma RankOfKey(es: seq<Entry>, i: nat)
    requires Sorted(es) && i < |es|
    ensures IsRank(es, es[i].key.rank, i)
  {
  }

  lemma RankUnique(es: seq<Entry>, k: int, r: nat, q: nat)
    requires IsRank(es, k, r) && IsRank(es, k, q)
    ensures r == q
  {
    assert r < |es| ==> k <= es[r].key.rank;
    assert q < |es| ==> k <= es[q].key.rank;
  }

  class Cursor {
    const root: Tree
    const pg: array<Tree>
    const ki: array<nat>
    var snum: nat
    var initialized: bool
    var eof: bool

    constructor (root: Tree)
      ensures this.root == root && !initialized && !eof && snum == 0
      ensures fresh(pg) && fresh(ki) && pg.Length == ki.Length == CURSOR_STACK
    {
      this.root := root;
      pg := new Tree[CURSOR_STACK](_ => Leaf([]));
      ki := new nat[CURSOR_STACK];
      snum, initialized, eof := 0, false, false;
    }

    ghost predicate OnStack()
      reads this, pg, ki
    {
      pg.Length == ki.Length == CURSOR_STACK && WellFormed(root) && Stacked(root, pg[..], ki[..], snum)
    }

    /** A cursor as its user finds it: unset, or on some leaf, perhaps one past its entries. */
    ghost predicate Ready()
      reads this, pg, ki
    {
      && pg.Length == ki.Length == CURSOR_STACK && (root == Leaf([]) || WellFormed(root))
      && (eof ==> initialized)
      && (initialized ==> OnLeaf() && ki[snum - 1] <= NumKeys(pg[snum - 1]))
      && (eof ==> LeafStart() + |pg[snum - 1].entries| == |Entries(root)|)
    }

    ghost predicate OnLeaf()
      reads this, pg, ki
    {
      OnStack() && pg[snum - 1].Leaf?
    }

    ghost function LeafStart(): nat
      reads this, pg, ki
      requires OnStack()
    {
      Start(pg[..], ki[..], snum)
    }

    /** The index of the current entry among all entries. */
    ghost function Position(): nat
      reads this, pg, ki
      requires OnStack()
    {
      LeafStart() + ki[snum - 1]
    }

    /** The cursor is on an entry. */
    ghost predicate At()
      reads this, pg, ki
    {
      Ready() && initialized && ki[snum - 1] < NumKeys(pg[snum - 1])
    }

    /** mdb_page_search and mdb_page_search_root: down from the root to the leaf for the target. */
    method Search(target: Target) returns (rc: Rc)
      requires pg.Length == ki.Length == CURSOR_STACK && (root == Leaf([]) || WellFormed(root))
      modifies this, pg, ki
      ensures rc == NotFound <==> root == Leaf([])
      ensures rc == CursorFull <==> root != Leaf([]) && Height(root) >= CURSOR_STACK
      ensures rc == NotFound || rc == CursorFull || rc == Success
      ensures rc == Success ==> OnLeaf() && initialized && !eof && Aims(root, target, pg[snum - 1], LeafStart())
      ensures rc != Success ==> initialized == old(initialized) && eof == old(eof)
    {
      hide WellFormed, Height, Flat, Aims;
      if root == Leaf([]) { return NotFound; }
      pg[0], snum := root, 1;
      AimsAtRoot(root, target);
      while pg[snum - 1].Branch?
        invariant OnStack() && Aims(root, target, pg[snum - 1], LeafStart())
        invariant initialized == old(initialized) && eof == old(eof)
        decreases pg[snum - 1]
      {
        var full := Descend(target);
        if full { return CursorFull; }
      }
      PageWellFormed(root, pg[..], ki[..], snum);
      LowEnough(pg[snum - 1]);
      initialized, eof := true, false;
      return Success;
    }

    /** One level down towards the target. */
    method Descend(target: Target) returns (full: bool)
      requires OnStack() && pg[snum - 1].Branch? && Aims(root, target, pg[snum - 1], LeafStart())
      modifies this`snum, pg, ki
      ensures full ==> Height(root) >= CURSOR_STACK
      ensures !full ==> OnStack() && Aims(root, target, pg[snum - 1], LeafStart()) && pg[snum - 1] < old(pg[snum - 1])
    {
      hide WellFormed, Height, Flat, Aims;
      ghost var p0, k0 := pg[..], ki[..];
      PageWellFormed(root, p0, k0, snum);
      BranchKids(pg[snum - 1]);
      var top, i := snum - 1, 0;
      match target {
        case ToKey(k) => i := ChildIndex(pg[top], k);
        case ToFirst => i := 0;
        case ToLast => i := NumKeys(pg[top]) - 1;
      }
      AimsDown(root, target, pg[top], LeafStart(), i);
      SetIndex(i);
      if snum >= CURSOR_STACK {
        TooHigh(pg[top]);
        return true;
      }
      Pushed(root, pg[..], ki[..], snum + 1, 0);
      Push(true);
      return false;
    }

    /** mdb_cursor_first. */
    method First() returns (rc: Rc)
      requires Ready()
      modifies this, pg, ki
      ensures Ready() && rc != BadValSize
      ensures rc == NotFound <==> root == Leaf([])
      ensures rc == CursorFull <==> root != Leaf([]) && Height(root) >= CURSOR_STACK
      ensures rc == Success ==> At() && !eof && Position() == 0
    {
      hide WellFormed, Height, Flat;
      if !initialized || snum != 1 {
        if initialized { LeafEntries(); }
        rc := Search(ToFirst);
        if rc != Success { return; }
      }
      LeafEntries();
      SetIndex(0);
      initialized, eof := true, false;
      return Success;
    }

    /** mdb_cursor_last. */
    method Last() returns (rc: Rc)
      requires Ready()
      modifies this, pg, ki
      ensures Ready() && rc != BadValSize
      ensures rc == NotFound <==> root == Leaf([])
      ensures rc == CursorFull <==> root != Leaf([]) && Height(root) >= CURSOR_STACK
      ensures rc == Success ==> At() && eof && Position() + 1 == |Entries(root)|
    {
      hide WellFormed, Height, Flat;
      if !eof {
        if !initialized || snum != 1 {
          if initialized { LeafEntries(); }
          rc := Search(ToLast);
          if rc != Success { return; }
        }
      }
      LeafEntries();
      SetIndex(NumKeys(pg[snum - 1]) - 1);
      initialized, eof := true, true;
      return Success;
    }

    /** Move within the page on top. */
    method SetIndex(i: nat)
      requires OnStack()
      modifies ki
      ensures OnStack() && LeafStart() == old(LeafStart()) && ki[..] == old(ki[..])[snum - 1 := i]
    {
      hide WellFormed, Flat;
      ghost var k0 := ki[..];
      ki[snum - 1] := i;
      StartFrame(pg[..], k0, pg[..], ki[..], snum);
    }

    /**
     mdb_cursor_set for MDB_SET and, with range, MDB_SET_RANGE.  From any state of the cursor the
     answer and the entry are those of the map: the shortcut for a cursor already on the right
     page and a fresh descent agree.
     */
    method Set(key: Key, range: bool) returns (rc: Rc)
      requires Ready()
      modifies this, pg, ki
      ensures Ready()
      ensures rc == BadValSize <==> key.len == 0
      ensures rc == CursorFull ==> Height(root) >= CURSOR_STACK
      ensures rc == Success || rc == NotFound ==> Answers(Entries(root), key.rank, range, rc == Success)
      ensures rc == Success ==> At() && !eof && IsRank(Entries(root), key.rank, Position())
    {
      hide WellFormed, Height, Flat, IsRank, Answers;
      if key.len == 0 { return BadValSize; }
      if initialized {
        var done;
        done, rc := Shortcut(key.rank, range);
        if done { return; }
        LeafEntries();
      }
      rc := Search(ToKey(key.rank));
      if rc != Success {
        NoEntries(key.rank, range);
        return;
      }
      rc := SetInLeaf(key.rank, range);
    }

    /** The key wanted is at index i of the current page. */
    method Land(k: int, i: nat, range: bool)
      requires Ready() && initialized && i < NumKeys(pg[snum - 1]) && pg[snum - 1].entries[i].key.rank == k
      modifies this`eof, ki
      ensures At() && !eof && IsRank(Entries(root), k, Position()) && Answers(Entries(root), k, range, true)
    {
      hide WellFormed, Flat, IsRank, Answers;
      OnThisLeaf(k, i, range);
      SetIndex(i);
      eof := false;
    }

    /** The cases settled without leaving the page the cursor is on. */
    method Shortcut(k: int, range: bool) returns (done: bool, rc: Rc)
      requires Ready() && initialized
      modifies this, pg, ki
      ensures Ready() && initialized && (rc == Success || rc == NotFound)
      ensures done ==> Answers(Entries(root), k, range, rc == Success)
      ensures done && rc == Success ==> At() && !eof && IsRank(Entries(root), k, Position())
    {
      hide WellFormed, Height, Flat, IsRank, Answers;
      LeafEntries();
      var top := snum - 1;
      var es, n := pg[top].entries, NumKeys(pg[top]);
      if k == es[0].key.rank {
        Land(k, 0, range);
        return true, Success;
      }
      if k > es[0].key.rank {
        if n > 1 {
          if k == es[n - 1].key.rank {
            Land(k, n - 1, range);
            return true, Success;
          }
          if k < es[n - 1].key.rank {
            if ki[top] < n && k == es[ki[top]].key.rank {
              Land(k, ki[top], range);
              return true, Success;
            }
            LeafCarries(root, pg[..], ki[..], snum, k);
            rc := SetInLeaf(k, range);
            return true, rc;
          }
        }
        var last := NoRightPages();
        if last {
          Nothing(k, range);
          SetIndex(n);
          return true, NotFound;
        }
      }
      if top == 0 {
        Foremost(k, range);
        SetIndex(0);
        if range {
          eof := false;
          return true, Success;
        }
        return true, NotFound;
      }
      return false, NotFound;
    }

    /** The common end: search the leaf, and go on to its neighbour when all its keys are below. */
    method SetInLeaf(k: int, range: bool) returns (rc: Rc)
      requires OnLeaf() && (root == Leaf([]) || WellFormed(root)) && initialized
      requires Carries(root, pg[snum - 1], LeafStart(), k)
      requires eof ==> LeafStart() + |pg[snum - 1].entries| == |Entries(root)|
      modifies this, pg, ki
      ensures Ready() && initialized && (rc == Success || rc == NotFound)
      ensures Answers(Entries(root), k, range, rc == Success)
      ensures rc == Success ==> At() && !eof && IsRank(Entries(root), k, Position())
    {
      hide WellFormed, Height, Flat, Answers, IsRank, Carries;
      var exact := SearchLeaf(k);
      Found(k, range);
      if !range && !exact { return NotFound; }
      if ki[snum - 1] == NumKeys(pg[snum - 1]) {
        ghost var p0, k0 := pg[..], ki[..];
        var found := Sibling(true);
        if !found { return NotFound; }
        StillLeaf(p0, k0);
        LeafEntries();
        InRange();
      }
      eof := false;
      return Success;
    }

    /** Binary search in the leaf on top; the cursor goes to the place of k. */
    method SearchLeaf(k: int) returns (exact: bool)
      requires OnLeaf() && Carries(root, pg[snum - 1], LeafStart(), k)
      modifies ki
      ensures OnLeaf() && LeafStart() == old(LeafStart()) && ki[snum - 1] <= NumKeys(pg[snum - 1])
      ensures IsRank(Entries(root), k, Position())
      ensures exact <==> ki[snum - 1] < NumKeys(pg[snum - 1]) && pg[snum - 1].entries[ki[snum - 1]].key.rank == k
    {
      hide WellFormed, Flat, IsRank;
      PageWellFormed(root, pg[..], ki[..], snum);
      PageOrdered(pg[snum - 1]);
      var i, e := NodeSearch(pg[snum - 1], k);
      RankInLeaf(pg[snum - 1].entries, k, i);
      RankCarries(root, pg[snum - 1], LeafStart(), k, i);
      SetIndex(i);
      return e;
    }

    lemma OnThisLeaf(k: int, i: nat, range: bool)
      requires OnLeaf() && i < NumKeys(pg[snum - 1]) && pg[snum - 1].entries[i].key.rank == k
      ensures IsRank(Entries(root), k, LeafStart() + i) && Answers(Entries(root), k, range, true)
    {
      hide Shape, Flat, Start, Answers, IsRank;
      var a, c := Located(root, pg[..], ki[..], snum);
      var es, j := Entries(root), LeafStart() + i;
      assert es[j] == pg[snum - 1].entries[i];
      RankOfKey(es, j);
      AnswersAt(es, k, range, j);
    }

    /** Past the last key of the last leaf there is no answer. */
    lemma Nothing(k: int, range: bool)
      requires OnLeaf() && pg[snum - 1].entries != [] && pg[snum - 1].entries[|pg[snum - 1].entries| - 1].key.rank < k
      requires LeafStart() + |pg[snum - 1].entries| == |Entries(root)|
      ensures Answers(Entries(root), k, range, false)
    {
      hide WellFormed, Flat, Answers, IsRank;
      BeyondLast(root, pg[..], ki[..], snum, k);
      AnswersAt(Entries(root), k, range, |Entries(root)|);
    }

    /** Before the first key of a tree of one leaf. */
    lemma Foremost(k: int, range: bool)
      requires OnLeaf() && snum == 1 && pg[0].entries != [] && k < pg[0].entries[0].key.rank
      ensures LeafStart() == 0 && IsRank(Entries(root), k, 0) && Answers(Entries(root), k, range, range)
    {
      hide Answers;
      var es := Entries(root);
      assert es == pg[0].entries;
      AnswersAt(es, k, range, 0);
    }

    lemma NoEntries(k: int, range: bool)
      ensures root == Leaf([]) ==> Answers(Entries(root), k, range, false)
    {
      if root == Leaf([]) { AnswersAt([], k, range, 0); }
    }

    /** What the place of k in the whole means for the answer. */
    lemma Found(k: int, range: bool)
      requires OnLeaf() && IsRank(Entries(root), k, Position()) && Carries(root, pg[snum - 1], LeafStart(), k)
      requires ki[snum - 1] <= NumKeys(pg[snum - 1])
      ensures Answers(Entries(root), k, range,
                      Position() < |Entries(root)| && (range || Entries(root)[Position()].key.rank == k))
      ensures ki[snum - 1] < NumKeys(pg[snum - 1]) ==>
        Position() < |Entries(root)| && Entries(root)[Position()] == pg[snum - 1].entries[ki[snum - 1]]
      ensures ki[snum - 1] == NumKeys(pg[snum - 1]) && Position() < |Entries(root)| ==>
        Entries(root)[Position()].key.rank > k
    {
      hide Answers, WellFormed, Flat;
      var es, p := Entries(root), Position();
      AnswersAt(es, k, range, p);
      assert ki[snum - 1] == NumKeys(pg[snum - 1]) && p < |es| ==> es[p] == es[p..][0];
      if ki[snum - 1] < NumKeys(pg[snum - 1]) { InRange(); }
    }

    /** Do all the pages above stand on their last entry? */
    method NoRightPages() returns (last: bool)
      requires OnLeaf()
      ensures last <==> LeafStart() + |pg[snum - 1].entries| == |Entries(root)|
    {
      var i := 0;
      while i < snum - 1 && ki[i] + 1 >= NumKeys(pg[i])
        invariant 0 <= i <= snum - 1 && forall j :: 0 <= j < i ==> ki[j] + 1 >= NumKeys(pg[j])
      {
        i := i + 1;
      }
      last := i == snum - 1;
      if last { Rightmost(root, pg[..], ki[..], snum); } else { NotRightmost(root, pg[..], ki[..], snum, i); }
    }

    /** A leaf on the stack has entries, and the tree fits the stack. */
    lemma LeafEntries()
      requires OnLeaf()
      ensures NumKeys(pg[snum - 1]) > 0 && Height(root) < CURSOR_STACK && root != Leaf([])
    {
      PageWellFormed(root, pg[..], ki[..], snum);
    }

    /** mdb_cursor_next: one entry on, or not found with the cursor where it was. */
    method Next() returns (rc: Rc)
      requires Ready() && initialized
      modifies this, pg, ki
      ensures Ready() && initialized
      ensures var q := old(if ki[snum - 1] < NumKeys(pg[snum - 1]) then Position() + 1 else Position());
        && (rc == Success <==> !old(eof) && q < |Entries(root)|)
        && (rc == Success ==> At() && !eof && Position() == q)
        && (rc != Success ==>
          rc == NotFound && eof && pg[..] == old(pg[..]) && ki[..] == old(ki[..]) && snum == old(snum))
    {
      hide WellFormed, Height, Flat;
      if eof { return NotFound; }
      LeafEntries();
      ghost var p0, k0, s0 := pg[..], ki[..], snum;
      if ki[snum - 1] + 1 >= NumKeys(pg[snum - 1]) {
        var found := Sibling(true);
        if !found {
          eof := true;
          return NotFound;
        }
        StillLeaf(p0, k0);
        LeafEntries();
      } else {
        SetIndex(ki[snum - 1] + 1);
      }
      InRange();
      return Success;
    }

    /** mdb_cursor_prev. */
    method Prev() returns (rc: Rc)
      requires Ready() && initialized
      modifies this, pg, ki
      ensures Ready() && initialized
      ensures rc == Success <==> old(Position()) > 0
      ensures rc == Success ==> At() && !eof && Position() + 1 == old(Position())
      ensures rc != Success ==> rc == NotFound && pg[..] == old(pg[..]) && ki[..] == old(ki[..]) && snum == old(snum)
    {
      hide WellFormed, Height, Flat;
      LeafEntries();
      ghost var p0, k0 := pg[..], ki[..];
      if ki[snum - 1] == 0 {
        var found := Sibling(false);
        if !found { return NotFound; }
        StillLeaf(p0, k0);
        LeafEntries();
        SetIndex(NumKeys(pg[snum - 1]) - 1);
      } else {
        SetIndex(ki[snum - 1] - 1);
      }
      eof := false;
      return Success;
    }

    /** The neighbour of a leaf is a leaf. */
    lemma StillLeaf(p0: seq<Tree>, k0: seq<nat>)
      requires OnStack() && Stacked(root, p0, k0, snum) && p0[snum - 1].Leaf?
      ensures OnLeaf()
    {
      PageWellFormed(root, pg[..], ki[..], snum);
      PageWellFormed(root, p0, k0, snum);
    }

    /** A position on a leaf entry is within the whole, and it is that entry. */
    lemma InRange()
      requires OnLeaf() && ki[snum - 1] < NumKeys(pg[snum - 1])
      ensures Position() < |Entries(root)| && Entries(root)[Position()] == pg[snum - 1].entries[ki[snum - 1]]
    {
      var a, c := Located(root, pg[..], ki[..], snum);
    }

    /** Replace the top page by its neighbour; without one, the stack is as it was. */
    method Sibling(right: bool) returns (found: bool)
      requires OnStack()
      modifies this`snum, pg, ki
      ensures snum == old(snum) && OnStack()
      ensures Moved(root, right, found, old(pg[..]), old(ki[..]), pg[..], ki[..], snum)
      decreases snum
    {
      hide WellFormed, Height, Moved, Flat;
      ghost var n, p0, k0 := snum, pg[..], ki[..];
      if snum < 2 {
        MoveFails0(root, right, p0, k0);
        return false;
      }
      snum := snum - 1;
      PageWellFormed(root, p0, k0, n - 1);
      var top := snum - 1;
      if if right then ki[top] + 1 >= NumKeys(pg[top]) else ki[top] == 0 {
        found := Sibling(right);
        if !found {
          Unmoved(root, right, p0, k0, pg[..], ki[..], n - 1);
          MoveFails(root, right, p0, k0, n);
          snum := snum + 1;
          return;
        }
        Across(right, p0, k0);
      } else {
        Within(right);
      }
      return true;
    }

    /** Down to the first or last child of the parent's neighbour. */
    method Across(right: bool, ghost p0: seq<Tree>, ghost k0: seq<nat>)
      requires OnStack() && snum + 1 <= |p0| == CURSOR_STACK && Stacked(root, p0, k0, snum)
      requires Stacked(root, p0, k0, snum + 1)
      requires Moved(root, right, true, p0, k0, pg[..], ki[..], snum)
      requires if right then k0[snum - 1] + 1 >= NumKeys(p0[snum - 1]) else k0[snum - 1] == 0
      modifies this`snum, pg, ki
      ensures snum == old(snum) + 1 && OnStack() && Moved(root, right, true, p0, k0, pg[..], ki[..], snum)
    {
      hide WellFormed, Height, Moved, Flat;
      ghost var n, p1, k1 := snum + 1, pg[..], ki[..];
      assert Linked(p0[n - 2], k0[n - 2], p0[n - 1]);
      PageWellFormed(root, p0, k0, n - 1);
      SameLevel(root, right, p0, k0, p1, k1, n);
      Push(right);
      MoveAcross(root, right, p0, k0, p1, k1, n, ki[n - 1]);
      MovedStack(root, right, p0, k0, pg[..], ki[..], n);
    }

    /** To the neighbour within the parent. */
    method Within(right: bool)
      requires 1 <= snum && pg.Length == ki.Length == CURSOR_STACK && WellFormed(root)
      requires Stacked(root, pg[..], ki[..], snum + 1)
      requires if right then ki[snum - 1] + 1 < NumKeys(pg[snum - 1]) else ki[snum - 1] > 0
      modifies this`snum, pg, ki
      ensures snum == old(snum) + 1 && OnStack()
      ensures Moved(root, right, true, old(pg[..]), old(ki[..]), pg[..], ki[..], snum)
    {
      hide WellFormed, Height, Moved, Flat;
      ghost var n, p0, k0 := snum + 1, pg[..], ki[..];
      assert Linked(p0[n - 2], k0[n - 2], p0[n - 1]);
      PageWellFormed(root, p0, k0, n - 1);
      BranchKids(p0[n - 2]);
      var top := snum - 1;
      ki[top] := if right then ki[top] + 1 else ki[top] - 1;
      Push(right);
      assert ki[..] == k0[n - 2 := ki[top]][n - 1 := ki[n - 1]];
      MoveWithin(root, right, p0, k0, n, ki[top], ki[n - 1]);
      MovedStack(root, right, p0, k0, pg[..], ki[..], n);
    }

    /** Fetch the child the index points to and put it on the stack. */
    method Push(right: bool)
      requires 1 <= snum < pg.Length == ki.Length && pg[snum - 1].Branch? && ki[snum - 1] < |pg[snum - 1].kids|
      requires NumKeys(pg[snum - 1].kids[ki[snum - 1]]) > 0
      modifies this`snum, pg, ki
      ensures snum == old(snum) + 1 && pg[..] == old(pg[..])[snum - 1 := old(pg[snum - 1].kids[ki[snum - 1]])]
      ensures ki[..] == old(ki[..])[snum - 1 := if right then 0 else NumKeys(pg[snum - 1]) - 1]
    {
      pg[snum] := pg[snum - 1].kids[ki[snum - 1]];
      ki[snum] := if right then 0 else NumKeys(pg[snum]) - 1;
      snum := snum + 1;
    }
  }

  /** First and then next until not found: every entry once, in order. */
  method WalkForward(c: Cursor) returns (out: seq<Entry>)
    requires c.Ready() && Height(c.root) < CURSOR_STACK
    modifies c, c.pg, c.ki
    ensures out == Entries(c.root)
  {
    hide WellFormed, Height, Flat;
    out := [];
    var rc := c.First();
    if rc == Success { c.InRange(); }
    while rc == Success
      invariant c.Ready() && (rc == Success ==> c.At() && !c.eof)
      invariant rc == Success ==> c.Position() < |Entries(c.root)| && out == Entries(c.root)[..c.Position()]
      invariant rc != Success ==> out == Entries(c.root)
      decreases rc == Success, if c.At() then |Entries(c.root)| - c.Position() else 0
    {
      rc, out := Step(c, out);
    }
  }

  /** One entry read, and on to the next. */
  method Step(c: Cursor, out: seq<Entry>) returns (rc: Rc, out': seq<Entry>)
    requires c.Ready() && c.At() && !c.eof && c.Position() < |Entries(c.root)| && out == Entries(c.root)[..c.Position()]
    modifies c, c.pg, c.ki
    ensures c.Ready() && (rc == Success ==> c.At() && !c.eof && c.Position() == old(c.Position()) + 1)
    ensures rc == Success ==> c.Position() < |Entries(c.root)| && out' == Entries(c.root)[..c.Position()]
    ensures rc != Success ==> out' == Entries(c.root)
  {
    hide WellFormed, Height, Flat;
    c.InRange();
    ghost var es, q := Entries(c.root), c.Position();
    out' := out + [c.pg[c.snum - 1].entries[c.ki[c.snum - 1]]];
    assert es[..q + 1] == es[..q] + [es[q]];
    rc := c.Next();
    assert es[..|es|] == es;
  }

  /** Last and then prev until not found: the exact reverse. */
  method WalkBackward(c: Cursor) returns (out: seq<Entry>)
    requires c.Ready() && Height(c.root) < CURSOR_STACK
    modifies c, c.pg, c.ki
    ensures |out| == |Entries(c.root)| && forall i :: 0 <= i < |out| ==> out[i] == Entries(c.root)[|out| - 1 - i]
  {
    hide WellFormed, Height, Flat;
    out := [];
    var rc := c.Last();
    ghost var n := |Entries(c.root)|;
    while rc == Success
      invariant c.Ready() && (rc == Success ==> c.At())
      invariant rc == Success ==> |out| + c.Position() + 1 == n
      invariant |out| <= n && forall i :: 0 <= i < |out| ==> out[i] == Entries(c.root)[n - 1 - i]
      invariant rc != Success ==> |out| == n
      decreases rc == Success, if c.At() then c.Position() else 0
    {
      c.InRange();
      out := out + [c.pg[c.snum - 1].entries[c.ki[c.snum - 1]]];
      rc := c.Prev();
    }
  }

  lemma TooHigh(t: Tree)
    requires WellFormed(t) && t.Branch?
    ensures Height(t) >= 1
  {
  }

  lemma LowEnough(t: Tree)
    requires t.Leaf?
    ensures Height(t) == 0
  {
  }

  lemma BranchKids(t: Tree)
    requires WellFormed(t) && t.Branch?
    ensures |t.kids| == |t.keys| >= 2 && forall i :: 0 <= i < |t.kids| ==> NumKeys(t.kids[i]) > 0
  {
    forall i | 0 <= i < |t.kids| ensures NumKeys(t.kids[i]) > 0 { assert Shape(t.kids[i]); }
  }

  /** The neighbour of a branch page is a branch page. */
  lemma SameLevel(root: Tree, right: bool, pg: seq<Tree>, ki: seq<nat>, pg': seq<Tree>, ki': seq<nat>, n: nat)
    requires WellFormed(root) && 2 <= n && Stacked(root, pg, ki, n) && Stacked(root, pg, ki, n - 1)
    requires Moved(root, right, true, pg, ki, pg', ki', n - 1)
    ensures var t := pg'[n - 2]; WellFormed(t) && t.Branch? && ki'[n - 2] < |t.kids| && NumKeys(t.kids[ki'[n - 2]]) > 0
  {
    assert Linked(pg[n - 2], ki[n - 2], pg[n - 1]);
    PageWellFormed(root, pg, ki, n - 1);
    PageWellFormed(root, pg', ki', n - 1);
    assert Height(pg[n - 2]) >= 1;
    BranchKids(pg'[n - 2]);
  }

  lemma MovedStack(root: Tree, right: bool, pg: seq<Tree>, ki: seq<nat>, pg': seq<Tree>, ki': seq<nat>, n: nat)
    requires Stacked(root, pg, ki, n) && Moved(root, right, true, pg, ki, pg', ki', n)
    ensures Stacked(root, pg', ki', n)
  {
  }

  lemma Unmoved(root: Tree, right: bool, pg: seq<Tree>, ki: seq<nat>, pg': seq<Tree>, ki': seq<nat>, n: nat)
    requires Stacked(root, pg, ki, n) && Moved(root, right, false, pg, ki, pg', ki', n)
    ensures pg' == pg && ki' == ki
  {
  }
}
