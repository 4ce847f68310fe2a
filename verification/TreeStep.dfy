/**
 An insertion into the B+tree as a step of the page protocol.  A tree is placed on numbered pages; the pages of
 the descent have been copied before (they are dirty), a cut page keeps its number and its right part gets a new
 one.  The pages written are then exactly an edit of the protocol, whose trees stay whole.
 */
module TreeStep {
  import opened Common
  import opened BTree
  import opened BTreeInsert
  import FreeRefine
  import Mvcc

  datatype Placed = PLeaf(pg: nat, entries: seq<Entry>) | PBranch(pg: nat, keys: seq<Key>, kids: seq<Placed>)

  /** What is on a page besides the numbers it points to. */
  datatype Body = LeafBody(entries: seq<Entry>) | BranchBody(keys: seq<Key>)

  function Forget(t: Placed): Tree
    decreases t, 0
  {
    match t
    case PLeaf(_, es) => Leaf(es)
    case PBranch(_, keys, kids) => Branch(keys, ForgetAll(kids))
  }

  function ForgetAll(ts: seq<Placed>): (r: seq<Tree>)
    ensures |r| == |ts|
    decreases ts, |ts|
  {
    if ts == [] then [] else ForgetAll(ts[..|ts| - 1]) + [Forget(ts[|ts| - 1])]
  }

  /** The page numbers of a tree. */
  ghost function Nums(t: Placed): set<nat>
    decreases t, 0
  {
    {t.pg} + if t.PLeaf? then {} else NumsAll(t.kids)
  }

  ghost function NumsAll(ts: seq<Placed>): set<nat>
    decreases ts, |ts|
  {
    if ts == [] then {} else NumsAll(ts[..|ts| - 1]) + Nums(ts[|ts| - 1])
  }

  /** No page number is used twice. */
  ghost predicate Apart(t: Placed)
    decreases t, 0
  {
    t.PBranch? ==> t.pg !in NumsAll(t.kids) && ApartAll(t.kids)
  }

  ghost predicate ApartAll(ts: seq<Placed>)
    decreases ts, |ts|
  {
    ts != [] ==> ApartAll(ts[..|ts| - 1]) && Apart(ts[|ts| - 1]) && NumsAll(ts[..|ts| - 1]) !! Nums(ts[|ts| - 1])
  }

  function Roots(ts: seq<Placed>): (r: seq<nat>)
    ensures |r| == |ts| && forall i :: 0 <= i < |ts| ==> r[i] == ts[i].pg
  {
    seq(|ts|, i requires 0 <= i < |ts| => ts[i].pg)
  }

  ghost function PageOf(t: Placed, pay: Body -> int): Mvcc.Page {
    match t
    case PLeaf(_, es) => Mvcc.Page([], pay(LeafBody(es)))
    case PBranch(_, keys, kids) => Mvcc.Page(Roots(kids), pay(BranchBody(keys)))
  }

  /** The pages hold the tree. */
  ghost predicate Holds(pages: map<nat, Mvcc.Page>, t: Placed, pay: Body -> int)
    decreases t, 0
  {
    t.pg in pages && pages[t.pg] == PageOf(t, pay) && (t.PBranch? ==> HoldsAll(pages, t.kids, pay))
  }

  ghost predicate HoldsAll(pages: map<nat, Mvcc.Page>, ts: seq<Placed>, pay: Body -> int)
    decreases ts, |ts|
  {
    ts != [] ==> HoldsAll(pages, ts[..|ts| - 1], pay) && Holds(pages, ts[|ts| - 1], pay)
  }

  // ----- forests ---------------------------------------------------------------------------------------

  lemma Snoc<T>(a: seq<T>, b: seq<T>)
    requires b != []
    ensures (a + b)[..|a + b| - 1] == a + b[..|b| - 1] && (a + b)[|a + b| - 1] == b[|b| - 1]
  {
  }

  lemma {:induction false} ForgetAppend(a: seq<Placed>, b: seq<Placed>)
    ensures ForgetAll(a + b) == ForgetAll(a) + ForgetAll(b)
    decreases |b|
  {
    if b == [] {
      assert a + b == a;
    } else {
      Snoc(a, b);
      ForgetAppend(a, b[..|b| - 1]);
    }
  }

  lemma {:induction false} NumsAppend(a: seq<Placed>, b: seq<Placed>)
    ensures NumsAll(a + b) == NumsAll(a) + NumsAll(b)
    decreases |b|
  {
    if b == [] {
      assert a + b == a;
    } else {
      Snoc(a, b);
      NumsAppend(a, b[..|b| - 1]);
    }
  }

  lemma {:induction false} ApartAppend(a: seq<Placed>, b: seq<Placed>)
    ensures ApartAll(a + b) <==> ApartAll(a) && ApartAll(b) && NumsAll(a) !! NumsAll(b)
    decreases |b|
  {
    hide Apart, Nums;
    if b == [] {
      assert a + b == a;
    } else {
      Snoc(a, b);
      ApartAppend(a, b[..|b| - 1]);
      NumsAppend(a, b[..|b| - 1]);
    }
  }

  lemma {:induction false} HoldsAppend(pages: map<nat, Mvcc.Page>, a: seq<Placed>, b: seq<Placed>, pay: Body -> int)
    ensures HoldsAll(pages, a + b, pay) <==> HoldsAll(pages, a, pay) && HoldsAll(pages, b, pay)
    decreases |b|
  {
    hide Holds;
    if b == [] {
      assert a + b == a;
    } else {
      Snoc(a, b);
      HoldsAppend(pages, a, b[..|b| - 1], pay);
    }
  }

  /** A tree is held by any pages that agree on its numbers. */
  lemma {:induction false} HoldsSame(pages: map<nat, Mvcc.Page>, pages': map<nat, Mvcc.Page>, t: Placed,
                                     pay: Body -> int)
    requires Holds(pages, t, pay) && forall q :: q in Nums(t) && q in pages ==> q in pages' && pages'[q] == pages[q]
    ensures Holds(pages', t, pay)
    decreases t, 0
  {
    hide PageOf;
    if t.PBranch? { HoldsAllSame(pages, pages', t.kids, pay); }
  }

  lemma {:induction false} HoldsAllSame(pages: map<nat, Mvcc.Page>, pages': map<nat, Mvcc.Page>, ts: seq<Placed>,
                                        pay: Body -> int)
    requires HoldsAll(pages, ts, pay)
    requires forall q :: q in NumsAll(ts) && q in pages ==> q in pages' && pages'[q] == pages[q]
    ensures HoldsAll(pages', ts, pay)
    decreases ts, |ts|
  {
    hide PageOf;
    if ts != [] {
      HoldsAllSame(pages, pages', ts[..|ts| - 1], pay);
      HoldsSame(pages, pages', ts[|ts| - 1], pay);
    }
  }

  /** Different contents have different payloads. */
  ghost predicate Injective(pay: Body -> int) {
    forall a, b :: pay(a) == pay(b) ==> a == b
  }

  /** Pages and a root determine the tree: every page says what it is and in which order its children are. */
  lemma {:induction false} HeldOnce(pages: map<nat, Mvcc.Page>, t: Placed, u: Placed, pay: Body -> int)
    requires Injective(pay) && Holds(pages, t, pay) && Holds(pages, u, pay) && t.pg == u.pg
    ensures t == u
    decreases t, 0
  {
    hide HoldsAll, Injective;
    SamePage(t, u, pay);
    if t.PBranch? { HeldAllOnce(pages, t.kids, u.kids, pay); }
  }

  lemma {:induction false} HeldAllOnce(pages: map<nat, Mvcc.Page>, ts: seq<Placed>, us: seq<Placed>, pay: Body -> int)
    requires Injective(pay) && HoldsAll(pages, ts, pay) && HoldsAll(pages, us, pay) && Roots(ts) == Roots(us)
    ensures ts == us
    decreases ts, |ts|
  {
    hide Holds, Injective;
    assert |ts| == |Roots(ts)| == |us|;
    if ts != [] {
      var n := |ts| - 1;
      assert Roots(ts)[n] == ts[n].pg && Roots(us)[n] == us[n].pg;
      assert Roots(ts[..n]) == Roots(ts)[..n] && Roots(us[..n]) == Roots(us)[..n];
      HeldAllOnce(pages, ts[..n], us[..n], pay);
      HeldOnce(pages, ts[n], us[n], pay);
      assert ts == ts[..n] + [ts[n]] && us == us[..n] + [us[n]];
    }
  }

  lemma SamePage(t: Placed, u: Placed, pay: Body -> int)
    requires Injective(pay) && PageOf(t, pay) == PageOf(u, pay)
    ensures if t.PLeaf? then u.PLeaf? && u.entries == t.entries
      else u.PBranch? && u.keys == t.keys && Roots(u.kids) == Roots(t.kids)
  {
    var a := if t.PLeaf? then LeafBody(t.entries) else BranchBody(t.keys);
    var b := if u.PLeaf? then LeafBody(u.entries) else BranchBody(u.keys);
    assert pay(a) == pay(b);
  }

  // ----- insertion on pages ------------------------------------------------------------------------------

  datatype Outcome = Failed | One(t: Placed) | Two(left: Placed, sep: Key, right: Placed)

  function New(spare: seq<nat>, h: nat): nat {
    if h < |spare| then spare[h] else 0
  }

  ghost function Level(t: Placed): nat {
    Height(Forget(t))
  }

  /** A leaf with its new entry; the right part of a cut goes to a new page. */
  ghost function LeafPut(pg: nat, all: seq<Entry>, i: nat, psize: nat, q: nat): Outcome
    requires i < |all|
  {
    var c := LeafClimb(all, i, psize);
    if c.Stays? then One(PLeaf(pg, all)) else if c.Stuck? then Failed else
      var s := LeafCutAt(all, i, psize);
      Two(PLeaf(pg, all[..s]), c.sep, PLeaf(q, all[s..]))
  }

  ghost function BranchPut(pg: nat, ks: seq<Key>, ts: seq<Placed>, i: nat, psize: nat, q: nat): Outcome
    requires 1 <= i < |ks| == |ts|
  {
    var c := BranchClimb(ks, i, psize);
    if c.Stays? then One(PBranch(pg, ks, ts)) else if c.Stuck? then Failed else
      var s := BranchCutAt(ks, i, psize);
      Two(PBranch(pg, ks[..s], ts[..s]), c.sep, PBranch(q, [NOKEY] + ks[s + 1..], ts[s..]))
  }

  /** The insertion on pages: new ones come from spare, one for each level. */
  ghost function Put(t: Placed, e: Entry, psize: nat, spare: seq<nat>): Outcome {
    match t
    case PLeaf(pg, es) =>
      var all, i := Inserted(es, e), Place(es, e.key.rank);
      if i < |all| then LeafPut(pg, all, i, psize, New(spare, 0)) else One(t)
    case PBranch(pg, keys, kids) =>
      var i := ChildOf(keys, e.key.rank);
      if i >= |keys| || |keys| != |kids| then One(t) else
      PutAbove(pg, keys, kids, i, Put(kids[i], e, psize, spare), psize, New(spare, Level(t)))
  }

  ghost function PutAbove(pg: nat, keys: seq<Key>, kids: seq<Placed>, i: nat, sub: Outcome, psize: nat, q: nat): Outcome
    requires i < |keys| == |kids|
  {
    match sub
    case Failed => Failed
    case One(m) => One(PBranch(pg, keys, Replaced(kids, i, [m])))
    case Two(l, sep, r) => BranchPut(pg, keys[..i + 1] + [sep] + keys[i + 1..], Replaced(kids, i, [l, r]), i + 1,
                                     psize, q)
  }

  ghost function Parts(o: Outcome): seq<Placed> {
    match o case Failed => [] case One(t) => [t] case Two(l, _, r) => [l, r]
  }

  ghost function Wrote(o: Outcome, pay: Body -> int): map<nat, Mvcc.Page> {
    match o
    case Failed => map[]
    case One(t) => map[t.pg := PageOf(t, pay)]
    case Two(l, _, r) => map[l.pg := PageOf(l, pay), r.pg := PageOf(r, pay)]
  }

  /** The pages written, from the leaf up. */
  ghost function Writes(t: Placed, e: Entry, psize: nat, spare: seq<nat>, pay: Body -> int): map<nat, Mvcc.Page> {
    match t
    case PLeaf(_, _) => Wrote(Put(t, e, psize, spare), pay)
    case PBranch(_, keys, kids) =>
      var i := ChildOf(keys, e.key.rank);
      if i >= |keys| || |keys| != |kids| then map[] else
      Writes(kids[i], e, psize, spare, pay) + Wrote(Put(t, e, psize, spare), pay)
  }

  /** The pages of the descent. */
  ghost function Path(t: Placed, k: int): set<nat> {
    match t
    case PLeaf(pg, _) => {pg}
    case PBranch(pg, keys, kids) =>
      var i := ChildOf(keys, k);
      {pg} + if i < |kids| then Path(kids[i], k) else {}
  }

  // ----- it is the insertion -----------------------------------------------------------------------------

  ghost function ForgetOut(o: Outcome): BTreeInsert.Outcome {
    match o case Failed => Fail case One(t) => Grown(Forget(t)) case Two(l, sep, r) => Split(Forget(l), sep, Forget(r))
  }

  lemma {:induction false} ForgetAt(ts: seq<Placed>, i: nat)
    requires i < |ts|
    ensures ForgetAll(ts)[i] == Forget(ts[i]) && ForgetAll(ts[..i]) == ForgetAll(ts)[..i]
    ensures ForgetAll(ts[i..]) == ForgetAll(ts)[i..]
    ensures ForgetAll(ts[i + 1..]) == ForgetAll(ts)[i + 1..]
  {
    hide Forget;
    assert ts == ts[..i] + ts[i..] && ts[i..] == [ts[i]] + ts[i + 1..];
    ForgetAppend(ts[..i], ts[i..]);
    ForgetAppend([ts[i]], ts[i + 1..]);
    ForgetOne(ts[i]);
  }

  lemma ForgetOne(t: Placed)
    ensures ForgetAll([t]) == [Forget(t)]
  {
    assert [t][..0] == [];
  }

  lemma ForgetReplaced(ts: seq<Placed>, i: nat, us: seq<Placed>)
    requires i < |ts|
    ensures ForgetAll(Replaced(ts, i, us)) == Replaced(ForgetAll(ts), i, ForgetAll(us))
  {
    hide Forget, ForgetAll;
    ForgetAt(ts, i);
    ForgetAppend(ts[..i] + us, ts[i + 1..]);
    ForgetAppend(ts[..i], us);
  }

  lemma ForgetTwo(l: Placed, r: Placed)
    ensures ForgetAll([l, r]) == [Forget(l), Forget(r)]
  {
    hide Forget, ForgetAll;
    assert [l, r] == [l] + [r];
    ForgetAppend([l], [r]);
    ForgetOne(l);
    ForgetOne(r);
  }

  /** Without the page numbers it is the insertion into the tree. */
  lemma {:induction false} PutForgets(t: Placed, e: Entry, psize: nat, spare: seq<nat>)
    ensures ForgetOut(Put(t, e, psize, spare)) == After(Forget(t), e, psize)
  {
    hide Inserted, Place, LeafClimb, LeafCutAt, Level, PutAbove, Above, ForgetOut, ForgetAll;
    match t
    case PLeaf(pg, es) =>
      LeafForgets(pg, es, e, psize, New(spare, 0));
    case PBranch(pg, keys, kids) =>
      var i := ChildOf(keys, e.key.rank);
      if i < |keys| && |keys| == |kids| {
        PutForgets(kids[i], e, psize, spare);
        ForgetAt(kids, i);
        AboveForgets(pg, keys, kids, i, Put(kids[i], e, psize, spare), psize, New(spare, Level(t)));
      } else {
        assert ForgetOut(One(t)) == Grown(Forget(t)) by { ForgetsOne(t); }
      }
  }

  lemma ForgetsOne(t: Placed)
    ensures ForgetOut(One(t)) == Grown(Forget(t))
  {
  }

  lemma LeafForgets(pg: nat, es: seq<Entry>, e: Entry, psize: nat, q: nat)
    ensures var all, i := Inserted(es, e), Place(es, e.key.rank);
      if i < |all| then ForgetOut(LeafPut(pg, all, i, psize, q)) == LeafAfter(all, i, psize)
        else ForgetOut(One(PLeaf(pg, es))) == Grown(Leaf(es))
  {
    hide Inserted, Place, LeafClimb, LeafCutAt;
  }

  lemma AboveForgets(pg: nat, keys: seq<Key>, kids: seq<Placed>, i: nat, sub: Outcome, psize: nat, q: nat)
    requires i < |keys| == |kids|
    ensures ForgetOut(PutAbove(pg, keys, kids, i, sub, psize, q)) ==
      Above(keys, ForgetAll(kids), i, ForgetOut(sub), psize)
  {
    hide BranchPut, BranchAfter, ForgetAll;
    match sub
    case Failed =>
    case One(m) =>
      ForgetOne(m);
      ForgetReplaced(kids, i, [m]);
    case Two(l, sep, r) =>
      ForgetTwo(l, r);
      ForgetReplaced(kids, i, [l, r]);
      BranchForgets(pg, keys[..i + 1] + [sep] + keys[i + 1..], Replaced(kids, i, [l, r]), i + 1, psize, q);
  }

  lemma BranchForgets(pg: nat, ks: seq<Key>, ts: seq<Placed>, i: nat, psize: nat, q: nat)
    requires 1 <= i < |ks| == |ts|
    ensures ForgetOut(BranchPut(pg, ks, ts, i, psize, q)) == BranchAfter(ks, ForgetAll(ts), i, psize)
  {
    hide BranchClimb, BranchCutAt, ForgetAll;
    ForgetAt(ts, BranchCutAt(ks, i, psize));
  }

  // ----- the pages it leaves -------------------------------------------------------------------------------

  /** A tree on the numbers old has become the parts of o: no number twice, all old ones kept, new ones from more
      and all of them written, and with the pages written the parts are held. */
  ghost predicate Rewritten(o: Outcome, writes: map<nat, Mvcc.Page>, was: set<nat>, more: set<nat>,
                            pages: map<nat, Mvcc.Page>, pay: Body -> int) {
    !o.Failed? ==> Replanted(Parts(o), writes, was, more, pages, pay)
  }

  ghost predicate Replanted(ts: seq<Placed>, writes: map<nat, Mvcc.Page>, was: set<nat>, more: set<nat>,
                            pages: map<nat, Mvcc.Page>, pay: Body -> int) {
    && ApartAll(ts) && was <= NumsAll(ts) <= was + more && writes.Keys <= was + more && NumsAll(ts) - was <= writes.Keys
    && HoldsAll(pages + writes, ts, pay)
  }

  lemma Single(t: Placed)
    ensures NumsAll([t]) == Nums(t) && (ApartAll([t]) <==> Apart(t))
  {
    assert [t][..0] == [];
  }

  lemma SingleHeld(pages: map<nat, Mvcc.Page>, t: Placed, pay: Body -> int)
    ensures HoldsAll(pages, [t], pay) <==> Holds(pages, t, pay)
  {
    assert [t][..0] == [];
  }

  lemma Double(l: Placed, r: Placed)
    ensures NumsAll([l, r]) == Nums(l) + Nums(r) && (ApartAll([l, r]) <==> Apart(l) && Apart(r) && Nums(l) !! Nums(r))
  {
    hide Nums, Apart, NumsAll, ApartAll;
    assert [l, r] == [l] + [r];
    NumsAppend([l], [r]);
    ApartAppend([l], [r]);
    Single(l);
    Single(r);
  }

  lemma DoubleHeld(pages: map<nat, Mvcc.Page>, l: Placed, r: Placed, pay: Body -> int)
    ensures HoldsAll(pages, [l, r], pay) <==> Holds(pages, l, pay) && Holds(pages, r, pay)
  {
    hide Holds, HoldsAll;
    assert [l, r] == [l] + [r];
    HoldsAppend(pages, [l], [r], pay);
    SingleHeld(pages, l, pay);
    SingleHeld(pages, r, pay);
  }

  /** Trees that the writes do not touch stay held. */
  lemma Kept(pages: map<nat, Mvcc.Page>, writes: map<nat, Mvcc.Page>, ts: seq<Placed>, pay: Body -> int)
    requires HoldsAll(pages, ts, pay) && NumsAll(ts) !! writes.Keys
    ensures HoldsAll(pages + writes, ts, pay)
  {
    HoldsAllSame(pages, pages + writes, ts, pay);
  }

  /** A subtree replaced by its parts, its neighbours left alone. */
  lemma Middle(a: seq<Placed>, k: Placed, c: seq<Placed>, ps: seq<Placed>, writes: map<nat, Mvcc.Page>, more: set<nat>,
               pages: map<nat, Mvcc.Page>, pay: Body -> int)
    requires ApartAll(a + [k] + c) && HoldsAll(pages, a + [k] + c, pay) && NumsAll(a + [k] + c) !! more
    requires Replanted(ps, writes, Nums(k), more, pages, pay)
    ensures Replanted(a + ps + c, writes, NumsAll(a + [k] + c), more, pages, pay)
  {
    hide Nums, Apart, Holds, NumsAll, ApartAll, HoldsAll;
    NumsAppend(a + [k], c);
    NumsAppend(a, [k]);
    NumsAppend(a + ps, c);
    NumsAppend(a, ps);
    Single(k);
    ApartAppend(a + [k], c);
    ApartAppend(a, [k]);
    ApartAppend(a + ps, c);
    ApartAppend(a, ps);
    HoldsAppend(pages, a + [k], c, pay);
    HoldsAppend(pages, a, [k], pay);
    HoldsAppend(pages + writes, a + ps, c, pay);
    HoldsAppend(pages + writes, a, ps, pay);
    Kept(pages, writes, a, pay);
    Kept(pages, writes, c, pay);
  }

  /** The page above, whole. */
  lemma WholePage(pg: nat, ks: seq<Key>, ts: seq<Placed>, writes: map<nat, Mvcc.Page>, was: set<nat>, more: set<nat>,
                  pages: map<nat, Mvcc.Page>, pay: Body -> int)
    requires Replanted(ts, writes, was, more, pages, pay) && pg !in was + more
    ensures var o := One(PBranch(pg, ks, ts)); Rewritten(o, writes + Wrote(o, pay), {pg} + was, more, pages, pay)
  {
    hide NumsAll, ApartAll, HoldsAll, PageOf;
    var t := PBranch(pg, ks, ts);
    var w := Wrote(One(t), pay);
    Kept(pages + writes, w, ts, pay);
    assert pages + writes + w == pages + (writes + w);
    Single(t);
    SingleHeld(pages + (writes + w), t, pay);
  }

  /** The page above, cut. */
  lemma CutPage(pg: nat, q: nat, ks: seq<Key>, sep: Key, ks': seq<Key>, ts: seq<Placed>, s: nat,
                writes: map<nat, Mvcc.Page>, was: set<nat>, more: set<nat>, pages: map<nat, Mvcc.Page>,
                pay: Body -> int)
    requires Replanted(ts, writes, was, more, pages, pay) && pg !in was + more && q !in was + more && q != pg
    requires s <= |ts|
    ensures var o := Two(PBranch(pg, ks, ts[..s]), sep, PBranch(q, ks', ts[s..]));
      Rewritten(o, writes + Wrote(o, pay), {pg} + was, more + {q}, pages, pay)
  {
    hide NumsAll, ApartAll, HoldsAll, PageOf, Nums;
    var l, r := PBranch(pg, ks, ts[..s]), PBranch(q, ks', ts[s..]);
    var w := Wrote(Two(l, sep, r), pay);
    CutNums(pg, q, ks, ks', ts, s);
    Kept(pages + writes, w, ts, pay);
    assert pages + writes + w == pages + (writes + w);
    CutHeld(pages + (writes + w), pg, q, ks, ks', ts, s, pay);
  }

  lemma CutNums(pg: nat, q: nat, ks: seq<Key>, ks': seq<Key>, ts: seq<Placed>, s: nat)
    requires ApartAll(ts) && pg !in NumsAll(ts) && q !in NumsAll(ts) && q != pg && s <= |ts|
    ensures var ps := [PBranch(pg, ks, ts[..s]), PBranch(q, ks', ts[s..])];
      ApartAll(ps) && NumsAll(ps) == NumsAll(ts) + {pg, q}
  {
    hide NumsAll, ApartAll;
    assert ts == ts[..s] + ts[s..];
    NumsAppend(ts[..s], ts[s..]);
    ApartAppend(ts[..s], ts[s..]);
    Double(PBranch(pg, ks, ts[..s]), PBranch(q, ks', ts[s..]));
  }

  lemma CutHeld(pages: map<nat, Mvcc.Page>, pg: nat, q: nat, ks: seq<Key>, ks': seq<Key>, ts: seq<Placed>, s: nat,
                pay: Body -> int)
    requires HoldsAll(pages, ts, pay) && s <= |ts| && pg in pages && q in pages
    requires pages[pg] == PageOf(PBranch(pg, ks, ts[..s]), pay) && pages[q] == PageOf(PBranch(q, ks', ts[s..]), pay)
    ensures HoldsAll(pages, [PBranch(pg, ks, ts[..s]), PBranch(q, ks', ts[s..])], pay)
  {
    hide HoldsAll, PageOf;
    assert ts == ts[..s] + ts[s..];
    HoldsAppend(pages, ts[..s], ts[s..], pay);
    DoubleHeld(pages, PBranch(pg, ks, ts[..s]), PBranch(q, ks', ts[s..]), pay);
  }

  /** New page numbers, enough for every level and none in use. */
  ghost predicate Supply(spare: seq<nat>, h: nat, was: set<nat>) {
    && h < |spare| && (forall i, j :: 0 <= i < j < |spare| ==> spare[i] != spare[j])
    && forall i :: 0 <= i < |spare| ==> spare[i] !in was
  }

  ghost function Taken(spare: seq<nat>, n: nat): set<nat>
    requires n <= |spare|
  {
    set i | 0 <= i < n :: spare[i]
  }

  lemma LeafPlaced(t: Placed, e: Entry, psize: nat, spare: seq<nat>, pages: map<nat, Mvcc.Page>, pay: Body -> int)
    requires t.PLeaf? && Holds(pages, t, pay) && Supply(spare, 0, Nums(t))
    ensures Rewritten(Put(t, e, psize, spare), Writes(t, e, psize, spare, pay), Nums(t), Taken(spare, 1), pages, pay)
  {
    hide Inserted, Place, LeafClimb, LeafCutAt, PageOf;
    var o, w := Put(t, e, psize, spare), Writes(t, e, psize, spare, pay);
    assert spare[0] in Taken(spare, 1);
    match o
    case Failed =>
    case One(u) =>
      Single(u);
      SingleHeld(pages + w, u, pay);
    case Two(l, _, r) =>
      Double(l, r);
      DoubleHeld(pages + w, l, r, pay);
  }

  lemma AbovePlaced(pg: nat, keys: seq<Key>, kids: seq<Placed>, i: nat, sub: Outcome, psize: nat, q: nat,
                    writes: map<nat, Mvcc.Page>, more: set<nat>, pages: map<nat, Mvcc.Page>, pay: Body -> int)
    requires i < |keys| == |kids| && ApartAll(kids) && HoldsAll(pages, kids, pay) && NumsAll(kids) !! more
    requires pg !in NumsAll(kids) + more && q !in NumsAll(kids) + more && q != pg
    requires Rewritten(sub, writes, Nums(kids[i]), more, pages, pay)
    ensures var o := PutAbove(pg, keys, kids, i, sub, psize, q);
      Rewritten(o, writes + Wrote(o, pay), {pg} + NumsAll(kids), more + {q}, pages, pay)
  {
    hide Replanted, NumsAll, ApartAll, HoldsAll, BranchClimb, BranchCutAt, Nums;
    if !sub.Failed? {
      var a, c, ps := kids[..i], kids[i + 1..], Parts(sub);
      assert a + [kids[i]] + c == kids;
      Middle(a, kids[i], c, ps, writes, more, pages, pay);
      var ts := Replaced(kids, i, ps);
      match sub
      case One(m) =>
        WholePage(pg, keys, ts, writes, NumsAll(kids), more, pages, pay);
        MoreRoom(One(PBranch(pg, keys, ts)), writes + Wrote(One(PBranch(pg, keys, ts)), pay), {pg} + NumsAll(kids),
                 more, q, pages, pay);
      case Two(l, sep, r) =>
        HungPlaced(pg, keys[..i + 1] + [sep] + keys[i + 1..], ts, i + 1, psize, q, writes, NumsAll(kids), more, pages,
                   pay);
    }
  }

  lemma MoreRoom(o: Outcome, writes: map<nat, Mvcc.Page>, was: set<nat>, more: set<nat>, q: nat,
                 pages: map<nat, Mvcc.Page>, pay: Body -> int)
    requires Rewritten(o, writes, was, more, pages, pay)
    ensures Rewritten(o, writes, was, more + {q}, pages, pay)
  {
    hide NumsAll, ApartAll, HoldsAll;
  }

  lemma HungPlaced(pg: nat, ks: seq<Key>, ts: seq<Placed>, i: nat, psize: nat, q: nat, writes: map<nat, Mvcc.Page>,
                   was: set<nat>, more: set<nat>, pages: map<nat, Mvcc.Page>, pay: Body -> int)
    requires 1 <= i < |ks| == |ts| && Replanted(ts, writes, was, more, pages, pay) && pg !in was + more
    requires q !in was + more && q != pg
    ensures var o := BranchPut(pg, ks, ts, i, psize, q);
      Rewritten(o, writes + Wrote(o, pay), {pg} + was, more + {q}, pages, pay)
  {
    hide Replanted, BranchClimb, BranchCutAt, Wrote;
    var c, s := BranchClimb(ks, i, psize), BranchCutAt(ks, i, psize);
    if c.Stays? {
      WholePage(pg, ks, ts, writes, was, more, pages, pay);
      MoreRoom(One(PBranch(pg, ks, ts)), writes + Wrote(One(PBranch(pg, ks, ts)), pay), {pg} + was, more, q, pages,
               pay);
    } else if c.Rises? {
      CutPage(pg, q, ks[..s], c.sep, [NOKEY] + ks[s + 1..], ts, s, writes, was, more, pages, pay);
    }
  }

  lemma SupplyBelow(spare: seq<nat>, h: nat, was: set<nat>, part: set<nat>)
    requires Supply(spare, h + 1, was) && part <= was
    ensures h + 1 < |spare| && Supply(spare, h, part) && Taken(spare, h + 1) !! was
    ensures spare[h + 1] !in was + Taken(spare, h + 1)
    ensures Taken(spare, h + 1) + {spare[h + 1]} == Taken(spare, h + 2)
  {
  }

  /** The insertion leaves placed trees, held by the pages with what was written. */
  lemma {:induction false} Placing(t: Placed, e: Entry, psize: nat, spare: seq<nat>, pages: map<nat, Mvcc.Page>,
                                   pay: Body -> int)
    requires Shape(Forget(t)) && Apart(t) && Holds(pages, t, pay) && Supply(spare, Level(t), Nums(t))
    ensures Rewritten(Put(t, e, psize, spare), Writes(t, e, psize, spare, pay), Nums(t), Taken(spare, Level(t) + 1),
                      pages, pay)
  {
    hide Rewritten, Supply, Taken, PutAbove, Wrote, Shape, NumsAll, ApartAll, HoldsAll, PageOf;
    match t
    case PLeaf(_, _) =>
      LeafPlaced(t, e, psize, spare, pages, pay);
    case PBranch(pg, keys, kids) =>
      var i := ChildOf(keys, e.key.rank);
      Below(t, e.key.rank, pages, pay);
      var h := Level(kids[i]);
      SupplyBelow(spare, h, Nums(t), Nums(kids[i]));
      Placing(kids[i], e, psize, spare, pages, pay);
      AbovePlaced(pg, keys, kids, i, Put(kids[i], e, psize, spare), psize, New(spare, Level(t)),
                  Writes(kids[i], e, psize, spare, pay), Taken(spare, h + 1), pages, pay);
  }

  /** What a placed tree says about the subtree entered. */
  lemma Below(t: Placed, k: int, pages: map<nat, Mvcc.Page>, pay: Body -> int)
    requires t.PBranch? && Shape(Forget(t)) && Apart(t) && Holds(pages, t, pay)
    ensures |t.keys| == |t.kids| && ChildOf(t.keys, k) < |t.keys|
    ensures var u := t.kids[ChildOf(t.keys, k)];
      && Shape(Forget(u)) && Level(t) == Level(u) + 1 && Apart(u) && Holds(pages, u, pay) && Nums(u) <= NumsAll(t.kids)
  {
    hide Shape, Level, PageOf, Forget;
    OneDown(t, k);
    OneOf(t.kids, ChildOf(t.keys, k), pages, pay);
  }

  lemma OneOf(ts: seq<Placed>, i: nat, pages: map<nat, Mvcc.Page>, pay: Body -> int)
    requires i < |ts| && ApartAll(ts) && HoldsAll(pages, ts, pay)
    ensures Apart(ts[i]) && Holds(pages, ts[i], pay) && Nums(ts[i]) <= NumsAll(ts)
  {
    hide Apart, Holds, Nums, NumsAll, ApartAll, HoldsAll;
    var a, c := ts[..i], ts[i + 1..];
    assert ts == a + ([ts[i]] + c);
    NumsAppend(a, [ts[i]] + c);
    NumsAppend([ts[i]], c);
    ApartAppend(a, [ts[i]] + c);
    ApartAppend([ts[i]], c);
    HoldsAppend(pages, a, [ts[i]] + c, pay);
    HoldsAppend(pages, [ts[i]], c, pay);
    Single(ts[i]);
    SingleHeld(pages, ts[i], pay);
  }

  // ----- the root ------------------------------------------------------------------------------------------

  /** A new root over the two parts of a cut one, on one more page. */
  ghost function Top(o: Outcome, q: nat): Outcome {
    if o.Two? then One(PBranch(q, [NOKEY, o.sep], [o.left, o.right])) else o
  }

  ghost function RootPut(t: Placed, e: Entry, psize: nat, spare: seq<nat>): Outcome {
    Top(Put(t, e, psize, spare), New(spare, Level(t) + 1))
  }

  ghost function RootWrites(t: Placed, e: Entry, psize: nat, spare: seq<nat>, pay: Body -> int): map<nat, Mvcc.Page> {
    Writes(t, e, psize, spare, pay) + if Put(t, e, psize, spare).Two? then Wrote(RootPut(t, e, psize, spare), pay)
      else map[]
  }

  lemma RootForgets(t: Placed, e: Entry, psize: nat, spare: seq<nat>)
    ensures ForgetOut(RootPut(t, e, psize, spare)) == Rooted(After(Forget(t), e, psize))
  {
    hide Put, After, Level, Forget;
    PutForgets(t, e, psize, spare);
    var o := Put(t, e, psize, spare);
    if o.Two? {
      ForgetTwo(o.left, o.right);
      BranchForgot(New(spare, Level(t) + 1), [NOKEY, o.sep], [o.left, o.right]);
    }
  }

  lemma BranchForgot(pg: nat, keys: seq<Key>, kids: seq<Placed>)
    ensures Forget(PBranch(pg, keys, kids)) == Branch(keys, ForgetAll(kids))
  {
  }

  lemma RootPlaced(t: Placed, e: Entry, psize: nat, spare: seq<nat>, pages: map<nat, Mvcc.Page>, pay: Body -> int)
    requires Shape(Forget(t)) && Apart(t) && Holds(pages, t, pay) && Supply(spare, Level(t) + 1, Nums(t))
    ensures !RootPut(t, e, psize, spare).Two?
    ensures Rewritten(RootPut(t, e, psize, spare), RootWrites(t, e, psize, spare, pay), Nums(t),
                      Taken(spare, Level(t) + 2), pages, pay)
  {
    hide Put, Writes, Level, Supply, Taken, Forget, Nums, Apart, Holds, Replanted, NumsAll, ApartAll, HoldsAll, PageOf;
    var o, w, h := Put(t, e, psize, spare), Writes(t, e, psize, spare, pay), Level(t);
    SupplyBelow(spare, h, Nums(t), Nums(t));
    Placing(t, e, psize, spare, pages, pay);
    var q := New(spare, h + 1);
    if o.Two? {
      WholePage(q, [NOKEY, o.sep], [o.left, o.right], w, Nums(t), Taken(spare, h + 1), pages, pay);
      NewIsMore(Top(o, q), w + Wrote(Top(o, q), pay), Nums(t), Taken(spare, h + 1), q, pages, pay);
    } else {
      MoreRoom(o, w, Nums(t), Taken(spare, h + 1), q, pages, pay);
      assert w + map[] == w;
    }
  }

  lemma NewIsMore(o: Outcome, writes: map<nat, Mvcc.Page>, was: set<nat>, more: set<nat>, q: nat,
                  pages: map<nat, Mvcc.Page>, pay: Body -> int)
    requires Rewritten(o, writes, {q} + was, more, pages, pay) && q in writes
    ensures Rewritten(o, writes, was, more + {q}, pages, pay)
  {
    hide NumsAll, ApartAll, HoldsAll;
  }

  /** A page is cut, or stuck, exactly when it is on trees. */
  lemma TwoRises(t: Placed, e: Entry, psize: nat, spare: seq<nat>)
    requires Shape(Forget(t))
    ensures Put(t, e, psize, spare).Two? <==> Climbs(Forget(t), e, psize).Rises?
    ensures Put(t, e, psize, spare).Failed? <==> Climbs(Forget(t), e, psize).Stuck?
  {
    hide Put, After, Climbs, Forget, Shape;
    PutForgets(t, e, psize, spare);
    AfterClimbs(Forget(t), e, psize);
  }

  ghost function Cut(t: Placed, e: Entry, psize: nat): nat {
    Cuts(Forget(t), e, psize)
  }

  /** One page is cut at each level up to the last one; those above stay whole. */
  lemma CutOnce(t: Placed, e: Entry, psize: nat, spare: seq<nat>)
    requires Shape(Forget(t))
    ensures Cut(t, e, psize) <= if Put(t, e, psize, spare).Two? then Level(t) + 1 else Level(t)
    ensures t.PLeaf? ==> Cut(t, e, psize) == if Put(t, e, psize, spare).Two? then 1 else 0
    ensures t.PBranch? ==> |t.keys| == |t.kids| && ChildOf(t.keys, e.key.rank) < |t.keys|
    ensures t.PBranch? ==> var u := t.kids[ChildOf(t.keys, e.key.rank)];
      && Shape(Forget(u)) && Level(t) == Level(u) + 1
      && Cut(t, e, psize) == Cut(u, e, psize) + (if Put(t, e, psize, spare).Two? then 1 else 0)
      && (Put(t, e, psize, spare).Two? ==> Cut(u, e, psize) == Level(t))
  {
    hide Put, Climbs, Shape, Height, ForgetAll;
    TwoRises(t, e, psize, spare);
    CutLevels(Forget(t), e, psize);
    if t.PBranch? {
      OneDown(t, e.key.rank);
      ForgetAt(t.kids, ChildOf(t.keys, e.key.rank));
    }
  }

  /** Only pages of the descent and new ones are written. */
  lemma {:induction false} WritesOnPath(t: Placed, e: Entry, psize: nat, spare: seq<nat>, pay: Body -> int)
    requires Shape(Forget(t)) && Level(t) < |spare|
    ensures Cut(t, e, psize) <= Level(t) + 1
    ensures Writes(t, e, psize, spare, pay).Keys <= Path(t, e.key.rank) + Taken(spare, Cut(t, e, psize))
  {
    hide Wrote, PutAbove, Put, Level, Shape, Forget, Taken, Cut;
    CutOnce(t, e, psize, spare);
    if Put(t, e, psize, spare).Two? { TakenMore(spare, Level(t)); }
    match t
    case PLeaf(_, _) =>
      LeafWrote(t, e, psize, spare, pay);
    case PBranch(pg, keys, kids) =>
      var i := ChildOf(keys, e.key.rank);
      WritesOnPath(kids[i], e, psize, spare, pay);
      BranchWrote(t, e, psize, spare, pay);
  }

  lemma TakenMore(spare: seq<nat>, h: nat)
    requires h < |spare|
    ensures Taken(spare, h + 1) == Taken(spare, h) + {New(spare, h)}
  {
  }

  lemma LeafWrote(t: Placed, e: Entry, psize: nat, spare: seq<nat>, pay: Body -> int)
    requires t.PLeaf?
    ensures Level(t) == 0
    ensures Wrote(Put(t, e, psize, spare), pay).Keys <=
      {t.pg} + if Put(t, e, psize, spare).Two? then {New(spare, 0)} else {}
  {
    hide PageOf, LeafClimb, LeafCutAt, Inserted, Place;
  }

  lemma BranchWrote(t: Placed, e: Entry, psize: nat, spare: seq<nat>, pay: Body -> int)
    requires t.PBranch?
    ensures Wrote(Put(t, e, psize, spare), pay).Keys <=
      {t.pg} + if Put(t, e, psize, spare).Two? then {New(spare, Level(t))} else {}
  {
    hide PageOf, BranchClimb, BranchCutAt, Level;
  }

  lemma OneDown(t: Placed, k: int)
    requires t.PBranch? && Shape(Forget(t))
    ensures |t.keys| == |t.kids| && ChildOf(t.keys, k) < |t.keys|
    ensures var u := t.kids[ChildOf(t.keys, k)]; Shape(Forget(u)) && Level(t) == Level(u) + 1
  {
    hide Shape, Height, ForgetAll;
    ShapeBelow(t.keys, ForgetAll(t.kids), ChildOf(t.keys, k));
    ForgetAt(t.kids, ChildOf(t.keys, k));
  }

  lemma ShapeBelow(keys: seq<Key>, kids: seq<Tree>, i: nat)
    requires Shape(Branch(keys, kids))
    ensures |keys| == |kids| >= 2
    ensures i < |kids| ==> Shape(kids[i]) && Height(Branch(keys, kids)) == Height(kids[i]) + 1
  {
    hide Separates;
  }

  /** Every new page becomes part of the tree. */
  lemma {:induction false} NewLinked(t: Placed, e: Entry, psize: nat, spare: seq<nat>)
    requires Shape(Forget(t)) && Level(t) < |spare|
    ensures Cut(t, e, psize) <= Level(t) + 1
    ensures !Put(t, e, psize, spare).Failed? ==>
      Taken(spare, Cut(t, e, psize)) <= NumsAll(Parts(Put(t, e, psize, spare)))
  {
    hide PutAbove, Level, Shape, Forget, Taken, NumsAll, Cut, LeafPut;
    CutOnce(t, e, psize, spare);
    if Put(t, e, psize, spare).Two? { TakenMore(spare, Level(t)); }
    TakenNone(spare);
    match t
    case PLeaf(pg, es) =>
      LeafLinks(t, e, psize, spare);
    case PBranch(pg, keys, kids) =>
      var i := ChildOf(keys, e.key.rank);
      NewLinked(kids[i], e, psize, spare);
      AboveLinks(pg, keys, kids, i, Put(kids[i], e, psize, spare), psize, New(spare, Level(t)));
  }

  lemma TakenNone(spare: seq<nat>)
    ensures Taken(spare, 0) == {}
  {
  }

  lemma LeafLinks(t: Placed, e: Entry, psize: nat, spare: seq<nat>)
    requires t.PLeaf?
    ensures Level(t) == 0 && (Put(t, e, psize, spare).Two? ==> New(spare, 0) in NumsAll(Parts(Put(t, e, psize, spare))))
  {
    hide Inserted, Place, LeafClimb, LeafCutAt, NumsAll;
    var o := Put(t, e, psize, spare);
    if o.Two? { Double(o.left, o.right); }
  }

  lemma AboveLinks(pg: nat, keys: seq<Key>, kids: seq<Placed>, i: nat, sub: Outcome, psize: nat, q: nat)
    requires i < |keys| == |kids|
    ensures var o := PutAbove(pg, keys, kids, i, sub, psize, q);
      && (sub.Failed? ==> o.Failed?) && (o.Two? ==> q in NumsAll(Parts(o)))
      && (!o.Failed? ==> NumsAll(Parts(sub)) <= NumsAll(Parts(o)))
  {
    hide NumsAll, BranchClimb, BranchCutAt;
    var o := PutAbove(pg, keys, kids, i, sub, psize, q);
    var ts := Replaced(kids, i, Parts(sub));
    NumsAppend(kids[..i] + Parts(sub), kids[i + 1..]);
    NumsAppend(kids[..i], Parts(sub));
    match o
    case Failed =>
    case One(u) => Single(u);
    case Two(l, _, r) =>
      Double(l, r);
      assert ts == ts[..|l.kids|] + ts[|l.kids|..];
      NumsAppend(ts[..|l.kids|], ts[|l.kids|..]);
  }

  // ----- a tree of the protocol ------------------------------------------------------------------------------

  lemma {:induction false} RootIn(ts: seq<Placed>, i: nat)
    requires i < |ts|
    ensures ts[i].pg in NumsAll(ts)
  {
    if i < |ts| - 1 {
      RootIn(ts[..|ts| - 1], i);
    }
  }

  /** Every page points to pages of the tree only, and is reached if the root is. */
  lemma {:induction false} Connected(pages: map<nat, Mvcc.Page>, roots: set<nat>, t: Placed, pay: Body -> int, q: nat)
    requires Holds(pages, t, pay) && Mvcc.Reached(pages, roots, t.pg) && q in Nums(t)
    ensures q in pages && Mvcc.Kids(pages[q]) <= Nums(t) && Mvcc.Reached(pages, roots, q)
    decreases t, 0
  {
    hide Mvcc.Reached;
    if t.PBranch? {
      forall p | p in PageOf(t, pay).kids ensures p in NumsAll(t.kids) {
        var i :| 0 <= i < |Roots(t.kids)| && Roots(t.kids)[i] == p;
        RootIn(t.kids, i);
      }
      if q != t.pg { AllConnected(pages, roots, t.pg, t.kids, pay, q); }
    }
  }

  lemma {:induction false} AllConnected(pages: map<nat, Mvcc.Page>, roots: set<nat>, pg: nat, ts: seq<Placed>,
                                        pay: Body -> int, q: nat)
    requires HoldsAll(pages, ts, pay) && Mvcc.Reached(pages, roots, pg) && pg in pages && q in NumsAll(ts)
    requires forall i :: 0 <= i < |ts| ==> ts[i].pg in pages[pg].kids
    ensures q in pages && Mvcc.Kids(pages[q]) <= NumsAll(ts) && Mvcc.Reached(pages, roots, q)
    decreases ts, |ts|
  {
    hide Mvcc.Reached;
    var n := |ts| - 1;
    if q in NumsAll(ts[..n]) {
      AllConnected(pages, roots, pg, ts[..n], pay, q);
    } else {
      OneFurther(pages, roots, pg, ts[n].pg);
      Connected(pages, roots, ts[n], pay, q);
    }
  }

  lemma OneFurther(pages: map<nat, Mvcc.Page>, roots: set<nat>, p: nat, q: nat)
    requires Mvcc.Reached(pages, roots, p) && p in pages && q in pages && q in pages[p].kids
    ensures Mvcc.Reached(pages, roots, q)
  {
    var path :| Mvcc.IsPath(pages, roots, path) && path[|path| - 1] == p;
    assert Mvcc.IsPath(pages, roots, path + [q]) && (path + [q])[|path + [q]| - 1] == q;
  }

  /** A held tree and other trees beside it are trees of the protocol. */
  lemma TreeHeld(pages: map<nat, Mvcc.Page>, t: Placed, rest: map<nat, Mvcc.Page>, others: set<nat>, pay: Body -> int)
    requires Holds(pages, t, pay) && pages.Keys == Nums(t) + rest.Keys
    requires forall q :: q in rest ==> pages[q] == rest[q]
    requires Mvcc.Tree(rest, others)
    ensures Mvcc.Tree(pages, {t.pg} + others)
  {
    hide Holds, Nums, Mvcc.Reached;
    var roots := {t.pg} + others;
    RootHeld(pages, t, others, pay);
    forall q | q in pages ensures Mvcc.Kids(pages[q]) <= pages.Keys && Mvcc.Reached(pages, roots, q) {
      if q in rest {
        SameReached(rest, pages, others, roots, q);
      } else {
        Connected(pages, roots, t, pay, q);
      }
    }
  }

  lemma RootHeld(pages: map<nat, Mvcc.Page>, t: Placed, others: set<nat>, pay: Body -> int)
    requires Holds(pages, t, pay)
    ensures t.pg in pages && t.pg in Nums(t) && Mvcc.Reached(pages, {t.pg} + others, t.pg)
  {
    assert Mvcc.IsPath(pages, {t.pg} + others, [t.pg]) && [t.pg][|[t.pg]| - 1] == t.pg;
  }

  lemma SameReached(rest: map<nat, Mvcc.Page>, pages: map<nat, Mvcc.Page>, others: set<nat>, roots: set<nat>, q: nat)
    requires Mvcc.Reached(rest, others, q) && others <= roots && rest.Keys <= pages.Keys
    requires forall p :: p in rest ==> pages[p] == rest[p]
    ensures Mvcc.Reached(pages, roots, q)
  {
    var path :| Mvcc.IsPath(rest, others, path) && path[|path| - 1] == q;
    assert Mvcc.IsPath(pages, roots, path);
  }

  // ----- the step ---------------------------------------------------------------------------------------------

  /** The writer's pages hold the tree t and other trees beside it. */
  ghost predicate Shown(s: Mvcc.State, t: Placed, rest: map<nat, Mvcc.Page>, others: set<nat>, pay: Body -> int) {
    && s.writer.Some? && s.writer.value.phase.Active?
    && var w := s.writer.value;
    && w.owned <= s.file.Keys + w.dirty.Keys && w.owned == Nums(t) + rest.Keys && Nums(t) !! rest.Keys
    && w.roots == {t.pg} + others && Mvcc.Tree(rest, others) && Apart(t)
    && var pages := Mvcc.View(s.file, w.owned, w.dirty);
    Holds(pages, t, pay) && forall q :: q in rest ==> pages[q] == rest[q]
  }

  /** Dirty pages written, new pages linked: the view is the old one with what was written. */
  lemma ViewAfter(file: map<nat, Mvcc.Page>, owned: set<nat>, dirty: map<nat, Mvcc.Page>, added: set<nat>,
                  writes: map<nat, Mvcc.Page>, q: nat)
    requires owned <= file.Keys + dirty.Keys && added <= writes.Keys <= dirty.Keys && q in owned + added
    ensures var view, view' := Mvcc.View(file, owned, dirty), Mvcc.View(file, owned + added, dirty + writes);
      q in view' && q in (view + writes) && view'[q] == (view + writes)[q]
  {
  }

  /** Spare pages of the writer for an insertion: distinct, linked nowhere, on the dirty list. */
  ghost predicate Stock(w: Mvcc.Writer, more: seq<nat>) {
    && (forall i, j :: 0 <= i < j < |more| ==> more[i] != more[j])
    && forall i :: 0 <= i < |more| ==> more[i] in w.spare && more[i] in w.dirty && more[i] !in w.owned
  }

  /** Inserting into a tree whose pages of the descent are dirty, with a spare page for each part cut off and for a
      new root, is an edit of the protocol, after which the writer's pages hold the new tree and the spare pages
      are all part of it. */
  lemma PutIsEdit(s: Mvcc.State, t: Placed, e: Entry, psize: nat, more: seq<nat>, rest: map<nat, Mvcc.Page>,
                  others: set<nat>, pay: Body -> int)
    returns (s': Mvcc.State, t': Placed)
    requires Shown(s, t, rest, others, pay) && Shape(Forget(t)) && !Overflows(Forget(t), e, psize)
    requires Stock(s.writer.value, more) && |more| == NewPages(Forget(t), e, psize)
    requires Path(t, e.key.rank) <= s.writer.value.dirty.Keys
    ensures Rooted(After(Forget(t), e, psize)) == Grown(Forget(t')) && Shown(s', t', rest, others, pay)
    ensures Nums(t') == Nums(t) + Taken(more, |more|)
    ensures Mvcc.Next(s, s', Mvcc.SEdit({t'.pg} + others, s'.writer.value.dirty, Taken(more, |more|), {}, {}))
  {
    hide RootPut, RootWrites, Replanted, Supply, Taken, Level, Forget, Rooted, After, Holds, Nums, Apart, Mvcc.Tree,
         Shape, Path, NewPages, Stock, Overflows;
    var w := s.writer.value;
    var pages := Mvcc.View(s.file, w.owned, w.dirty);
    var spare := Padded(w, more, Level(t) + 2);
    var writes := RootWrites(t, e, psize, spare, pay);
    Fewer(spare, Level(t) + 1, w.owned, Nums(t));
    RootPlaced(t, e, psize, spare, pages, pay);
    RootForgets(t, e, psize, spare);
    RootTwo(t, e, psize, spare);
    RootOnPath(t, e, psize, spare, pay);
    t' := RootPut(t, e, psize, spare).t;
    OneTree(t', writes, Nums(t), Taken(spare, Level(t) + 2), pages, pay);
    RootLinked(t, e, psize, spare);
    PathIn(t, e.key.rank);
    s' := Edited(s, t, t', writes, others);
    EditHolds(s, s', t, t', writes, Taken(more, |more|), rest, others, pay);
    assert Nums(t') - Nums(t) == Taken(more, |more|);
  }

  /** Numbers in no set of pages, to go on with where the insertion takes none. */
  lemma Padded(w: Mvcc.Writer, more: seq<nat>, n: nat) returns (spare: seq<nat>)
    requires Stock(w, more)
    ensures |more| <= |spare| && Taken(spare, |more|) == Taken(more, |more|) && Taken(more, |more|) !! w.owned
    ensures Taken(more, |more|) <= w.spare * w.dirty.Keys
    ensures n + |more| == |spare| && (0 < n ==> Supply(spare, n - 1, w.owned))
  {
    var b := Beyond(w.owned + Taken(more, |more|));
    forall i | 0 <= i < |more| ensures more[i] < b { assert more[i] in Taken(more, |more|); }
    spare := more + seq(n, i requires 0 <= i => b + i);
    assert forall i :: 0 <= i < |more| ==> spare[i] == more[i];
  }

  lemma {:induction false} Beyond(ps: set<nat>) returns (b: nat)
    ensures forall p :: p in ps ==> p < b
    decreases |ps|
  {
    if ps == {} { return 0; }
    var p :| p in ps;
    var c := Beyond(ps - {p});
    b := if c <= p then p + 1 else c;
    forall x | x in ps ensures x < b {
      if x != p { assert x in ps - {p}; }
    }
  }

  lemma {:induction false} PathIn(t: Placed, k: int)
    ensures Path(t, k) <= Nums(t)
  {
    hide NumsAll;
    if t.PBranch? {
      var i := ChildOf(t.keys, k);
      if i < |t.kids| {
        PathIn(t.kids[i], k);
        NumsOf(t.kids, i);
      }
    }
  }

  lemma OneTree(t: Placed, writes: map<nat, Mvcc.Page>, was: set<nat>, more: set<nat>, pages: map<nat, Mvcc.Page>,
                pay: Body -> int)
    requires Replanted([t], writes, was, more, pages, pay)
    ensures Apart(t) && was <= Nums(t) <= was + more && writes.Keys <= was + more && Nums(t) - was <= writes.Keys
    ensures Holds(pages + writes, t, pay)
  {
    hide Apart, Nums, Holds, NumsAll, ApartAll, HoldsAll;
    Single(t);
    SingleHeld(pages + writes, t, pay);
  }

  lemma Fewer(spare: seq<nat>, h: nat, was: set<nat>, part: set<nat>)
    requires Supply(spare, h, was) && part <= was
    ensures h < |spare| && Supply(spare, h, part) && Taken(spare, h + 1) !! was
  {
  }

  /** It fails exactly when a page is stuck; else it leaves one root. */
  lemma RootTwo(t: Placed, e: Entry, psize: nat, spare: seq<nat>)
    requires Shape(Forget(t))
    ensures RootPut(t, e, psize, spare).Failed? <==> Overflows(Forget(t), e, psize)
    ensures Cut(t, e, psize) <= NewPages(Forget(t), e, psize) <= Level(t) + 2 && !RootPut(t, e, psize, spare).Two?
    ensures NewPages(Forget(t), e, psize) == Cut(t, e, psize) + if Put(t, e, psize, spare).Two? then 1 else 0
    ensures Put(t, e, psize, spare).Two? ==> Cut(t, e, psize) == Level(t) + 1
  {
    hide Put, Climbs, Shape, Forget, Cuts, Height;
    TwoRises(t, e, psize, spare);
    CutLevels(Forget(t), e, psize);
  }

  lemma RootOnPath(t: Placed, e: Entry, psize: nat, spare: seq<nat>, pay: Body -> int)
    requires Shape(Forget(t)) && Level(t) + 1 < |spare| && !RootPut(t, e, psize, spare).Two?
    ensures NewPages(Forget(t), e, psize) <= |spare|
    ensures RootWrites(t, e, psize, spare, pay).Keys <=
      Path(t, e.key.rank) + Taken(spare, NewPages(Forget(t), e, psize))
  {
    hide Writes, Put, Path, Level, Shape, Forget, Taken, PageOf, NewPages, Cut;
    RootTwo(t, e, psize, spare);
    WritesOnPath(t, e, psize, spare, pay);
    TakenMore(spare, Level(t) + 1);
  }

  lemma RootLinked(t: Placed, e: Entry, psize: nat, spare: seq<nat>)
    requires Shape(Forget(t)) && Level(t) + 1 < |spare| && RootPut(t, e, psize, spare).One?
    ensures NewPages(Forget(t), e, psize) <= |spare|
    ensures Taken(spare, NewPages(Forget(t), e, psize)) <= Nums(RootPut(t, e, psize, spare).t)
  {
    hide Put, Level, Shape, Forget, Taken, NewPages, Cut, NumsAll;
    RootTwo(t, e, psize, spare);
    NewLinked(t, e, psize, spare);
    TakenMore(spare, Level(t) + 1);
    var o := Put(t, e, psize, spare);
    if o.One? { Single(o.t); }
  }

  ghost function Edited(s: Mvcc.State, t: Placed, t': Placed, writes: map<nat, Mvcc.Page>, others: set<nat>): Mvcc.State
    requires s.writer.Some?
  {
    var w, added := s.writer.value, Nums(t') - Nums(t);
    s.(writer := Some(w.(roots := {t'.pg} + others, owned := w.owned + added, spare := w.spare - added,
                         dirty := w.dirty + writes)))
  }

  lemma EditHolds(s: Mvcc.State, s': Mvcc.State, t: Placed, t': Placed, writes: map<nat, Mvcc.Page>, more: set<nat>,
                  rest: map<nat, Mvcc.Page>, others: set<nat>, pay: Body -> int)
    requires Shown(s, t, rest, others, pay) && s' == Edited(s, t, t', writes, others) && Apart(t')
    requires Nums(t) <= Nums(t') <= Nums(t) + more && writes.Keys <= Nums(t) + more && Nums(t') - Nums(t) <= writes.Keys
    requires more <= s.writer.value.spare && more !! s.writer.value.owned && writes.Keys <= s.writer.value.dirty.Keys
    requires Holds(Mvcc.View(s.file, s.writer.value.owned, s.writer.value.dirty) + writes, t', pay)
    ensures Shown(s', t', rest, others, pay)
    ensures Mvcc.Next(s, s', Mvcc.SEdit({t'.pg} + others, s'.writer.value.dirty, Nums(t') - Nums(t), {}, {}))
  {
    hide Holds, Nums, Apart, Mvcc.Tree, Mvcc.View;
    var w, added := s.writer.value, Nums(t') - Nums(t);
    var view, view' := Mvcc.View(s.file, w.owned, w.dirty), Mvcc.View(s.file, w.owned + added, w.dirty + writes);
    forall q | q in w.owned + added ensures q in view' && q in view + writes && view'[q] == (view + writes)[q] {
      ViewAfter(s.file, w.owned, w.dirty, added, writes, q);
    }
    HoldsSame(view + writes, view', t', pay);
    ViewKeys(s.file, w.owned, w.dirty);
    ViewKeys(s.file, w.owned + added, w.dirty + writes);
    TreeHeld(view', t', rest, others, pay);
    EditTaken(s, s', {t'.pg} + others, added, writes);
  }

  lemma EditTaken(s: Mvcc.State, s': Mvcc.State, roots: set<nat>, added: set<nat>, writes: map<nat, Mvcc.Page>)
    requires s.writer.Some? && s.writer.value.phase.Active? && added <= s.writer.value.spare
    requires added <= writes.Keys <= s.writer.value.dirty.Keys
    requires var w := s.writer.value;
      s' == s.(writer := Some(w.(roots := roots, owned := w.owned + added, spare := w.spare - added,
                                 dirty := w.dirty + writes)))
    requires s.writer.value.owned <= s.file.Keys + s.writer.value.dirty.Keys
    requires Mvcc.Tree(Mvcc.View(s.file, s.writer.value.owned + added, s.writer.value.dirty + writes), roots)
    ensures Mvcc.Next(s, s', Mvcc.SEdit(roots, s'.writer.value.dirty, added, {}, {}))
  {
    hide Mvcc.Tree, Mvcc.View;
    var w := s.writer.value;
    assert w.owned + added - {} - {} == w.owned + added;
    assert w.freed + {} == w.freed && w.loose + {} == w.loose;
    assert (w.dirty + writes).Keys == w.dirty.Keys - {};
  }

  lemma ViewKeys(file: map<nat, Mvcc.Page>, owned: set<nat>, dirty: map<nat, Mvcc.Page>)
    requires owned <= file.Keys + dirty.Keys
    ensures Mvcc.View(file, owned, dirty).Keys == owned
  {
  }

  // ----- copying the pages of the descent ------------------------------------------------------------------------

  /** The first page of the descent that is not dirty, if there is one. */
  function Clean(t: Placed, k: int, dirty: set<nat>): (r: Option<nat>)
    ensures r.Some? ==> r.value !in dirty
  {
    if t.pg !in dirty then Some(t.pg) else if t.PLeaf? then None else
      var i := ChildOf(t.keys, k);
      if i < |t.kids| then Clean(t.kids[i], k, dirty) else None
  }

  /** The tree with that page moved to page q. */
  function Moved(t: Placed, k: int, dirty: set<nat>, q: nat): Placed {
    if t.pg !in dirty then t.(pg := q) else if t.PLeaf? then t else
      var i := ChildOf(t.keys, k);
      if i < |t.kids| then t.(kids := t.kids[i := Moved(t.kids[i], k, dirty, q)]) else t
  }

  lemma Around(ts: seq<Placed>, i: nat, u: Placed)
    requires i < |ts|
    ensures ts == ts[..i] + ([ts[i]] + ts[i + 1..]) && ts[i := u] == ts[..i] + ([u] + ts[i + 1..])
  {
  }

  lemma {:induction false} MovedForgets(t: Placed, k: int, dirty: set<nat>, q: nat)
    ensures Forget(Moved(t, k, dirty, q)) == Forget(t)
  {
    hide ForgetAll;
    if t.pg in dirty && t.PBranch? {
      var i := ChildOf(t.keys, k);
      if i < |t.kids| {
        var u := Moved(t.kids[i], k, dirty, q);
        MovedForgets(t.kids[i], k, dirty, q);
        Around(t.kids, i, u);
        ForgetAppend(t.kids[..i], [t.kids[i]] + t.kids[i + 1..]);
        ForgetAppend(t.kids[..i], [u] + t.kids[i + 1..]);
        ForgetAppend([t.kids[i]], t.kids[i + 1..]);
        ForgetAppend([u], t.kids[i + 1..]);
        ForgetOne(t.kids[i]);
        ForgetOne(u);
      }
    }
  }

  /** A list of trees with one of them exchanged. */
  lemma Exchanged(ts: seq<Placed>, i: nat, u: Placed, p: nat, q: nat)
    requires i < |ts| && ApartAll(ts) && Apart(u) && p in Nums(ts[i]) && q !in NumsAll(ts)
    requires Nums(u) == Nums(ts[i]) - {p} + {q}
    ensures ApartAll(ts[i := u]) && NumsAll(ts[i := u]) == NumsAll(ts) - {p} + {q} && p in NumsAll(ts)
    ensures Apart(ts[i]) && Nums(ts[i]) <= NumsAll(ts)
  {
    hide Apart, Nums, NumsAll, ApartAll;
    Around(ts, i, u);
    var a, c := ts[..i], ts[i + 1..];
    NumsAppend(a, [ts[i]] + c);
    NumsAppend([ts[i]], c);
    NumsAppend(a, [u] + c);
    NumsAppend([u], c);
    ApartAppend(a, [ts[i]] + c);
    ApartAppend([ts[i]], c);
    ApartAppend(a, [u] + c);
    ApartAppend([u], c);
    Single(ts[i]);
    Single(u);
  }

  lemma ApartOf(ts: seq<Placed>, i: nat)
    requires i < |ts| && ApartAll(ts)
    ensures Apart(ts[i]) && Nums(ts[i]) <= NumsAll(ts)
  {
    hide Apart, Nums, NumsAll, ApartAll;
    var a, c := ts[..i], ts[i + 1..];
    assert ts == a + ([ts[i]] + c);
    NumsAppend(a, [ts[i]] + c);
    NumsAppend([ts[i]], c);
    ApartAppend(a, [ts[i]] + c);
    ApartAppend([ts[i]], c);
    Single(ts[i]);
  }

  lemma {:induction false} MovedNums(t: Placed, k: int, dirty: set<nat>, q: nat)
    requires Apart(t) && q !in Nums(t) && Clean(t, k, dirty).Some?
    ensures var p := Clean(t, k, dirty).value;
      p in Nums(t) && Nums(Moved(t, k, dirty, q)) == Nums(t) - {p} + {q} && Apart(Moved(t, k, dirty, q))
  {
    hide NumsAll, ApartAll;
    if t.pg in dirty {
      var i := ChildOf(t.keys, k);
      ApartOf(t.kids, i);
      MovedNums(t.kids[i], k, dirty, q);
      Exchanged(t.kids, i, Moved(t.kids[i], k, dirty, q), Clean(t, k, dirty).value, q);
    }
  }

  /** The pages with p copied to q and every reference to p turned to q, as mdb_page_touch leaves them. */
  ghost predicate Relinked(pages: map<nat, Mvcc.Page>, pages': map<nat, Mvcc.Page>, p: nat, q: nat) {
    && p in pages && q !in pages && pages'.Keys == pages.Keys - {p} + {q} && pages'[q] == Mvcc.Relink(pages[p], p, q)
    && forall x :: x in pages && x != p ==> pages'[x] == Mvcc.Relink(pages[x], p, q)
  }

  /** Trees without p are not affected. */
  lemma {:induction false} Aside(pages: map<nat, Mvcc.Page>, pages': map<nat, Mvcc.Page>, p: nat, q: nat,
                                 ts: seq<Placed>, pay: Body -> int)
    requires Relinked(pages, pages', p, q) && HoldsAll(pages, ts, pay) && p !in NumsAll(ts)
    ensures HoldsAll(pages', ts, pay)
    decreases ts, |ts|
  {
    if ts != [] {
      Aside(pages, pages', p, q, ts[..|ts| - 1], pay);
      AsideOne(pages, pages', p, q, ts[|ts| - 1], pay);
    }
  }

  lemma {:induction false} AsideOne(pages: map<nat, Mvcc.Page>, pages': map<nat, Mvcc.Page>, p: nat, q: nat, t: Placed,
                                    pay: Body -> int)
    requires Relinked(pages, pages', p, q) && Holds(pages, t, pay) && p !in Nums(t)
    ensures Holds(pages', t, pay)
    decreases t, 0
  {
    if t.PBranch? {
      NotPointed(t, p, pay);
      Aside(pages, pages', p, q, t.kids, pay);
    }
  }

  lemma NotPointed(t: Placed, p: nat, pay: Body -> int)
    requires t.PBranch? && p !in NumsAll(t.kids)
    ensures p !in PageOf(t, pay).kids
  {
    if p in PageOf(t, pay).kids {
      var i :| 0 <= i < |Roots(t.kids)| && Roots(t.kids)[i] == p;
      RootIn(t.kids, i);
    }
  }

  /** The page above, after the change of one root. */
  lemma PageMoved(t: Placed, i: nat, u: Placed, p: nat, q: nat, pay: Body -> int)
    requires t.PBranch? && i < |t.kids| && (forall j :: 0 <= j < |t.kids| && j != i ==> t.kids[j].pg != p)
    requires u.pg == if t.kids[i].pg == p then q else t.kids[i].pg
    ensures PageOf(t.(kids := t.kids[i := u]), pay) == Mvcc.Relink(PageOf(t, pay), p, q)
  {
    var a, b := Roots(t.kids), Roots(t.kids[i := u]);
    assert a[i] in a;
    assert b == if p in a then Mvcc.Redirect(a, p, q) else a;
  }

  /** Neighbours of the subtree with p do not have it. */
  lemma Elsewhere(ts: seq<Placed>, i: nat, p: nat)
    requires i < |ts| && ApartAll(ts) && p in Nums(ts[i])
    ensures p !in NumsAll(ts[..i]) && p !in NumsAll(ts[i + 1..])
    ensures forall j :: 0 <= j < |ts| && j != i ==> ts[j].pg != p
  {
    hide Apart, Nums, NumsAll, ApartAll;
    var a, c := ts[..i], ts[i + 1..];
    assert ts == a + ([ts[i]] + c);
    NumsAppend([ts[i]], c);
    ApartAppend(a, [ts[i]] + c);
    ApartAppend([ts[i]], c);
    Single(ts[i]);
    forall j | 0 <= j < |ts| && j != i ensures ts[j].pg != p {
      if j < i { RootIn(a, j); } else { RootIn(c, j - i - 1); }
    }
  }

  lemma {:induction false} MovedHolds(pages: map<nat, Mvcc.Page>, pages': map<nat, Mvcc.Page>, t: Placed, k: int,
                                      dirty: set<nat>, q: nat, pay: Body -> int)
    requires Apart(t) && Holds(pages, t, pay) && q !in Nums(t) && Clean(t, k, dirty).Some?
    requires Relinked(pages, pages', Clean(t, k, dirty).value, q)
    ensures Holds(pages', Moved(t, k, dirty, q), pay)
  {
    hide NumsAll, ApartAll, HoldsAll, PageOf, Mvcc.Relink, Relinked;
    var p := Clean(t, k, dirty).value;
    if t.pg !in dirty {
      if t.PBranch? {
        NotPointed(t, p, pay);
        Aside(pages, pages', p, q, t.kids, pay);
      } else {
        LeafPoints(pages, t, pay);
      }
      CopiedPage(pages, pages', t, q, pay);
    } else {
      var i := ChildOf(t.keys, k);
      var u := Moved(t.kids[i], k, dirty, q);
      OneOf(t.kids, i, pages, pay);
      MovedNums(t.kids[i], k, dirty, q);
      MovedHolds(pages, pages', t.kids[i], k, dirty, q, pay);
      Elsewhere(t.kids, i, p);
      KidsMoved(pages, pages', t.kids, i, u, p, q, pay);
      PageMoved(t, i, u, p, q, pay);
      RelinkedAt(pages, pages', p, q, t.pg);
    }
  }

  lemma RelinkedAt(pages: map<nat, Mvcc.Page>, pages': map<nat, Mvcc.Page>, p: nat, q: nat, x: nat)
    requires Relinked(pages, pages', p, q) && x in pages && x != p
    ensures x in pages' && pages'[x] == Mvcc.Relink(pages[x], p, q)
  {
  }

  lemma CopiedPage(pages: map<nat, Mvcc.Page>, pages': map<nat, Mvcc.Page>, t: Placed, q: nat, pay: Body -> int)
    requires Relinked(pages, pages', t.pg, q) && t.pg in pages && pages[t.pg] == PageOf(t, pay)
    requires t.pg !in PageOf(t, pay).kids
    ensures q in pages' && pages'[q] == PageOf(t.(pg := q), pay)
  {
  }

  lemma KidsMoved(pages: map<nat, Mvcc.Page>, pages': map<nat, Mvcc.Page>, ts: seq<Placed>, i: nat, u: Placed, p: nat,
                  q: nat, pay: Body -> int)
    requires i < |ts| && HoldsAll(pages, ts, pay) && Relinked(pages, pages', p, q) && Holds(pages', u, pay)
    requires p !in NumsAll(ts[..i]) && p !in NumsAll(ts[i + 1..])
    ensures HoldsAll(pages', ts[i := u], pay)
  {
    hide Holds, NumsAll, HoldsAll, Relinked;
    var a, c := ts[..i], ts[i + 1..];
    Around(ts, i, u);
    HoldsAppend(pages, a, [ts[i]] + c, pay);
    HoldsAppend(pages, [ts[i]], c, pay);
    Aside(pages, pages', p, q, a, pay);
    Aside(pages, pages', p, q, c, pay);
    HoldsAppend(pages', a, [u] + c, pay);
    HoldsAppend(pages', [u], c, pay);
    SingleHeld(pages', u, pay);
  }

  // ----- only the dirty parent points to it --------------------------------------------------------------------------

  lemma {:induction false} NoCleanParent(pages: map<nat, Mvcc.Page>, t: Placed, k: int, dirty: set<nat>,
                                         pay: Body -> int, x: nat)
    requires Apart(t) && Holds(pages, t, pay) && Clean(t, k, dirty).Some? && x in Nums(t) && x !in dirty
    ensures x in pages && Clean(t, k, dirty).value !in pages[x].kids
  {
    hide NumsAll, ApartAll, HoldsAll, PageOf;
    var p := Clean(t, k, dirty).value;
    if t.PBranch? {
      PointsToKids(pages, t, pay);
      if t.pg !in dirty {
        if x == t.pg { NotPointed(t, p, pay); } else { KidsInside(pages, t.pg, t.kids, pay, x); }
      } else {
        var i := ChildOf(t.keys, k);
        OneOf(t.kids, i, pages, pay);
        CleanIn(t.kids[i], k, dirty);
        Elsewhere(t.kids, i, p);
        InOne(t.kids, i, x);
        if x in Nums(t.kids[i]) {
          NoCleanParent(pages, t.kids[i], k, dirty, pay, x);
        } else {
          HoldsParts(pages, t.kids, i, pay);
          if x in NumsAll(t.kids[..i]) {
            KidsInside(pages, t.pg, t.kids[..i], pay, x);
          } else {
            KidsInside(pages, t.pg, t.kids[i + 1..], pay, x);
          }
        }
      }
    } else {
      LeafPoints(pages, t, pay);
    }
  }

  lemma LeafPoints(pages: map<nat, Mvcc.Page>, t: Placed, pay: Body -> int)
    requires t.PLeaf? && Holds(pages, t, pay)
    ensures t.pg in pages && pages[t.pg].kids == []
  {
  }

  lemma PointsToKids(pages: map<nat, Mvcc.Page>, t: Placed, pay: Body -> int)
    requires t.PBranch? && Holds(pages, t, pay)
    ensures t.pg in pages && forall i :: 0 <= i < |t.kids| ==> t.kids[i].pg in pages[t.pg].kids
  {
    forall i | 0 <= i < |t.kids| ensures t.kids[i].pg in pages[t.pg].kids { assert Roots(t.kids)[i] in Roots(t.kids); }
  }

  lemma KidsInside(pages: map<nat, Mvcc.Page>, pg: nat, ts: seq<Placed>, pay: Body -> int, x: nat)
    requires HoldsAll(pages, ts, pay) && pg in pages && x in NumsAll(ts)
    requires forall i :: 0 <= i < |ts| ==> ts[i].pg in pages[pg].kids
    ensures x in pages && Mvcc.Kids(pages[x]) <= NumsAll(ts)
  {
    assert Mvcc.IsPath(pages, {pg}, [pg]) && [pg][|[pg]| - 1] == pg;
    AllConnected(pages, {pg}, pg, ts, pay, x);
  }

  lemma {:induction false} CleanIn(t: Placed, k: int, dirty: set<nat>)
    requires Clean(t, k, dirty).Some?
    ensures Clean(t, k, dirty).value in Nums(t)
  {
    if t.pg in dirty {
      var i := ChildOf(t.keys, k);
      CleanIn(t.kids[i], k, dirty);
      NumsOf(t.kids, i);
    }
  }

  lemma NumsOf(ts: seq<Placed>, i: nat)
    requires i < |ts|
    ensures Nums(ts[i]) <= NumsAll(ts)
  {
    hide Nums, NumsAll;
    var a, c := ts[..i], ts[i + 1..];
    assert ts == a + ([ts[i]] + c);
    NumsAppend(a, [ts[i]] + c);
    NumsAppend([ts[i]], c);
    Single(ts[i]);
  }

  lemma InOne(ts: seq<Placed>, i: nat, x: nat)
    requires i < |ts|
    ensures x in NumsAll(ts) ==> x in NumsAll(ts[..i]) || x in Nums(ts[i]) || x in NumsAll(ts[i + 1..])
  {
    hide Nums, NumsAll;
    var a, c := ts[..i], ts[i + 1..];
    assert ts == a + ([ts[i]] + c);
    NumsAppend(a, [ts[i]] + c);
    NumsAppend([ts[i]], c);
    Single(ts[i]);
  }

  lemma HoldsParts(pages: map<nat, Mvcc.Page>, ts: seq<Placed>, i: nat, pay: Body -> int)
    requires i < |ts| && HoldsAll(pages, ts, pay)
    ensures HoldsAll(pages, ts[..i], pay) && HoldsAll(pages, ts[i + 1..], pay)
  {
    hide Holds, HoldsAll;
    var a, c := ts[..i], ts[i + 1..];
    assert ts == a + ([ts[i]] + c);
    HoldsAppend(pages, a, [ts[i]] + c, pay);
    HoldsAppend(pages, [ts[i]], c, pay);
  }

  // ----- the run ---------------------------------------------------------------------------------

  /** The writer after mdb_page_touch. */
  ghost function Touched(s: Mvcc.State, p: nat, q: nat): Mvcc.State
    requires s.writer.Some? && p in s.file
  {
    var w := s.writer.value;
    var d := map x | x in w.dirty :: if x == q then s.file[p] else Mvcc.Relink(w.dirty[x], p, q);
    s.(writer := Some(w.(roots := if p in w.roots then w.roots - {p} + {q} else w.roots, owned := w.owned - {p} + {q},
                         spare := w.spare - {q}, dirty := d, freed := w.freed + {p})))
  }

  /** Copying the first clean page of the descent is a step of the protocol and leaves the tree on its new page. */
  lemma TouchShown(s: Mvcc.State, t: Placed, k: int, q: nat, rest: map<nat, Mvcc.Page>, others: set<nat>,
                   pay: Body -> int)
    returns (s': Mvcc.State)
    requires Shown(s, t, rest, others, pay) && Clean(t, k, s.writer.value.dirty.Keys).Some?
    requires q in s.writer.value.spare && q in s.writer.value.dirty && q !in s.writer.value.owned
    ensures var w := s.writer.value; var p := Clean(t, k, w.dirty.Keys).value;
      && p in s.file && s' == Touched(s, p, q) && Mvcc.Next(s, s', Mvcc.STouch(p, q))
      && Shown(s', Moved(t, k, w.dirty.Keys, q), rest, others, pay) && w.owned == Nums(t) + rest.Keys && p in Nums(t)
  {
    hide Holds, Nums, Apart, Mvcc.Tree, Moved, Mvcc.Relink, Clean, Mvcc.View, Relinked;
    var w := s.writer.value;
    var p, view := Clean(t, k, w.dirty.Keys).value, Mvcc.View(s.file, w.owned, w.dirty);
    CleanIn(t, k, w.dirty.Keys);
    s' := Touched(s, p, q);
    ParentsDirty(s, t, k, rest, others, pay);
    var view' := Mvcc.View(s.file, w.owned - {p} + {q}, s'.writer.value.dirty);
    ViewTouched(s, p, q);
    MovedHolds(view, view', t, k, w.dirty.Keys, q, pay);
    MovedNums(t, k, w.dirty.Keys, q);
    ViewKeys(s.file, w.owned, w.dirty);
    RestKept(view, view', p, q, rest, others);
    MovedRoot(t, k, w.dirty.Keys, q);
    OtherRoots(rest, others);
  }

  lemma ViewTouched(s: Mvcc.State, p: nat, q: nat)
    requires s.writer.Some? && p in s.file && p in s.writer.value.owned && p !in s.writer.value.dirty
    requires q in s.writer.value.dirty && q !in s.writer.value.owned
    requires s.writer.value.owned <= s.file.Keys + s.writer.value.dirty.Keys
    requires forall x :: x in s.writer.value.owned && x !in s.writer.value.dirty && x in s.file ==> p !in s.file[x].kids
    ensures var w, w' := s.writer.value, Touched(s, p, q).writer.value;
      && w'.owned <= s.file.Keys + w'.dirty.Keys
      && Relinked(Mvcc.View(s.file, w.owned, w.dirty), Mvcc.View(s.file, w'.owned, w'.dirty), p, q)
  {
    hide Mvcc.Relink, Mvcc.View;
    var w := s.writer.value;
    Mvcc.TouchView(s.file, w.owned, w.dirty, p, q);
  }

  lemma ParentsDirty(s: Mvcc.State, t: Placed, k: int, rest: map<nat, Mvcc.Page>, others: set<nat>, pay: Body -> int)
    requires Shown(s, t, rest, others, pay) && Clean(t, k, s.writer.value.dirty.Keys).Some?
    ensures var w := s.writer.value; var p := Clean(t, k, w.dirty.Keys).value;
      forall x :: x in w.owned && x !in w.dirty && x in s.file ==> p !in s.file[x].kids
  {
    hide Holds, Nums, Apart, Mvcc.Tree, Clean;
    var w := s.writer.value;
    var p, view := Clean(t, k, w.dirty.Keys).value, Mvcc.View(s.file, w.owned, w.dirty);
    CleanIn(t, k, w.dirty.Keys);
    forall x | x in w.owned && x !in w.dirty && x in s.file ensures p !in s.file[x].kids {
      assert view[x] == s.file[x];
      if x in rest {
        RestPoints(rest, others, x);
      } else {
        NoCleanParent(view, t, k, w.dirty.Keys, pay, x);
      }
    }
  }

  lemma RestPoints(rest: map<nat, Mvcc.Page>, others: set<nat>, x: nat)
    requires Mvcc.Tree(rest, others) && x in rest
    ensures Mvcc.Kids(rest[x]) <= rest.Keys
  {
  }

  lemma OtherRoots(rest: map<nat, Mvcc.Page>, others: set<nat>)
    requires Mvcc.Tree(rest, others)
    ensures others <= rest.Keys
  {
  }

  lemma RestKept(view: map<nat, Mvcc.Page>, view': map<nat, Mvcc.Page>, p: nat, q: nat, rest: map<nat, Mvcc.Page>,
                 others: set<nat>)
    requires Relinked(view, view', p, q) && Mvcc.Tree(rest, others) && p !in rest
    requires forall x :: x in rest ==> x in view && view[x] == rest[x]
    ensures forall x :: x in rest ==> x in view' && view'[x] == rest[x]
  {
    hide Mvcc.Tree;
    forall x | x in rest ensures x in view' && view'[x] == rest[x] {
      RestPoints(rest, others, x);
    }
  }

  lemma MovedRoot(t: Placed, k: int, dirty: set<nat>, q: nat)
    requires Clean(t, k, dirty).Some? && Apart(t)
    ensures Moved(t, k, dirty, q).pg == if Clean(t, k, dirty).value == t.pg then q else t.pg
  {
    hide NumsAll, ApartAll;
    if t.pg in dirty { CleanIn(t, k, dirty); }
  }

  /** The number of clean pages on the descent. */
  ghost function CleanCount(t: Placed, k: int, dirty: set<nat>): nat {
    (if t.pg in dirty then 0 else 1) + if t.PLeaf? then 0 else
      var i := ChildOf(t.keys, k);
      if i < |t.kids| then CleanCount(t.kids[i], k, dirty) else 0
  }

  lemma {:induction false} OneLess(t: Placed, k: int, dirty: set<nat>, q: nat)
    requires q in dirty
    ensures if Clean(t, k, dirty).Some? then CleanCount(Moved(t, k, dirty, q), k, dirty) == CleanCount(t, k, dirty) - 1
      else CleanCount(t, k, dirty) == 0 && Path(t, k) <= dirty
  {
    if t.pg in dirty && t.PBranch? {
      var i := ChildOf(t.keys, k);
      if i < |t.kids| { OneLess(t.kids[i], k, dirty, q); }
    }
  }
}
