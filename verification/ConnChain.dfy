/**
 The chains of connection-pool.c as they are linked: every entry points to the next one and to the one before
 it, and is relinked in place.  Each operation is shown to leave a well-formed chain that shows the list the
 pool is said to have afterwards.
 */
module ConnChain {
  import opened ConnPool

  class Entry {
    var conn: Conn
    var next: Entry?
    var uper: Entry?

    constructor (c: Conn)
      ensures conn == c && next == null && uper == null
    {
      conn, next, uper := c, null, null;
    }
  }

  function At(es: seq<Entry>, i: int): Entry? {
    if 0 <= i < |es| then es[i] else null
  }

  ghost predicate Distinct(es: seq<Entry>) {
    forall i, j :: 0 <= i < j < |es| ==> es[i] != es[j]
  }

  /** Entry i points to its neighbours. */
  ghost predicate Placed(es: seq<Entry>, i: nat)
    requires i < |es|
    reads es[i]
  {
    es[i].next == At(es, i + 1) && es[i].uper == At(es, i - 1)
  }

  /** From head, next leads through es and uper leads back. */
  ghost predicate Linked(head: Entry?, es: seq<Entry>)
    reads es
  {
    Distinct(es) && head == At(es, 0) && forall i :: 0 <= i < |es| ==> Placed(es, i)
  }

  /** The chain shows the list l. */
  ghost predicate Shows(es: seq<Entry>, l: seq<Conn>)
    reads es
  {
    |es| == |l| && forall i :: 0 <= i < |es| ==> es[i].conn == l[i]
  }

  lemma WithoutAt<T>(s: seq<T>, j: nat, i: nat)
    requires j < |s| && i < |s| - 1
    ensures |Without(s, j)| == |s| - 1 && Without(s, j)[i] == s[if i < j then i else i + 1]
  {
  }

  lemma DistinctWithout(es: seq<Entry>, j: nat)
    requires Distinct(es) && j < |es|
    ensures Distinct(Without(es, j)) && |Without(es, j)| == |es| - 1
  {
    var ws := Without(es, j);
    forall i, k | 0 <= i < k < |ws| ensures ws[i] != ws[k] {
      WithoutAt(es, j, i);
      WithoutAt(es, j, k);
    }
  }

  /** What the places next to entry j point to once it is out. */
  function NextBut(es: seq<Entry>, j: nat, i: int): Entry? {
    if i == j - 1 then At(es, j + 1) else At(es, i + 1)
  }

  function UperBut(es: seq<Entry>, j: nat, i: int): Entry? {
    if i == j + 1 then At(es, j - 1) else At(es, i - 1)
  }

  /** All but entry j point past it. */
  ghost predicate Past(es: seq<Entry>, j: nat, i: nat)
    requires i < |es|
    reads es[i]
  {
    es[i].next == NextBut(es, j, i) && es[i].uper == UperBut(es, j, i)
  }

  lemma PlacedWithout(es: seq<Entry>, j: nat, i: nat)
    requires j < |es| && i < |es| - 1 && Past(es, j, if i < j then i else i + 1)
    ensures |Without(es, j)| == |es| - 1 && Placed(Without(es, j), i)
  {
    hide Without;
    WithoutAt(es, j, i);
    if i > 0 { WithoutAt(es, j, i - 1); }
    if i + 1 < |es| - 1 { WithoutAt(es, j, i + 1); }
  }

  lemma LinkedWithout(es: seq<Entry>, j: nat)
    requires j < |es| && Distinct(es) && forall i :: 0 <= i < |es| && i != j ==> Past(es, j, i)
    ensures Linked(if j == 0 then At(es, 1) else es[0], Without(es, j))
  {
    hide Distinct, Without, Past, Placed;
    DistinctWithout(es, j);
    forall i | 0 <= i < |es| - 1 ensures Placed(Without(es, j), i) { PlacedWithout(es, j, i); }
    if |es| > 1 { WithoutAt(es, j, 0); }
  }

  lemma ShowsWithout(es: seq<Entry>, l: seq<Conn>, j: nat)
    requires Shows(es, l) && j < |es|
    ensures Shows(Without(es, j), Without(l, j))
  {
    hide Without;
    WithoutSize(es, j);
    WithoutSize(l, j);
    forall i | 0 <= i < |es| - 1 ensures Without(es, j)[i].conn == Without(l, j)[i] {
      WithoutAt(es, j, i);
      WithoutAt(l, j, i);
    }
  }

  lemma WithoutSize<T>(s: seq<T>, j: nat)
    requires j < |s|
    ensures |Without(s, j)| == |s| - 1
  {
  }

  lemma Same(es: seq<Entry>, a: nat, b: nat)
    requires Distinct(es) && a < |es| && b < |es|
    ensures es[a] == es[b] <==> a == b
  {
  }

  /** An entry other than j points past it when the neighbours of j were joined and the others left alone. */
  lemma Rejoined(es: seq<Entry>, j: nat, i: nat, next: Entry?, uper: Entry?)
    requires Distinct(es) && j < |es| && i < |es| && i != j && next == At(es, i + 1) && uper == At(es, i - 1)
    requires es[i].next == if j > 0 && es[i] == es[j - 1] then At(es, j + 1) else next
    requires es[i].uper == if j + 1 < |es| && es[i] == es[j + 1] then At(es, j - 1) else uper
    ensures Past(es, j, i)
  {
    hide Distinct;
    if j > 0 { Same(es, i, j - 1); }
    if j + 1 < |es| { Same(es, i, j + 1); }
  }

  /** Taking an entry out of its chain, as get_connection_in_pool does: the head moves on, or the neighbours are
      joined. */
  method Unlink(head: Entry?, n: Entry, ghost es: seq<Entry>, ghost l: seq<Conn>, ghost j: nat) returns (head': Entry?)
    requires Linked(head, es) && Shows(es, l) && j < |es| && es[j] == n
    modifies es
    ensures Linked(head', Without(es, j)) && Shows(Without(es, j), Without(l, j))
  {
    hide Distinct, Without;
    assert Placed(es, j);
    Same(es, 0, j);
    head' := head;
    if n == head {
      head' := n.next;
      if n.next != null { n.next.uper := null; }
    } else {
      n.uper.next := n.next;
      if n.next != null { n.next.uper := n.uper; }
    }
    forall i | 0 <= i < |es| && i != j ensures Past(es, j, i) {
      assert old(Placed(es, i));
      Rejoined(es, j, i, old(es[i].next), old(es[i].uper));
    }
    LinkedWithout(es, j);
    ShowsWithout(es, l, j);
  }

  ghost predicate Apart(es: seq<Entry>, fs: seq<Entry>) {
    forall e :: e in es ==> e !in fs
  }

  /** cosocket_be_close: the entry heads one of the two chains of its bucket, or has one before it; whichever
      chain it is in loses it, and the other stays. */
  method BeClose(h0: Entry?, h1: Entry?, n: Entry, ghost es: seq<Entry>, ghost fs: seq<Entry>, ghost l: seq<Conn>,
                 ghost m: seq<Conn>, ghost j: nat)
    returns (h0': Entry?, h1': Entry?)
    requires Linked(h0, es) && Linked(h1, fs) && Shows(es, l) && Shows(fs, m) && Apart(es, fs)
    requires At(es, j) == n || At(fs, j) == n
    modifies es, fs
    ensures At(es, j) == n ==>
      Linked(h0', Without(es, j)) && Shows(Without(es, j), Without(l, j)) && Linked(h1', fs) && Shows(fs, m)
    ensures At(es, j) != n ==>
      Linked(h0', es) && Shows(es, l) && Linked(h1', Without(fs, j)) && Shows(Without(fs, j), Without(m, j))
  {
    hide Distinct, Without;
    h0', h1' := h0, h1;
    Neighbours(h0, h1, n, es, fs, j);
    if n == h0 {
      h0' := n.next;
      if n.next != null { n.next.uper := null; }
    } else if n == h1 {
      h1' := n.next;
      if n.next != null { n.next.uper := null; }
    } else {
      n.uper.next := n.next;
      if n.next != null { n.next.uper := n.uper; }
    }
    ghost var own := if At(es, j) == n then es else fs;
    forall i | 0 <= i < |own| && i != j ensures Past(own, j, i) {
      assert old(Placed(own, i));
      Rejoined(own, j, i, old(own[i].next), old(own[i].uper));
    }
    LinkedWithout(own, j);
    ShowsWithout(own, if At(es, j) == n then l else m, j);
  }

  /** The entry and its neighbours are in one chain only, and it heads a chain exactly when it is its first. */
  lemma Neighbours(h0: Entry?, h1: Entry?, n: Entry, es: seq<Entry>, fs: seq<Entry>, j: nat)
    requires Linked(h0, es) && Linked(h1, fs) && Apart(es, fs) && (At(es, j) == n || At(fs, j) == n)
    ensures var own, other := if At(es, j) == n then es else fs, if At(es, j) == n then fs else es;
      && j < |own| && own[j] == n && n !in other
      && n.next == At(own, j + 1) && n.uper == At(own, j - 1)
      && (n.next != null ==> n.next in own && n.next !in other)
      && (n.uper != null ==> n.uper in own && n.uper !in other)
    ensures n == h0 <==> At(es, j) == n && j == 0
    ensures n == h1 <==> At(es, j) != n && j == 0
  {
    hide Distinct;
    var own := if At(es, j) == n then es else fs;
    assert Placed(own, j);
    Same(own, 0, j);
  }

  /** Putting an entry in front of a chain. */
  method Push(head: Entry?, m: Entry, ghost es: seq<Entry>, ghost l: seq<Conn>)
    requires Linked(head, es) && Shows(es, l) && m !in es
    modifies m`next, m`uper, es`uper
    ensures Linked(m, [m] + es) && Shows([m] + es, [m.conn] + l)
  {
    hide Distinct;
    if head == null {
      m.next, m.uper := null, null;
    } else {
      m.uper, m.next := null, head;
      head.uper := m;
    }
    DistinctFront(es, m);
    forall i | 0 <= i < |es| + 1 ensures Placed([m] + es, i) {
      if i > 0 {
        assert old(Placed(es, i - 1));
        Same(es, 0, i - 1);
      }
    }
  }

  lemma DistinctFront(es: seq<Entry>, m: Entry)
    requires Distinct(es) && m !in es
    ensures Distinct([m] + es)
  {
  }

  lemma DistinctBack(es: seq<Entry>, m: Entry)
    requires Distinct(es) && m !in es
    ensures Distinct(es + [m])
  {
  }

  /** The walk of add_connection_to_pool: the last entry, or null at the entry that makes it more than size with
      the key. */
  method Walk(head: Entry, key: nat, size: int, ghost es: seq<Entry>, ghost l: seq<Conn>) returns (n: Entry?)
    requires Linked(head, es) && Shows(es, l)
    ensures n == null <==> Full(Number(l, key), size)
    ensures n != null ==> es != [] && n == es[|es| - 1]
  {
    hide Distinct, Number;
    n := head;
    var count := 0;
    ghost var k := 0;
    NoneWithKey(l, key);
    while true
      invariant 0 <= k < |es| && n == es[k] && count == Number(l[..k], key) && !Full(count, size)
      decreases |es| - k
    {
      NumberStep(l, key, k);
      assert Placed(es, k);
      if n.conn.key == key {
        if count >= size { return null; }
        count := count + 1;
      }
      if n.next == null {
        assert l[..k + 1] == l;
        return;
      }
      n := n.next;
      k := k + 1;
    }
  }

  lemma NoneWithKey(l: seq<Conn>, key: nat)
    ensures Number(l[..0], key) == 0
  {
  }

  lemma NumberStep(l: seq<Conn>, key: nat, k: nat)
    requires k < |l|
    ensures Number(l[..k + 1], key) == Number(l[..k], key) + if l[k].key == key then 1 else 0
    ensures Number(l, key) >= Number(l[..k + 1], key)
  {
    assert l[..k + 1][..k] == l[..k];
    NumberGrows(l, key, k + 1);
  }

  lemma {:induction false} NumberGrows(l: seq<Conn>, key: nat, k: nat)
    requires k <= |l|
    ensures Number(l[..k], key) <= Number(l, key)
  {
    if k == |l| {
      assert l[..k] == l;
    } else {
      NumberGrows(l[..|l| - 1], key, k);
      assert l[..|l| - 1][..k] == l[..k];
    }
  }

  /** add_connection_to_pool on a chain: refused exactly when it has more than size entries with the key, else the
      new entry is hung behind the last one. */
  method Append(head: Entry?, c: Conn, size: int, ghost es: seq<Entry>, ghost l: seq<Conn>)
    returns (ok: bool, head': Entry?, ghost es': seq<Entry>)
    requires Linked(head, es) && Shows(es, l)
    modifies es`next
    ensures ok <==> !Full(Number(l, c.key), size)
    ensures Linked(head', es') && Shows(es', if ok then l + [c] else l)
    ensures if ok then |es'| == |es| + 1 && es <= es' && fresh(es'[|es|]) else es' == es && head' == head
  {
    hide Distinct, Number;
    if head == null {
      var m := new Entry(c);
      NoneWithKey(l, c.key);
      assert l[..0] == l;
      es' := [m];
      assert Distinct(es') by { One(m); }
      return true, m, es';
    }
    var n := Walk(head, c.key, size, es, l);
    if n == null { return false, head, es; }
    var m := new Entry(c);
    m.uper := n;
    n.next := m;
    DistinctBack(es, m);
    es' := es + [m];
    forall i | 0 <= i < |es| + 1 ensures Placed(es', i) {
      if i < |es| {
        assert old(Placed(es, i));
        Same(es, |es| - 1, i);
      }
    }
    return true, head, es';
  }

  lemma One(m: Entry)
    ensures Distinct([m])
  {
  }

  /** The entries of an old chain that are moved over, the last one first. */
  ghost function Moved(es: seq<Entry>, l: seq<Conn>): (r: seq<Entry>)
    requires |es| == |l|
    ensures forall e :: e in r ==> e in es
  {
    if es == [] then [] else
      var n := |es| - 1;
      (if l[n].z == 0 then [es[n]] else []) + Moved(es[..n], l[..n])
  }

  /** The new chain with the first k entries dealt with. */
  ghost function Chain(es: seq<Entry>, fs: seq<Entry>, l: seq<Conn>, k: nat): (r: seq<Entry>)
    requires |es| == |l| && k <= |es|
    ensures forall e :: e in r ==> e in es || e in fs
  {
    Moved(es[..k], l[..k]) + fs
  }

  ghost function List(l: seq<Conn>, m: seq<Conn>, t: int, k: nat): seq<Conn>
    requires k <= |l|
  {
    Marks(l[..k], t) + m
  }

  lemma ChainFresh(es: seq<Entry>, fs: seq<Entry>, l: seq<Conn>, k: nat)
    requires |es| == |l| && k < |es| && Distinct(es) && Apart(es, fs)
    ensures forall i :: k <= i < |es| ==> es[i] !in Chain(es, fs, l, k)
    ensures forall i :: k < i < |es| ==> es[i] != es[k]
  {
    hide Distinct, Moved;
    forall i | k <= i < |es| ensures es[i] !in Chain(es, fs, l, k) { NotBefore(es, k, i); }
    forall i | k < i < |es| ensures es[i] != es[k] { Same(es, k, i); }
  }

  lemma ChainGrows(es: seq<Entry>, fs: seq<Entry>, l: seq<Conn>, k: nat)
    requires |es| == |l| && k < |es|
    ensures Chain(es, fs, l, k + 1) == if l[k].z == 0 then [es[k]] + Chain(es, fs, l, k) else Chain(es, fs, l, k)
  {
    hide Moved;
    MovedMore(es, l, k);
    Joined(if l[k].z == 0 then [es[k]] else [], Moved(es[..k], l[..k]), fs);
  }

  lemma ListGrows(l: seq<Conn>, m: seq<Conn>, t: int, k: nat)
    requires k < |l|
    ensures List(l, m, t, k + 1) == if l[k].z == 0 then [l[k].(z := 1, since := t)] + List(l, m, t, k)
      else List(l, m, t, k)
  {
    hide Marks;
    MarksNext(l, t, k);
    Joined(if l[k].z == 0 then [l[k].(z := 1, since := t)] else [], Marks(l[..k], t), m);
  }

  lemma Joined<T>(a: seq<T>, b: seq<T>, c: seq<T>)
    ensures (a + b) + c == a + (b + c) && [] + (b + c) == b + c
  {
  }

  lemma MovedMore(es: seq<Entry>, l: seq<Conn>, k: nat)
    requires |es| == |l| && k < |es|
    ensures Moved(es[..k + 1], l[..k + 1]) == (if l[k].z == 0 then [es[k]] else []) + Moved(es[..k], l[..k])
  {
    assert es[..k + 1][..k] == es[..k] && l[..k + 1][..k] == l[..k];
  }

  lemma NotBefore(es: seq<Entry>, k: nat, i: nat)
    requires Distinct(es) && k <= i < |es|
    ensures es[i] !in es[..k]
  {
  }

  /** Entry i of the old chain, as it was. */
  ghost predicate AsWas(es: seq<Entry>, l: seq<Conn>, i: nat)
    requires i < |es| == |l|
    reads es[i]
  {
    es[i].next == At(es, i + 1) && es[i].conn == l[i]
  }

  /** The rest of the old chain. */
  ghost predicate RestOf(es: seq<Entry>, l: seq<Conn>, k: nat)
    requires |es| == |l|
    reads es
  {
    forall i :: k <= i < |es| ==> AsWas(es, l, i)
  }

  /** Entry k of the old chain: in front of the new one with its mark set, or let go. */
  method MoveOne(head: Entry?, t: int, e: Entry, ghost es: seq<Entry>, ghost fs: seq<Entry>, ghost l: seq<Conn>,
                 ghost m: seq<Conn>, ghost k: nat)
    returns (head': Entry?)
    requires |es| == |l| && k < |es| && e == es[k] && Distinct(es) && Apart(es, fs) && RestOf(es, l, k)
    requires Linked(head, Chain(es, fs, l, k)) && Shows(Chain(es, fs, l, k), List(l, m, t, k))
    modifies e, Chain(es, fs, l, k)`uper
    ensures RestOf(es, l, k + 1)
    ensures Linked(head', Chain(es, fs, l, k + 1)) && Shows(Chain(es, fs, l, k + 1), List(l, m, t, k + 1))
  {
    hide Distinct, Chain, List, Linked, Shows;
    ghost var gs, ms := Chain(es, fs, l, k), List(l, m, t, k);
    assert AsWas(es, l, k);
    ChainFresh(es, fs, l, k);
    ChainGrows(es, fs, l, k);
    ListGrows(l, m, t, k);
    head' := head;
    if e.conn.z == 0 {
      e.conn := e.conn.(z := 1, since := t);
      Push(head, e, gs, ms);
      head' := e;
    }
    forall i | k + 1 <= i < |es| ensures AsWas(es, l, i) { assert old(AsWas(es, l, i)); }
  }

  /** One bucket of the clearing loop of get_connection_in_pool: entries not moved before go to the front of the
      other chain one by one, the rest are let go. */
  method MoveOver(from: Entry?, into: Entry?, t: int, ghost es: seq<Entry>, ghost fs: seq<Entry>, ghost l: seq<Conn>,
                  ghost m: seq<Conn>)
    returns (head: Entry?)
    requires Linked(from, es) && Linked(into, fs) && Shows(es, l) && Shows(fs, m) && Apart(es, fs)
    modifies es, fs
    ensures Linked(head, Moved(es, l) + fs) && Shows(Moved(es, l) + fs, Marks(l, t) + m)
  {
    hide Distinct, Moved, Marks, Linked, Shows, Chain, List, RestOf, Apart;
    head := into;
    var n := from;
    ghost var k := 0;
    Start(from, es, fs, l, m, t);
    while n != null
      invariant 0 <= k <= |es| == |l| && n == At(es, k) && RestOf(es, l, k)
      invariant Linked(head, Chain(es, fs, l, k)) && Shows(Chain(es, fs, l, k), List(l, m, t, k))
      decreases |es| - k
    {
      var e := n;
      First(es, l, k);
      n := n.next;
      Inside(es, fs, l, k);
      head := MoveOne(head, t, e, es, fs, l, m, k);
      k := k + 1;
    }
    Finished(es, fs, l, m, t);
  }

  lemma First(es: seq<Entry>, l: seq<Conn>, k: nat)
    requires |es| == |l| && k < |es| && RestOf(es, l, k)
    ensures es[k].next == At(es, k + 1)
  {
    assert AsWas(es, l, k);
  }

  lemma Inside(es: seq<Entry>, fs: seq<Entry>, l: seq<Conn>, k: nat)
    requires |es| == |l| && k <= |es|
    ensures var gs := Chain(es, fs, l, k); forall i :: 0 <= i < |gs| ==> gs[i] in es || gs[i] in fs
  {
  }

  lemma Start(from: Entry?, es: seq<Entry>, fs: seq<Entry>, l: seq<Conn>, m: seq<Conn>, t: int)
    requires Linked(from, es) && Shows(es, l)
    ensures |es| == |l| && from == At(es, 0) && RestOf(es, l, 0) && Distinct(es) && Chain(es, fs, l, 0) == fs
    ensures List(l, m, t, 0) == m
  {
    forall i | 0 <= i < |es| ensures AsWas(es, l, i) { assert Placed(es, i); }
  }

  lemma Finished(es: seq<Entry>, fs: seq<Entry>, l: seq<Conn>, m: seq<Conn>, t: int)
    requires |es| == |l|
    ensures Chain(es, fs, l, |es|) == Moved(es, l) + fs && List(l, m, t, |es|) == Marks(l, t) + m
  {
    assert es[..|es|] == es && l[..|es|] == l;
  }
}
