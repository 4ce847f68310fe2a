/**
 Slotted pages of mdb.c: a page holds a growing array of slots after its header and node
 bytes packed downwards from its end.  Adding, deleting and re-keying a node move bytes
 and offsets in place; here they are shown to be insert, remove and replace on the sequence
 of entries the page stands for.
 */
module SlottedPage {
  import opened Common
  import opened Octets

  const HEADER: nat := 16        // PAGEHDRSZ
  const NODESIZE: nat := 8

  /** A node: size or page-number word, flags, key bytes and payload bytes. */
  datatype Node = Node(word: nat, flags: nat, key: seq<byte>, data: seq<byte>)

  function Even(n: int): (r: int)
    ensures r % 2 == 0 && n <= r <= n + 1
  {
    n + n % 2
  }

  /** The payload follows from the header: nothing on a branch page, a page number when the
      data is on overflow pages (F_BIGDATA), the data itself otherwise. */
  predicate WellFormed(n: Node, leaf: bool) {
    && n.word < 0x1_0000_0000 && n.flags < 0x1_0000 && |n.key| < 0x1_0000
    && |n.data| == if !leaf then 0 else if n.flags % 2 == 1 then 8 else n.word
  }

  function Two(h: nat): (r: seq<byte>)
    requires h < 0x1_0000
    ensures |r| == 2 && Half(r, 0) == h
  {
    [h % 256, h / 256]
  }

  function Half(m: seq<byte>, p: nat): (h: nat)
    requires p + 1 < |m|
    ensures h < 0x1_0000
  {
    m[p] as int + 256 * m[p + 1] as int
  }

  function Head(word: nat, flags: nat, ksize: nat): (r: seq<byte>)
    requires word < 0x1_0000_0000 && flags < 0x1_0000 && ksize < 0x1_0000
    ensures |r| == NODESIZE && Half(r, 0) + 0x1_0000 * Half(r, 2) == word && Half(r, 4) == flags && Half(r, 6) == ksize
  {
    Two(word % 0x1_0000) + Two(word / 0x1_0000) + Two(flags) + Two(ksize)
  }

  /** The bytes of a node. */
  function Bytes(n: Node): (r: seq<byte>)
    requires n.word < 0x1_0000_0000 && n.flags < 0x1_0000 && |n.key| < 0x1_0000
    ensures |r| == NODESIZE + |n.key| + |n.data|
  {
    Head(n.word, n.flags, |n.key|) + n.key + n.data
  }

  /** The space a node takes, rounded up to keep headers aligned. */
  function Size(n: Node): (r: nat)
    ensures r % 2 == 0 && r >= NODESIZE
  {
    Even(NODESIZE + |n.key| + |n.data|)
  }

  ghost predicate Stored(mem: seq<byte>, p: nat, n: Node, leaf: bool) {
    && WellFormed(n, leaf) && p + |Bytes(n)| <= |mem|
    && mem[p..p + |Bytes(n)|] == Bytes(n)
  }

  /** The header bytes in memory are those of the node. */
  lemma HeaderAt(mem: seq<byte>, p: nat, n: Node, leaf: bool)
    requires Stored(mem, p, n, leaf)
    ensures Half(mem, p) + 0x1_0000 * Half(mem, p + 2) == n.word && Half(mem, p + 4) == n.flags
    ensures Half(mem, p + 6) == |n.key|
  {
    var s, h := mem[p..p + |Bytes(n)|], Head(n.word, n.flags, |n.key|);
    assert forall k :: 0 <= k < 8 ==> mem[p + k] == s[k] == h[k];
  }

  /** Bytes determine the entry: the abstraction is a function of the page. */
  lemma StoredOnce(mem: seq<byte>, p: nat, a: Node, b: Node, leaf: bool)
    requires Stored(mem, p, a, leaf) && Stored(mem, p, b, leaf)
    ensures a == b
  {
    HeaderAt(mem, p, a, leaf);
    HeaderAt(mem, p, b, leaf);
    KeyAt(mem, p, a, leaf);
    KeyAt(mem, p, b, leaf);
  }

  lemma KeyAt(mem: seq<byte>, p: nat, n: Node, leaf: bool)
    requires Stored(mem, p, n, leaf)
    ensures mem[p + 8..p + 8 + |n.key|] == n.key
    ensures mem[p + 8 + |n.key|..p + 8 + |n.key| + |n.data|] == n.data
  {
    var s, l := mem[p..p + |Bytes(n)|], |n.key|;
    assert s[8..8 + l] == n.key;
    assert s[8 + l..|s|] == n.data;
    Slice(mem, p, p + |s|, 8, 8 + l);
    Slice(mem, p, p + |s|, 8 + l, |s|);
  }

  lemma Slice(m: seq<byte>, p: nat, q: nat, a: nat, b: nat)
    requires p <= q <= |m| && a <= b <= q - p
    ensures m[p..q][a..b] == m[p + a..p + b]
  {
    var x, y := m[p..q][a..b], m[p + a..p + b];
    assert forall k :: 0 <= k < |x| ==> x[k] == m[p..q][a + k];
    assert forall k :: 0 <= k < |x| ==> x[k] == y[k];
  }

  // ----- the layout ----------------------------------------------------------------------

  ghost predicate Apart(p: nat, a: nat, q: nat, b: nat) {
    p + a <= q || q + b <= p
  }

  ghost predicate Inside(p: nat, n: Node, upper: nat, psize: nat) {
    upper <= p && p + Size(n) <= psize && p % 2 == 0
  }

  /** Every node lies, aligned, in [upper, psize) and no two overlap. */
  ghost predicate Placed(ptrs: seq<nat>, nodes: seq<Node>, upper: nat, psize: nat) {
    && |ptrs| == |nodes|
    && (forall i :: 0 <= i < |ptrs| ==> Inside(ptrs[i], nodes[i], upper, psize))
    && (forall i, j :: 0 <= i < j < |ptrs| ==> Apart(ptrs[i], Size(nodes[i]), ptrs[j], Size(nodes[j])))
  }

  ghost predicate AllStored(mem: seq<byte>, ptrs: seq<nat>, nodes: seq<Node>, leaf: bool) {
    |ptrs| == |nodes| && forall i :: 0 <= i < |ptrs| ==> Stored(mem, ptrs[i], nodes[i], leaf)
  }

  ghost function Total(nodes: seq<Node>): nat {
    if nodes == [] then 0 else Size(nodes[0]) + Total(nodes[1..])
  }

  function Insert<T>(s: seq<T>, i: nat, x: T): (r: seq<T>)
    requires i <= |s|
    ensures |r| == |s| + 1 && r[i] == x
    ensures forall j :: 0 <= j < |r| && j != i ==> r[j] == s[if j < i then j else j - 1]
  {
    s[..i] + [x] + s[i..]
  }

  function Remove<T>(s: seq<T>, i: nat): (r: seq<T>)
    requires i < |s|
    ensures |r| == |s| - 1
    ensures forall j :: 0 <= j < |r| ==> r[j] == s[if j < i then j else j + 1]
  {
    s[..i] + s[i + 1..]
  }

  lemma {:induction false} TotalInsert(s: seq<Node>, i: nat, n: Node)
    requires i <= |s|
    ensures Total(Insert(s, i, n)) == Total(s) + Size(n)
  {
    var t := Insert(s, i, n);
    if i == 0 {
      assert t[1..] == s;
    } else {
      TotalInsert(s[1..], i - 1, n);
      assert t[1..] == Insert(s[1..], i - 1, n);
    }
  }

  lemma TotalRemove(s: seq<Node>, i: nat)
    requires i < |s|
    ensures Total(Remove(s, i)) == Total(s) - Size(s[i])
  {
    TotalInsert(Remove(s, i), i, s[i]);
    assert Insert(Remove(s, i), i, s[i]) == s;
  }

  lemma TotalReplace(s: seq<Node>, i: nat, n: Node)
    requires i < |s|
    ensures Total(s[i := n]) == Total(s) - Size(s[i]) + Size(n)
  {
    TotalRemove(s, i);
    TotalInsert(Remove(s, i), i, n);
    assert Insert(Remove(s, i), i, n) == s[i := n];
  }

  /** m with the bytes s at p. */
  function Overlay(m: seq<byte>, p: nat, s: seq<byte>): (r: seq<byte>)
    requires p + |s| <= |m|
    ensures |r| == |m|
    ensures forall k :: 0 <= k < |m| ==> r[k] == if p <= k < p + |s| then s[k - p] else m[k]
  {
    m[..p] + s + m[p + |s|..]
  }

  lemma OverlayParts(m: seq<byte>, p: nat, s: seq<byte>, t: seq<byte>)
    requires p + |s| + |t| <= |m|
    ensures Overlay(Overlay(m, p, s), p + |s|, t) == Overlay(m, p, s + t)
  {
  }

  // ----- add -------------------------------------------------------------------------------

  lemma AddPlaced(ptrs: seq<nat>, nodes: seq<Node>, upper: nat, psize: nat, i: nat, n: Node)
    requires Placed(ptrs, nodes, upper, psize) && i <= |ptrs| && Size(n) <= upper <= psize && upper % 2 == 0
    ensures Placed(Insert(ptrs, i, upper - Size(n)), Insert(nodes, i, n), upper - Size(n), psize)
  {
    hide Size;
    var p, m := Insert(ptrs, i, upper - Size(n)), Insert(nodes, i, n);
    forall j | 0 <= j < |p| ensures Inside(p[j], m[j], upper - Size(n), psize) {
      if j != i { assert Inside(ptrs[if j < i then j else j - 1], m[j], upper, psize); }
    }
    forall j, k | 0 <= j < k < |p| ensures Apart(p[j], Size(m[j]), p[k], Size(m[k])) {
      if j == i {
        assert Inside(ptrs[k - 1], m[k], upper, psize);
      } else if k == i {
        assert Inside(ptrs[j], m[j], upper, psize);
      }
    }
  }

  lemma AddStored(mem: seq<byte>, ptrs: seq<nat>, nodes: seq<Node>, leaf: bool, upper: nat, i: nat, n: Node)
    requires AllStored(mem, ptrs, nodes, leaf) && Placed(ptrs, nodes, upper, |mem|) && i <= |ptrs|
    requires WellFormed(n, leaf) && Size(n) <= upper <= |mem|
    ensures AllStored(Overlay(mem, upper - Size(n), Bytes(n)), Insert(ptrs, i, upper - Size(n)), Insert(nodes, i, n),
                      leaf)
  {
    hide Bytes;
    var p, m := Insert(ptrs, i, upper - Size(n)), Insert(nodes, i, n);
    var mem' := Overlay(mem, upper - Size(n), Bytes(n));
    WrittenNode(mem, upper - Size(n), n, leaf);
    forall j | 0 <= j < |p| ensures Stored(mem', p[j], m[j], leaf) {
      if j != i {
        var j' := if j < i then j else j - 1;
        assert Inside(ptrs[j'], nodes[j'], upper, |mem|) && Stored(mem, ptrs[j'], nodes[j'], leaf);
        assert mem'[p[j]..p[j] + |Bytes(m[j])|] == mem[p[j]..p[j] + |Bytes(m[j])|];
      }
    }
  }

  // ----- delete ----------------------------------------------------------------------------

  function Up(p: nat, ptr: nat, sz: nat): nat {
    if p < ptr then p + sz else p
  }

  /** The bytes below a deleted node move up over it. */
  ghost predicate MovedUp(m: seq<byte>, m': seq<byte>, upper: nat, ptr: nat, sz: nat)
    requires upper <= ptr && ptr + sz <= |m|
  {
    && |m'| == |m|
    && (forall k :: upper + sz <= k < ptr + sz ==> m'[k] == m[k - sz])
    && (forall k :: ptr + sz <= k < |m| ==> m'[k] == m[k])
  }

  ghost predicate Closed(ptrs: seq<nat>, p: seq<nat>, i: nat, sz: nat)
    requires i < |ptrs|
  {
    |p| == |ptrs| - 1 && forall j :: 0 <= j < |p| ==> p[j] == Up(ptrs[if j < i then j else j + 1], ptrs[i], sz)
  }

  lemma DelPlaced(ptrs: seq<nat>, nodes: seq<Node>, upper: nat, psize: nat, i: nat, p: seq<nat>)
    requires Placed(ptrs, nodes, upper, psize) && i < |ptrs| && Closed(ptrs, p, i, Size(nodes[i]))
    ensures Placed(p, Remove(nodes, i), upper + Size(nodes[i]), psize)
  {
    hide Size;
    var sz, m := Size(nodes[i]), Remove(nodes, i);
    forall j | 0 <= j < |p| ensures Inside(p[j], m[j], upper + sz, psize) {
      BesideDeleted(ptrs, nodes, upper, psize, i, if j < i then j else j + 1);
    }
    forall j, k | 0 <= j < k < |p| ensures Apart(p[j], Size(m[j]), p[k], Size(m[k])) {
      var j', k' := if j < i then j else j + 1, if k < i then k else k + 1;
      BesideDeleted(ptrs, nodes, upper, psize, i, j');
      BesideDeleted(ptrs, nodes, upper, psize, i, k');
      assert Apart(ptrs[j'], Size(nodes[j']), ptrs[k'], Size(nodes[k']));
    }
  }

  lemma BesideDeleted(ptrs: seq<nat>, nodes: seq<Node>, upper: nat, psize: nat, i: nat, j: nat)
    requires Placed(ptrs, nodes, upper, psize) && i < |ptrs| && j < |ptrs| && i != j
    ensures upper <= ptrs[i] && ptrs[i] + Size(nodes[i]) <= psize
    ensures if ptrs[j] < ptrs[i] then ptrs[j] + Size(nodes[j]) <= ptrs[i] else ptrs[i] + Size(nodes[i]) <= ptrs[j]
    ensures Inside(Up(ptrs[j], ptrs[i], Size(nodes[i])), nodes[j], upper + Size(nodes[i]), psize)
  {
    assert Inside(ptrs[j], nodes[j], upper, psize) && Inside(ptrs[i], nodes[i], upper, psize);
    if i < j {
      assert Apart(ptrs[i], Size(nodes[i]), ptrs[j], Size(nodes[j]));
    } else {
      assert Apart(ptrs[j], Size(nodes[j]), ptrs[i], Size(nodes[i]));
    }
  }

  lemma DelStored(mem: seq<byte>, mem': seq<byte>, ptrs: seq<nat>, nodes: seq<Node>, leaf: bool, upper: nat, i: nat,
                  p: seq<nat>)
    requires AllStored(mem, ptrs, nodes, leaf) && Placed(ptrs, nodes, upper, |mem|) && i < |ptrs|
    requires Closed(ptrs, p, i, Size(nodes[i])) && Inside(ptrs[i], nodes[i], upper, |mem|)
    requires MovedUp(mem, mem', upper, ptrs[i], Size(nodes[i]))
    ensures AllStored(mem', p, Remove(nodes, i), leaf)
  {
    hide Bytes, Stored, MovedUp, Size;
    var m := Remove(nodes, i);
    forall j | 0 <= j < |p| ensures Stored(mem', p[j], m[j], leaf) {
      var j' := if j < i then j else j + 1;
      BesideDeleted(ptrs, nodes, upper, |mem|, i, j');
      assert Stored(mem, ptrs[j'], nodes[j'], leaf) && Inside(ptrs[j'], nodes[j'], upper, |mem|);
      DelOther(mem, mem', upper, ptrs[i], Size(nodes[i]), ptrs[j'], nodes[j'], leaf);
    }
  }

  lemma DelOther(mem: seq<byte>, mem': seq<byte>, upper: nat, ptr: nat, sz: nat, p: nat, n: Node, leaf: bool)
    requires Stored(mem, p, n, leaf) && upper <= ptr && ptr + sz <= |mem| && upper <= p
    requires MovedUp(mem, mem', upper, ptr, sz)
    requires if p < ptr then p + Size(n) <= ptr else ptr + sz <= p
    ensures Stored(mem', Up(p, ptr, sz), n, leaf)
  {
    hide Bytes;
    var q, l := Up(p, ptr, sz), |Bytes(n)|;
    var x, y := mem'[q..q + l], mem[p..p + l];
    forall k | 0 <= k < l ensures x[k] == y[k] {
      assert x[k] == mem'[q + k] && y[k] == mem[p + k];
    }
    assert x == y;
  }

  // ----- update key ------------------------------------------------------------------------

  function Down(p: nat, ptr: nat, delta: int): (r: int)
  {
    if p <= ptr then p - delta else p
  }

  ghost predicate Reseated(ptrs: seq<nat>, p: seq<nat>, ptr: nat, delta: int) {
    |p| == |ptrs| && forall j :: 0 <= j < |p| ==> p[j] == Down(ptrs[j], ptr, delta)
  }

  /** The bytes up to and including the node's header move by delta, everything above stays. */
  ghost predicate MovedBy(m: seq<byte>, m': seq<byte>, upper: nat, ptr: nat, delta: int)
    requires delta <= upper <= ptr && ptr + 8 <= |m| && ptr + 8 - delta <= |m|
  {
    && |m'| == |m|
    && (forall k :: upper - delta <= k < ptr + 8 - delta ==> m'[k] == m[k + delta])
    && (forall k :: ptr + 8 <= k < |m| && ptr + 8 - delta <= k ==> m'[k] == m[k])
  }

  lemma UpdPlaced(ptrs: seq<nat>, nodes: seq<Node>, upper: nat, psize: nat, i: nat, p: seq<nat>, n: Node)
    requires Placed(ptrs, nodes, upper, psize) && i < |ptrs|
    requires var delta := Size(n) - Size(nodes[i]); delta <= upper && Reseated(ptrs, p, ptrs[i], delta)
    ensures Placed(p, nodes[i := n], upper - (Size(n) - Size(nodes[i])), psize)
  {
    hide Size;
    var delta, m := Size(n) - Size(nodes[i]), nodes[i := n];
    assert Inside(ptrs[i], nodes[i], upper, psize);
    forall j | 0 <= j < |p| ensures Inside(p[j], m[j], upper - delta, psize) {
      if j != i { BesideDeleted(ptrs, nodes, upper, psize, i, j); }
    }
    forall j, k | 0 <= j < k < |p| ensures Apart(p[j], Size(m[j]), p[k], Size(m[k])) {
      assert Apart(ptrs[j], Size(nodes[j]), ptrs[k], Size(nodes[k]));
      if j != i { BesideDeleted(ptrs, nodes, upper, psize, i, j); }
      if k != i { BesideDeleted(ptrs, nodes, upper, psize, i, k); }
    }
  }

  /** Another entry keeps its bytes: copied when it lies below, untouched when above. */
  lemma UpdOther(mem: seq<byte>, mem': seq<byte>, upper: nat, ptr: nat, size: nat, delta: int, p: nat, other: Node,
                 n: Node)
    requires Stored(mem, p, other, false) && WellFormed(n, false) && delta == Size(n) - size && |mem'| == |mem|
    requires delta <= upper <= ptr && upper <= p && ptr + size <= |mem| && 8 <= size
    requires if p < ptr then p + Size(other) <= ptr else ptr + size <= p
    requires ptr + 8 <= |mem| && ptr + 8 - delta <= |mem| && MovedBy(mem, mem', upper, ptr, delta)
    ensures ptr - delta + |Bytes(n)| <= |mem|
    ensures 0 <= Down(p, ptr, delta) && Stored(Overlay(mem', ptr - delta, Bytes(n)), Down(p, ptr, delta), other, false)
  {
    hide Bytes, Overlay, MovedBy;
    var l := |Bytes(other)|;
    if p < ptr {
      CopiedBelow(mem, mem', upper, ptr, delta, p, l, Bytes(n));
    } else {
      KeptAbove(mem, mem', upper, ptr, delta, p, l, Bytes(n));
    }
  }

  lemma CopiedBelow(m: seq<byte>, m': seq<byte>, upper: nat, ptr: nat, delta: int, p: nat, l: nat, s: seq<byte>)
    requires delta <= upper <= p && p + l <= ptr && ptr + 8 <= |m| == |m'| && ptr + 8 - delta <= |m|
    requires ptr - delta + |s| <= |m|
    requires MovedBy(m, m', upper, ptr, delta)
    ensures Overlay(m', ptr - delta, s)[p - delta..p - delta + l] == m[p..p + l]
  {
    var x, y := Overlay(m', ptr - delta, s)[p - delta..p - delta + l], m[p..p + l];
    forall k | 0 <= k < l ensures x[k] == y[k] {
      assert x[k] == m'[p - delta + k];
    }
  }

  lemma KeptAbove(m: seq<byte>, m': seq<byte>, upper: nat, ptr: nat, delta: int, p: nat, l: nat, s: seq<byte>)
    requires delta <= upper <= ptr && ptr + 8 <= p && p + l <= |m| == |m'| && ptr + 8 - delta <= p
    requires ptr - delta + |s| <= p
    requires MovedBy(m, m', upper, ptr, delta)
    ensures Overlay(m', ptr - delta, s)[p..p + l] == m[p..p + l]
  {
    var x, y := Overlay(m', ptr - delta, s)[p..p + l], m[p..p + l];
    forall k | 0 <= k < l ensures x[k] == y[k] {
      assert x[k] == m'[p + k];
    }
  }

  lemma WrittenNode(m: seq<byte>, p: nat, n: Node, leaf: bool)
    requires WellFormed(n, leaf) && p + |Bytes(n)| <= |m|
    ensures Stored(Overlay(m, p, Bytes(n)), p, n, leaf)
  {
    hide Bytes;
    assert Overlay(m, p, Bytes(n))[p..p + |Bytes(n)|] == Bytes(n);
  }

  lemma UpdStored(mem: seq<byte>, mem': seq<byte>, ptrs: seq<nat>, nodes: seq<Node>, upper: nat, i: nat, p: seq<nat>,
                  n: Node)
    requires AllStored(mem, ptrs, nodes, false) && Placed(ptrs, nodes, upper, |mem|) && i < |ptrs|
    requires WellFormed(n, false) && Inside(ptrs[i], nodes[i], upper, |mem|)
    requires var delta := Size(n) - Size(nodes[i]);
      && delta <= upper && ptrs[i] + 8 - delta <= |mem| && |mem'| == |mem|
      && MovedBy(mem, mem', upper, ptrs[i], delta) && Reseated(ptrs, p, ptrs[i], delta)
    ensures AllStored(Overlay(mem', p[i], Bytes(n)), p, nodes[i := n], false)
  {
    hide Bytes, Stored, MovedBy, Size;
    SizeBytes(n, false);
    var m, mem2 := nodes[i := n], Overlay(mem', p[i], Bytes(n));
    WrittenNode(mem', p[i], n, false);
    forall j | 0 <= j < |p| ensures Stored(mem2, p[j], m[j], false) {
      if j != i {
        assert Stored(mem, ptrs[j], nodes[j], false) && Inside(ptrs[j], nodes[j], upper, |mem|);
        BesideDeleted(ptrs, nodes, upper, |mem|, i, j);
        UpdOther(mem, mem', upper, ptrs[i], Size(nodes[i]), Size(n) - Size(nodes[i]), ptrs[j], nodes[j], n);
      }
    }
  }

  // ----- the three edits on a whole layout -------------------------------------------------------

  /** Bytes, slots and entries agree, and the entries fill [upper, |mem|) exactly. */
  ghost predicate Held(mem: seq<byte>, ptrs: seq<nat>, nodes: seq<Node>, leaf: bool, upper: nat) {
    && upper <= |mem| && upper % 2 == 0 && Total(nodes) == |mem| - upper
    && Placed(ptrs, nodes, upper, |mem|) && AllStored(mem, ptrs, nodes, leaf)
  }

  lemma HeldAt(mem: seq<byte>, ptrs: seq<nat>, nodes: seq<Node>, leaf: bool, upper: nat, i: nat)
    requires Held(mem, ptrs, nodes, leaf, upper) && i < |nodes|
    ensures |ptrs| == |nodes| && Inside(ptrs[i], nodes[i], upper, |mem|) && Stored(mem, ptrs[i], nodes[i], leaf)
  {
  }

  lemma AddHeld(mem: seq<byte>, ptrs: seq<nat>, nodes: seq<Node>, leaf: bool, upper: nat, i: nat, n: Node)
    requires Held(mem, ptrs, nodes, leaf, upper) && i <= |ptrs| == |nodes| && WellFormed(n, leaf)
    requires Size(n) <= upper <= |mem|
    ensures Held(Overlay(mem, upper - Size(n), Bytes(n)), Insert(ptrs, i, upper - Size(n)), Insert(nodes, i, n), leaf,
                 upper - Size(n))
  {
    hide Placed, AllStored, Total, Bytes;
    AddPlaced(ptrs, nodes, upper, |mem|, i, n);
    AddStored(mem, ptrs, nodes, leaf, upper, i, n);
    TotalInsert(nodes, i, n);
  }

  lemma DelHeld(mem: seq<byte>, mem': seq<byte>, ptrs: seq<nat>, nodes: seq<Node>, leaf: bool, upper: nat, i: nat,
                p: seq<nat>)
    requires Held(mem, ptrs, nodes, leaf, upper) && i < |ptrs| == |nodes| && Inside(ptrs[i], nodes[i], upper, |mem|)
    requires Closed(ptrs, p, i, Size(nodes[i])) && MovedUp(mem, mem', upper, ptrs[i], Size(nodes[i]))
    ensures Held(mem', p, Remove(nodes, i), leaf, upper + Size(nodes[i]))
  {
    hide Placed, AllStored, Total, Bytes, Closed;
    DelPlaced(ptrs, nodes, upper, |mem|, i, p);
    DelStored(mem, mem', ptrs, nodes, leaf, upper, i, p);
    TotalRemove(nodes, i);
  }

  lemma UpdHeld(mem: seq<byte>, mem': seq<byte>, ptrs: seq<nat>, nodes: seq<Node>, upper: nat, i: nat, p: seq<nat>,
                n: Node)
    requires Held(mem, ptrs, nodes, false, upper) && i < |ptrs| == |nodes| && WellFormed(n, false)
    requires Inside(ptrs[i], nodes[i], upper, |mem|) && |mem'| == |mem|
    requires var delta := Size(n) - Size(nodes[i]);
      && delta <= upper && ptrs[i] + 8 - delta <= |mem|
      && MovedBy(mem, mem', upper, ptrs[i], delta) && Reseated(ptrs, p, ptrs[i], delta)
    ensures p[i] + |Bytes(n)| <= |mem|
    ensures Held(Overlay(mem', p[i], Bytes(n)), p, nodes[i := n], false, upper - (Size(n) - Size(nodes[i])))
  {
    hide Placed, AllStored, Total, Bytes, MovedBy;
    UpdPlaced(ptrs, nodes, upper, |mem|, i, p, n);
    UpdStored(mem, mem', ptrs, nodes, upper, i, p, n);
    TotalReplace(nodes, i, n);
  }

  // ----- exact filling -----------------------------------------------------------------------

  /** The bytes taken by the nodes. */
  ghost function Extents(ptrs: seq<nat>, nodes: seq<Node>): set<nat>
    requires |ptrs| == |nodes|
  {
    if ptrs == [] then {} else Interval(ptrs[0], ptrs[0] + Size(nodes[0])) + Extents(ptrs[1..], nodes[1..])
  }

  lemma {:induction false} InExtents(ptrs: seq<nat>, nodes: seq<Node>, k: nat) returns (i: nat)
    requires |ptrs| == |nodes| && k in Extents(ptrs, nodes)
    ensures i < |ptrs| && ptrs[i] <= k < ptrs[i] + Size(nodes[i])
  {
    if k in Interval(ptrs[0], ptrs[0] + Size(nodes[0])) { return 0; }
    i := InExtents(ptrs[1..], nodes[1..], k);
    i := i + 1;
  }

  lemma FirstAlone(ptrs: seq<nat>, nodes: seq<Node>, upper: nat, psize: nat)
    requires Placed(ptrs, nodes, upper, psize) && ptrs != []
    ensures Interval(ptrs[0], ptrs[0] + Size(nodes[0])) !! Extents(ptrs[1..], nodes[1..])
  {
    hide Size;
    var first, rest := Interval(ptrs[0], ptrs[0] + Size(nodes[0])), Extents(ptrs[1..], nodes[1..]);
    forall k | k in rest ensures k !in first {
      var i := InExtents(ptrs[1..], nodes[1..], k);
      assert Apart(ptrs[0], Size(nodes[0]), ptrs[i + 1], Size(nodes[i + 1]));
    }
  }

  lemma {:induction false} ExtentsSize(ptrs: seq<nat>, nodes: seq<Node>, upper: nat, psize: nat)
    requires Placed(ptrs, nodes, upper, psize)
    ensures |Extents(ptrs, nodes)| == Total(nodes)
    ensures Extents(ptrs, nodes) <= Interval(upper, psize)
  {
    hide Size, Interval;
    if ptrs != [] {
      assert Inside(ptrs[0], nodes[0], upper, psize);
      RestPlaced(ptrs, nodes, upper, psize);
      ExtentsSize(ptrs[1..], nodes[1..], upper, psize);
      FirstAlone(ptrs, nodes, upper, psize);
      var first, rest := Interval(ptrs[0], ptrs[0] + Size(nodes[0])), Extents(ptrs[1..], nodes[1..]);
      assert |first + rest| == |first| + |rest|;
    }
  }

  lemma RestPlaced(ptrs: seq<nat>, nodes: seq<Node>, upper: nat, psize: nat)
    requires Placed(ptrs, nodes, upper, psize) && ptrs != []
    ensures Placed(ptrs[1..], nodes[1..], upper, psize)
  {
    var p, m := ptrs[1..], nodes[1..];
    forall i | 0 <= i < |p| ensures Inside(p[i], m[i], upper, psize) {
      assert Inside(ptrs[i + 1], nodes[i + 1], upper, psize);
    }
    forall i, j | 0 <= i < j < |p| ensures Apart(p[i], Size(m[i]), p[j], Size(m[j])) {
      assert Apart(ptrs[i + 1], Size(nodes[i + 1]), ptrs[j + 1], Size(nodes[j + 1]));
    }
  }

  lemma SubsetSize(a: set<nat>, b: set<nat>)
    requires a <= b && |a| == |b|
    ensures a == b
  {
    assert |b - a| == |b| - |a|;
  }

  /** When the sizes add up, every byte of the node area belongs to exactly one node. */
  lemma Tiling(ptrs: seq<nat>, nodes: seq<Node>, upper: nat, psize: nat, k: nat) returns (i: nat)
    requires Placed(ptrs, nodes, upper, psize) && Total(nodes) == psize - upper && upper <= k < psize
    ensures i < |ptrs| && ptrs[i] <= k < ptrs[i] + Size(nodes[i])
    ensures forall j :: 0 <= j < |ptrs| && j != i ==> !(ptrs[j] <= k < ptrs[j] + Size(nodes[j]))
  {
    hide Size, Interval, Extents, Total;
    ExtentsSize(ptrs, nodes, upper, psize);
    SubsetSize(Extents(ptrs, nodes), Interval(upper, psize));
    i := InExtents(ptrs, nodes, k);
    forall j | 0 <= j < |ptrs| && j != i ensures !(ptrs[j] <= k < ptrs[j] + Size(nodes[j])) {
      if i < j {
        assert Apart(ptrs[i], Size(nodes[i]), ptrs[j], Size(nodes[j]));
      } else {
        assert Apart(ptrs[j], Size(nodes[j]), ptrs[i], Size(nodes[i]));
      }
    }
  }

  // ----- what is to be stored ------------------------------------------------------------------

  datatype Item =
    | LeafItem(key: seq<byte>, flags: nat, dsize: nat, bytes: seq<byte>)
    | BranchItem(key: seq<byte>, pgno: nat)

  datatype Rc = Success | PageFull | NoPage

  /** The largest node kept on a page (me_nodemax). */
  function NodeMax(psize: nat): int {
    (psize - HEADER) / 2 / 2 * 2 - 2
  }

  /** What node_add takes: 16-bit keys and flags, 32-bit data sizes, 48-bit page numbers. */
  predicate Storable(it: Item) {
    && |it.key| < 0x1_0000
    && match it
       case LeafItem(_, flags, dsize, bytes) =>
         flags < 0x1_0000 && dsize < 0x1_0000_0000 && |bytes| == if flags % 2 == 1 then 8 else dsize
       case BranchItem(_, pgno) => pgno < 0x1_0000_0000_0000
  }

  /** The data is too large for the page and is not on overflow pages yet. */
  predicate NeedsOverflow(it: Item, psize: nat) {
    it.LeafItem? && it.flags % 2 == 0 && NODESIZE + |it.key| + it.dsize > NodeMax(psize)
  }

  /** The node stored for an item; over is the number of the overflow page, as bytes. */
  function NodeOf(it: Item, psize: nat, over: seq<byte>): (n: Node)
    requires Storable(it) && |over| == 8
    ensures WellFormed(n, it.LeafItem?) && n.key == it.key
  {
    match it
    case LeafItem(key, flags, dsize, bytes) =>
      if NeedsOverflow(it, psize) then Node(dsize, flags + 1, key, over) else Node(dsize, flags, key, bytes)
    case BranchItem(key, pgno) => Node(pgno % 0x1_0000_0000, pgno / 0x1_0000_0000, key, [])
  }

  /** What the macros read from the bytes of a node: key, data size, data and page number are those of the item. */
  lemma ItemRead(mem: seq<byte>, p: nat, it: Item, psize: nat, over: seq<byte>)
    requires Storable(it) && |over| == 8 && Stored(mem, p, NodeOf(it, psize, over), it.LeafItem?)
    ensures p + 8 + |it.key| <= |mem| && Half(mem, p + 6) == |it.key| && mem[p + 8..p + 8 + |it.key|] == it.key
    ensures it.BranchItem? ==>
      Half(mem, p) + 0x1_0000 * Half(mem, p + 2) + 0x1_0000_0000 * Half(mem, p + 4) == it.pgno
    ensures it.LeafItem? ==> Half(mem, p) + 0x1_0000 * Half(mem, p + 2) == it.dsize
    ensures it.LeafItem? ==> (Half(mem, p + 4) % 2 == 1 <==> it.flags % 2 == 1 || NeedsOverflow(it, psize))
    ensures it.LeafItem? ==> Half(mem, p + 4) / 2 == it.flags / 2
    ensures it.LeafItem? ==>
      var at := p + 8 + |it.key|;
      if NeedsOverflow(it, psize) then mem[at..at + 8] == over else mem[at..at + |it.bytes|] == it.bytes
  {
    hide Stored, Bytes, Half, NodeMax;
    var n := NodeOf(it, psize, over);
    StoredFits(mem, p, n, it.LeafItem?);
    HeaderAt(mem, p, n, it.LeafItem?);
    KeyAt(mem, p, n, it.LeafItem?);
  }

  /** The node size, computed without allocating. */
  function SpaceFor(it: Item, psize: nat): nat {
    Even(NODESIZE + |it.key| + if it.BranchItem? then 0
      else if NeedsOverflow(it, psize) || it.flags % 2 == 1 then 8 else it.dsize)
  }

  lemma SpaceIsSize(it: Item, psize: nat, over: seq<byte>)
    requires Storable(it) && |over| == 8
    ensures SpaceFor(it, psize) == Size(NodeOf(it, psize, over))
  {
  }

  function LeafSize(key: seq<byte>, dsize: nat, psize: nat): int {
    var sz := NODESIZE + |key| + dsize;
    Even((if sz > NodeMax(psize) then sz - (dsize - 8) else sz) + 2)
  }

  function BranchSize(key: seq<byte>): int {
    NODESIZE + |key| + 2
  }

  /** The leaf test is exact: it passes just when node_add finds room. */
  lemma LeafTest(it: Item, psize: nat, free: nat)
    requires it.LeafItem? && it.flags % 2 == 0
    ensures LeafSize(it.key, it.dsize, psize) <= free <==> SpaceFor(it, psize) + 2 <= free
  {
  }

  /** The unrounded branch test is enough for node_add exactly when free space is even or is
      not used up to the last byte. */
  lemma BranchTest(it: Item, psize: nat, free: nat)
    requires it.BranchItem?
    ensures (BranchSize(it.key) <= free ==> SpaceFor(it, psize) + 2 <= free) <==>
      (free % 2 == 0 || free != BranchSize(it.key))
  {
  }

  // ----- the page ------------------------------------------------------------------------------

  class Page {
    const leaf: bool
    const mem: array<byte>
    const ptrs: array<nat>
    var lower: nat
    var upper: nat
    ghost var nodes: seq<Node>

    ghost predicate Valid()
      reads this, mem, ptrs
    {
      Shape() && Held(mem[..], ptrs[..|nodes|], nodes, leaf, upper)
    }

    ghost predicate Shape()
      reads this
    {
      && HEADER <= lower <= upper <= mem.Length < 0x1_0000 && mem.Length % 2 == 0
      && lower == HEADER + 2 * |nodes| && ptrs.Length == (mem.Length - HEADER) / 2
    }

    /** An empty page of psize bytes (mdb_page_new). */
    constructor (psize: nat, leaf: bool)
      requires HEADER <= psize < 0x1_0000 && psize % 2 == 0
      ensures Valid() && nodes == [] && this.leaf == leaf && mem.Length == psize && fresh(mem) && fresh(ptrs)
    {
      this.leaf, mem, ptrs := leaf, new byte[psize], new nat[(psize - HEADER) / 2];
      lower, upper, nodes := HEADER, psize, [];
    }

    /** Free space is what the slots and the nodes leave. */
    lemma FreeSpace()
      requires Valid()
      ensures upper - lower == mem.Length - HEADER - 2 * |nodes| - Total(nodes) && (upper - lower) % 2 == 0
    {
      hide Placed, AllStored, Total;
    }

    method WriteNode(p: nat, n: Node)
      requires WellFormed(n, leaf) && p + |Bytes(n)| <= mem.Length
      modifies mem
      ensures mem[..] == Overlay(old(mem[..]), p, Bytes(n))
    {
      var h := Head(n.word, n.flags, |n.key|);
      ghost var m0 := mem[..];
      Put(mem, p, h);
      Put(mem, p + 8, n.key);
      Put(mem, p + 8 + |n.key|, n.data);
      OverlayParts(m0, p, h, n.key);
      OverlayParts(m0, p, h + n.key, n.data);
    }
    /**
     mdb_node_add.  Page full is reported exactly when the rounded node and its slot do not fit;
     otherwise the page becomes the old entries with the new one at index i.
     */
    method Add(i: nat, it: Item, over: Option<seq<byte>>) returns (rc: Rc)
      requires Valid() && i <= |nodes| && Storable(it) && it.LeafItem? == leaf && (over.Some? ==> |over.value| == 8)
      modifies this`lower, this`upper, this`nodes, mem, ptrs
      ensures Valid()
      ensures rc == PageFull <==> old(upper - lower) < SpaceFor(it, mem.Length) + 2
      ensures rc == NoPage <==> rc != PageFull && NeedsOverflow(it, mem.Length) && over == None
      ensures rc == Success ==> nodes == Insert(old(nodes), i, NodeOf(it, mem.Length, PageNumber(over)))
      ensures rc != Success ==>
        nodes == old(nodes) && mem[..] == old(mem[..]) && ptrs[..] == old(ptrs[..]) && upper == old(upper)
    {
      hide Held, Bytes, Insert;
      var size := SpaceFor(it, mem.Length);
      if size > upper - lower - 2 { return PageFull; }
      if NeedsOverflow(it, mem.Length) && over == None { return NoPage; }
      var node := NodeOf(it, mem.Length, PageNumber(over));
      SpaceIsSize(it, mem.Length, PageNumber(over));
      Store(i, node, size);
      return Success;
    }

    /** The update of mdb_node_add, room having been found. */
    method Store(i: nat, node: Node, size: nat)
      requires Valid() && i <= |nodes| && WellFormed(node, leaf) && size == Size(node) <= upper - lower - 2
      modifies this`lower, this`upper, this`nodes, mem, ptrs
      ensures Valid() && nodes == Insert(old(nodes), i, node)
    {
      hide Held, Bytes, Overlay, Size;
      var n := (lower - HEADER) / 2;
      ghost var m0, p0 := mem[..], ptrs[..n];
      HeldLength(m0, p0, nodes, leaf, upper);
      AddHeld(m0, p0, nodes, leaf, upper, i, node);
      OpenSlot(ptrs, n, i, upper - size);
      upper := upper - size;
      lower := lower + 2;
      SizeBytes(node, leaf);
      assert mem[..] == m0;
      WriteNode(upper, node);
      nodes := Insert(nodes, i, node);
      assert ptrs[..|nodes|] == Insert(p0, i, upper);
    }

    /** The caller's side: after either size test, page full cannot come back. */
    method PutTested(i: nat, it: Item, over: Option<seq<byte>>) returns (split: bool, rc: Rc)
      requires Valid() && i <= |nodes| && Storable(it) && it.LeafItem? == leaf && (over.Some? ==> |over.value| == 8)
      requires leaf ==> it.flags % 2 == 0
      modifies this`lower, this`upper, this`nodes, mem, ptrs
      ensures Valid()
      ensures split <==> old(upper - lower) < SpaceFor(it, mem.Length) + 2
      ensures rc != PageFull
      ensures rc == Success && !split ==> nodes == Insert(old(nodes), i, NodeOf(it, mem.Length, PageNumber(over)))
      ensures split ==> nodes == old(nodes)
    {
      hide Held, NodeOf;
      FreeSpace();
      if leaf { LeafTest(it, mem.Length, upper - lower); } else { BranchTest(it, mem.Length, upper - lower); }
      rc := Success;
      split := upper - lower < if leaf then LeafSize(it.key, it.dsize, mem.Length) else BranchSize(it.key);
      if !split { rc := Add(i, it, over); }
    }

    /** The space of node i, read from its header bytes. */
    method SizeAt(i: nat) returns (sz: nat)
      requires Valid() && i < |nodes|
      ensures sz == Size(nodes[i])
    {
      hide Held, Stored, Bytes;
      var p := ptrs[i];
      HeldAt(mem[..], ptrs[..|nodes|], nodes, leaf, upper, i);
      HeaderAt(mem[..], p, nodes[i], leaf);
      StoredFits(mem[..], p, nodes[i], leaf);
      sz := NODESIZE + Half(mem[..], p + 6);
      if leaf {
        if Half(mem[..], p + 4) % 2 == 1 {
          sz := sz + 8;
        } else {
          sz := sz + Half(mem[..], p) + 0x1_0000 * Half(mem[..], p + 2);
        }
      }
      sz := Even(sz);
    }

    /** mdb_node_del: the page becomes the old entries without entry i. */
    method Delete(i: nat)
      requires Valid() && i < |nodes|
      modifies this`lower, this`upper, this`nodes, mem, ptrs
      ensures Valid() && nodes == Remove(old(nodes), i)
    {
      hide Held, Bytes, Size, Stored, MovedUp, Closed;
      var sz := SizeAt(i);
      var n := (lower - HEADER) / 2;
      var ptr := ptrs[i];
      ghost var m0, p0 := mem[..], ptrs[..n];
      HeldAt(m0, p0, nodes, leaf, upper, i);
      CloseSlot(ptrs, n, i, sz);
      MoveUp(mem, upper, ptr, sz);
      DelHeld(m0, mem[..], p0, nodes, leaf, upper, i, ptrs[..n - 1]);
      lower := lower - 2;
      upper := upper + sz;
      nodes := Remove(nodes, i);
    }

    /**
     mdb_update_key on a branch page.  When the key does not grow beyond the free space the entry
     keeps its place and page number and gets the key; otherwise the entry is deleted, to be
     inserted again by a split.
     */
    method UpdateKey(i: nat, key: seq<byte>) returns (ok: bool)
      requires Valid() && i < |nodes| && !leaf && |key| < 0x1_0000
      modifies this`lower, this`upper, this`nodes, mem, ptrs
      ensures Valid()
      ensures ok <==> Even(|key|) - Even(|old(nodes)[i].key|) <= old(upper - lower)
      ensures nodes == if ok then old(nodes)[i := old(nodes)[i].(key := key)] else Remove(old(nodes), i)
    {
      hide Held;
      var ksize := KeySizeAt(i);
      var delta := Even(|key|) - Even(ksize);
      if delta > upper - lower {
        Delete(i);
        return false;
      }
      Rekey(i, key, delta);
      return true;
    }

    method KeySizeAt(i: nat) returns (ksize: nat)
      requires Valid() && i < |nodes|
      ensures ksize == |nodes[i].key|
    {
      hide Held, Stored, Bytes;
      HeldAt(mem[..], ptrs[..|nodes|], nodes, leaf, upper, i);
      HeaderAt(mem[..], ptrs[i], nodes[i], leaf);
      StoredFits(mem[..], ptrs[i], nodes[i], leaf);
      ksize := Half(mem[..], ptrs[i] + 6);
    }

    /** Shift the nodes below by delta and write the key in place. */
    method Rekey(i: nat, key: seq<byte>, delta: int)
      requires Valid() && i < |nodes| && !leaf && |key| < 0x1_0000
      requires delta == Even(|key|) - Even(|nodes[i].key|) <= upper - lower
      modifies this`upper, this`nodes, mem, ptrs
      ensures Valid() && nodes == old(nodes)[i := old(nodes)[i].(key := key)]
    {
      hide Held, Stored, Bytes, Size, Overlay, MovedBy, Reseated, Even, Inside;
      var ptr, n := ptrs[i], (lower - HEADER) / 2;
      ghost var m0, p0, node := mem[..], ptrs[..n], nodes[i].(key := key);
      RekeyReady(m0, p0, nodes, upper, i, node, delta);
      Shift(mem, ptrs, n, upper, ptr, delta);
      ghost var p1 := ptrs[..n];
      Rewrite(m0, p0, p1, i, key, delta);
      assert ptrs[..n] == p1;
      upper := upper - delta;
      nodes := nodes[i := node];
    }

    /** Write the key into the shifted node. */
    method Rewrite(ghost m0: seq<byte>, ghost p0: seq<nat>, ghost p1: seq<nat>, i: nat, key: seq<byte>,
                   ghost delta: int)
      requires i < |nodes| && Held(m0, p0, nodes, false, upper) && |key| < 0x1_0000 && |m0| == mem.Length
      requires |nodes| <= ptrs.Length
      requires delta == Even(|key|) - Even(|nodes[i].key|) <= upper && !leaf && p1 == ptrs[..|nodes|]
      requires |p0| == |nodes| && upper <= p0[i] && p0[i] + 8 <= |m0| && p0[i] + 8 - delta <= |m0|
      requires MovedBy(m0, mem[..], upper, p0[i], delta) && Reseated(p0, p1, p0[i], delta)
      modifies mem
      ensures Held(mem[..], p1, nodes[i := nodes[i].(key := key)], false, upper - delta)
    {
      hide Held, Stored, Bytes, Size, Overlay, MovedBy, Reseated, Even, Inside;
      ghost var m1, node := mem[..], nodes[i].(key := key);
      RekeyReady(m0, p0, nodes, upper, i, node, delta);
      UpdHeld(m0, m1, p0, nodes, upper, i, p1, node);
      HeaderMoved(m0, m1, upper, p0[i], delta);
      ReseatedAt(p0, p1, p0[i], delta, i);
      WriteKey(m0, p0[i], nodes[i], ptrs[i], key);
    }

    /** Only the key size and the key are written; the rest of the header has been moved. */
    method WriteKey(ghost m0: seq<byte>, ghost p0: nat, ghost n: Node, p: nat, key: seq<byte>)
      requires Stored(m0, p0, n, false) && |key| < 0x1_0000 && p + 8 + |key| <= mem.Length
      requires mem[p..p + 6] == m0[p0..p0 + 6]
      modifies mem
      ensures mem[..] == Overlay(old(mem[..]), p, Bytes(n.(key := key)))
    {
      ghost var m1, h := mem[..], m0[p0..p0 + 6];
      Put(mem, p + 6, Two(|key|));
      Put(mem, p + 8, key);
      SameHeader(m0, p0, n, key);
      OverlaySame(m1, p, h);
      OverlayParts(m1, p, h, Two(|key|));
      OverlayParts(m1, p, h + Two(|key|), key);
    }
  }

  /** Make or close the gap for a key whose rounded size changed. */
  method Shift(mem: array<byte>, ptrs: array<nat>, n: nat, upper: nat, ptr: nat, delta: int)
    requires n <= ptrs.Length && forall j :: 0 <= j < n ==> delta <= ptrs[j]
    requires delta <= upper <= ptr && ptr + 8 <= mem.Length && ptr + 8 - delta <= mem.Length
    modifies mem, ptrs
    ensures Reseated(old(ptrs[..n]), ptrs[..n], ptr, delta) && MovedBy(old(mem[..]), mem[..], upper, ptr, delta)
  {
    if delta != 0 {
      Reseat(ptrs, n, ptr, delta);
      MoveBy(mem, upper, ptr, delta);
    }
  }

  lemma SameHeader(m0: seq<byte>, p0: nat, n: Node, key: seq<byte>)
    requires Stored(m0, p0, n, false) && |key| < 0x1_0000
    ensures Bytes(n.(key := key)) == m0[p0..p0 + 6] + Two(|key|) + key
  {
    var h, s := Head(n.word, n.flags, |n.key|), m0[p0..p0 + |Bytes(n)|];
    assert forall k :: 0 <= k < 6 ==> m0[p0 + k] == s[k] == h[k];
    assert m0[p0..p0 + 6] == h[..6];
  }

  lemma OverlaySame(m: seq<byte>, p: nat, s: seq<byte>)
    requires p + |s| <= |m| && m[p..p + |s|] == s
    ensures Overlay(m, p, s) == m
  {
  }

  /** Slots at or below ptr move with their nodes. */
  method Reseat(ptrs: array<nat>, n: nat, ptr: nat, delta: int)
    requires n <= ptrs.Length && forall j :: 0 <= j < n ==> delta <= ptrs[j]
    modifies ptrs
    ensures Reseated(old(ptrs[..n]), ptrs[..n], ptr, delta)
  {
    for k := 0 to n
      invariant forall j :: 0 <= j < k ==> ptrs[j] == Down(old(ptrs[j]), ptr, delta)
      invariant forall j :: k <= j < n ==> ptrs[j] == old(ptrs[j])
    {
      if ptrs[k] <= ptr { ptrs[k] := ptrs[k] - delta; }
    }
  }

  /** memmove of [upper, ptr + 8) by delta towards the front. */
  method MoveBy(mem: array<byte>, upper: nat, ptr: nat, delta: int)
    requires delta <= upper <= ptr && ptr + 8 <= mem.Length && ptr + 8 - delta <= mem.Length
    modifies mem
    ensures MovedBy(old(mem[..]), mem[..], upper, ptr, delta)
  {
    forall k | upper <= k < ptr + 8 { mem[k - delta] := mem[k]; }
  }

  lemma HeaderMoved(m: seq<byte>, m': seq<byte>, upper: nat, ptr: nat, delta: int)
    requires delta <= upper <= ptr && ptr + 8 <= |m| && ptr + 8 - delta <= |m| && MovedBy(m, m', upper, ptr, delta)
    ensures |m'| == |m| && m'[ptr - delta..ptr - delta + 6] == m[ptr..ptr + 6]
  {
  }

  lemma ReseatedAt(ptrs: seq<nat>, p: seq<nat>, ptr: nat, delta: int, i: nat)
    requires Reseated(ptrs, p, ptr, delta) && i < |ptrs| && ptrs[i] == ptr
    ensures |p| == |ptrs| && p[i] == ptr - delta
  {
  }

  lemma AllBelow(mem: seq<byte>, ptrs: seq<nat>, nodes: seq<Node>, leaf: bool, upper: nat)
    requires Held(mem, ptrs, nodes, leaf, upper)
    ensures forall j :: 0 <= j < |ptrs| ==> upper <= ptrs[j]
  {
    forall j | 0 <= j < |ptrs| ensures upper <= ptrs[j] {
      assert Inside(ptrs[j], nodes[j], upper, |mem|);
    }
  }

  lemma HeldLength(mem: seq<byte>, ptrs: seq<nat>, nodes: seq<Node>, leaf: bool, upper: nat)
    requires Held(mem, ptrs, nodes, leaf, upper)
    ensures |ptrs| == |nodes|
  {
  }

  lemma SizeBytes(n: Node, leaf: bool)
    requires WellFormed(n, leaf)
    ensures |Bytes(n)| <= Size(n)
  {
  }

  lemma StoredFits(mem: seq<byte>, p: nat, n: Node, leaf: bool)
    requires Stored(mem, p, n, leaf)
    ensures WellFormed(n, leaf) && p + NODESIZE + |n.key| + |n.data| <= |mem|
  {
  }

  /** What the shift and the new layout need of the old one. */
  lemma RekeyReady(m: seq<byte>, ptrs: seq<nat>, nodes: seq<Node>, upper: nat, i: nat, n: Node, delta: int)
    requires Held(m, ptrs, nodes, false, upper) && i < |nodes| && n == nodes[i].(key := n.key) && |n.key| < 0x1_0000
    requires delta == Even(|n.key|) - Even(|nodes[i].key|) && delta <= upper
    ensures |ptrs| == |nodes| && Inside(ptrs[i], nodes[i], upper, |m|) && Stored(m, ptrs[i], nodes[i], false)
    ensures WellFormed(n, false) && delta == Size(n) - Size(nodes[i]) && delta % 2 == 0
    ensures upper <= ptrs[i] && ptrs[i] + 8 <= |m| && ptrs[i] + 8 - delta <= |m| && ptrs[i] - delta + 8 + |n.key| <= |m|
    ensures forall j :: 0 <= j < |ptrs| ==> delta <= ptrs[j]
  {
    hide Held, Stored;
    HeldAt(m, ptrs, nodes, false, upper, i);
    StoredFits(m, ptrs[i], nodes[i], false);
    Grown(nodes[i], n);
    AllBelow(m, ptrs, nodes, false, upper);
  }

  lemma Grown(n: Node, m: Node)
    requires WellFormed(n, false) && m == n.(key := m.key)
    ensures Size(m) - Size(n) == Even(|m.key|) - Even(|n.key|)
  {
  }

  function PageNumber(over: Option<seq<byte>>): (r: seq<byte>)
    requires over.Some? ==> |over.value| == 8
    ensures |r| == 8
  {
    if over.Some? then over.value else [0, 0, 0, 0, 0, 0, 0, 0]
  }

  /** Move the higher slots up one and fill the gap. */
  method OpenSlot(ptrs: array<nat>, n: nat, i: nat, p: nat)
    requires i <= n < ptrs.Length
    modifies ptrs
    ensures ptrs[..n + 1] == Insert(old(ptrs[..n]), i, p)
  {
    var k := n;
    while k > i
      invariant i <= k <= n
      invariant forall j :: 0 <= j < ptrs.Length && !(k < j <= n) ==> ptrs[j] == old(ptrs[j])
      invariant forall j :: k < j <= n ==> ptrs[j] == old(ptrs[j - 1])
    {
      ptrs[k] := ptrs[k - 1];
      k := k - 1;
    }
    ptrs[i] := p;
  }

  /** Drop slot i; offsets below the deleted node grow by its size. */
  method CloseSlot(ptrs: array<nat>, n: nat, i: nat, sz: nat)
    requires i < n <= ptrs.Length
    modifies ptrs
    ensures Closed(old(ptrs[..n]), ptrs[..n - 1], i, sz)
  {
    hide Closing, Closed;
    ghost var p0 := ptrs[..n];
    var ptr, j := ptrs[i], 0;
    ClosingStart(p0, i, sz);
    for k := 0 to n
      invariant j == if k <= i then k else k - 1
      invariant Closing(p0, ptrs[..n], i, sz, j, k)
    {
      ghost var p := ptrs[..n];
      ClosingStep(p0, p, i, sz, j, k);
      if k != i {
        ptrs[j] := Up(ptrs[k], ptr, sz);
        assert ptrs[..n] == p[j := ptrs[j]];
        j := j + 1;
      }
    }
    assert ptrs[..n - 1] == ptrs[..n][..n - 1];
    ClosingEnd(p0, ptrs[..n], i, sz);
  }

  lemma ClosingStart(p0: seq<nat>, i: nat, sz: nat)
    requires i < |p0|
    ensures Closing(p0, p0, i, sz, 0, 0)
  {
  }

  lemma ClosingStep(p0: seq<nat>, p: seq<nat>, i: nat, sz: nat, j: nat, k: nat)
    requires i < |p0| && j <= k < |p0| && Closing(p0, p, i, sz, j, k)
    ensures |p| == |p0| && p[k] == p0[k]
    ensures if k == i then Closing(p0, p, i, sz, j, k + 1)
      else Closing(p0, p[j := Up(p0[k], p0[i], sz)], i, sz, j + 1, k + 1)
  {
  }

  lemma ClosingEnd(p0: seq<nat>, p: seq<nat>, i: nat, sz: nat)
    requires i < |p0| && Closing(p0, p, i, sz, |p0| - 1, |p0|)
    ensures |p| == |p0| && Closed(p0, p[..|p0| - 1], i, sz)
  {
  }

  /** The first j slots are final, those from k on are untouched. */
  ghost predicate Closing(p0: seq<nat>, p: seq<nat>, i: nat, sz: nat, j: nat, k: nat)
    requires i < |p0| && j <= k <= |p0|
  {
    && |p| == |p0| && j == (if k <= i then k else k - 1)
    && (forall l :: 0 <= l < j ==> p[l] == Up(p0[if l < i then l else l + 1], p0[i], sz))
    && (forall l :: k <= l < |p0| ==> p[l] == p0[l])
  }

  /** memmove of [upper, ptr) to upper + sz. */
  method MoveUp(mem: array<byte>, upper: nat, ptr: nat, sz: nat)
    requires upper <= ptr && ptr + sz <= mem.Length
    modifies mem
    ensures MovedUp(old(mem[..]), mem[..], upper, ptr, sz)
  {
    var k := ptr;
    while k > upper
      invariant upper <= k <= ptr
      invariant forall j :: 0 <= j < mem.Length && !(k + sz <= j < ptr + sz) ==> mem[j] == old(mem[j])
      invariant forall j :: k + sz <= j < ptr + sz ==> mem[j] == old(mem[j - sz])
    {
      k := k - 1;
      mem[k + sz] := mem[k];
    }
  }

  /** memcpy into the page. */
  method Put(mem: array<byte>, p: nat, s: seq<byte>)
    requires p + |s| <= mem.Length
    modifies mem
    ensures mem[..] == Overlay(old(mem[..]), p, s)
  {
    for i := 0 to |s|
      invariant mem[..] == Overlay(old(mem[..]), p, s[..i])
    {
      mem[p + i] := s[i];
    }
    assert s[..|s|] == s;
  }
}
