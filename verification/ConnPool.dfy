/**
 The keepalive pool of connection-pool.c: two generations of 64 buckets, chosen by the minute.
 A connection found in the other generation is moved over once and closed the second time.
 */
module ConnPool {
  import opened Common

  const TTL: int := 60
  const BUCKETS: nat := 64

  /** added and since, the times of entering the pool and the present generation, are not stored
      by the program. */
  datatype Conn = Conn(id: int, key: nat, z: nat, added: int, since: int)

  /** What a connection was put in with. */
  datatype Origin = Origin(id: int, key: nat, at: int)

  function Of(c: Conn): Origin {
    Origin(c.id, c.key, c.added)
  }

  /** How a connection left: given to a request, aged out at a time, closed by the peer. */
  datatype Exit = Given(c: Conn, key: nat) | AgedOut(c: Conn, at: int) | Closed(c: Conn)

  function Gen(now: int): nat {
    (now / TTL) % 2
  }

  function Slot(p: nat, key: nat): nat {
    BUCKETS * p + key % BUCKETS
  }

  lemma SlotSame(p: nat, key: nat, p': nat, key': nat)
    requires p < 2 && p' < 2
    ensures Slot(p, key) < 2 * BUCKETS
    ensures Slot(p, key) == Slot(p', key') <==> p == p' && key % BUCKETS == key' % BUCKETS
  {
  }

  ghost function Origins(l: seq<Conn>): multiset<Origin> {
    if l == [] then multiset{} else Origins(l[..|l| - 1]) + multiset{Of(l[|l| - 1])}
  }

  ghost function AllOrigins(lists: seq<seq<Conn>>): multiset<Origin> {
    if lists == [] then multiset{} else AllOrigins(lists[..|lists| - 1]) + Origins(lists[|lists| - 1])
  }

  ghost function ExitOrigins(es: seq<Exit>): multiset<Origin> {
    if es == [] then multiset{} else ExitOrigins(es[..|es| - 1]) + multiset{Of(es[|es| - 1].c)}
  }

  lemma OriginsSnoc(s: seq<Conn>, c: Conn)
    ensures Origins(s + [c]) == Origins(s) + multiset{Of(c)}
  {
    assert (s + [c])[..|s|] == s;
  }

  lemma Assoc(a: multiset<Origin>, b: multiset<Origin>, c: multiset<Origin>)
    ensures a + (b + c) == (a + b) + c
  {
  }

  lemma {:induction false} OriginsAppend(a: seq<Conn>, b: seq<Conn>)
    ensures Origins(a + b) == Origins(a) + Origins(b)
    decreases |b|
  {
    hide Origins;
    if b == [] {
      assert a + b == a;
      OriginsNone();
    } else {
      var n := |b| - 1;
      OriginsAppend(a, b[..n]);
      OriginsSnoc(a + b[..n], b[n]);
      OriginsSnoc(b[..n], b[n]);
      assert a + b == (a + b[..n]) + [b[n]] && b == b[..n] + [b[n]];
      Assoc(Origins(a), Origins(b[..n]), multiset{Of(b[n])});
    }
  }

  lemma OriginsNone()
    ensures Origins([]) == multiset{}
  {
  }

  /** A list without its element j. */
  function Without<T>(l: seq<T>, j: nat): seq<T>
    requires j < |l|
  {
    l[..j] + l[j + 1..]
  }

  lemma OriginsWithout(l: seq<Conn>, j: nat)
    requires j < |l|
    ensures Origins(l) == Origins(Without(l, j)) + multiset{Of(l[j])}
  {
    hide Origins;
    OriginsAppend(l[..j], l[j + 1..]);
    OriginsAppend(l[..j] + [l[j]], l[j + 1..]);
    OriginsSnoc(l[..j], l[j]);
    assert l[..j] + [l[j]] + l[j + 1..] == l;
    assert (Origins(l[..j]) + multiset{Of(l[j])}) + Origins(l[j + 1..]) ==
      (Origins(l[..j]) + Origins(l[j + 1..])) + multiset{Of(l[j])};
  }

  lemma OriginsOne(c: Conn)
    ensures Origins([c]) == multiset{Of(c)}
  {
    assert [c][..0] == [];
  }

  lemma Shuffle(a': multiset<Origin>, l: multiset<Origin>, o: multiset<Origin>, a: multiset<Origin>,
                n: multiset<Origin>)
    requires a' + o == a + n
    ensures (a' + l) + o == (a + l) + n
  {
    assert (a' + l) + o == (a' + o) + l;
    assert (a + l) + n == (a + n) + l;
  }

  lemma {:induction false} AllUpdate(lists: seq<seq<Conn>>, i: nat, l: seq<Conn>)
    requires i < |lists|
    ensures AllOrigins(lists[i := l]) + Origins(lists[i]) == AllOrigins(lists) + Origins(l)
  {
    hide Origins;
    var n := |lists| - 1;
    var after := lists[i := l];
    if i == n {
      assert after[..n] == lists[..n];
    } else {
      AllUpdate(lists[..n], i, l);
      assert after[..n] == lists[..n][i := l];
      Shuffle(AllOrigins(after[..n]), Origins(lists[n]), Origins(lists[i]), AllOrigins(lists[..n]), Origins(l));
    }
  }

  lemma ExitSnoc(es: seq<Exit>, e: Exit)
    ensures ExitOrigins(es + [e]) == ExitOrigins(es) + multiset{Of(e.c)}
  {
    assert (es + [e])[..|es|] == es;
  }

  /** The marks of a connection in generation g: not moved since it was added in that generation's
      minute, or moved once, in a later minute. */
  ghost predicate Marked(c: Conn, g: nat, now: int) {
    && c.z <= 1 && 0 <= c.added <= c.since <= now && Gen(c.since) == g
    && (c.z == 0 ==> c.since == c.added)
    && (c.z == 1 ==> c.since / TTL > c.added / TTL)
  }

  ghost predicate InPlace(c: Conn, i: nat, now: int) {
    i < 2 * BUCKETS && Marked(c, i / BUCKETS, now) && c.key % BUCKETS == i % BUCKETS
  }

  ghost predicate Bucket(l: seq<Conn>, i: nat, now: int) {
    forall j :: 0 <= j < |l| ==> InPlace(l[j], i, now)
  }

  /** Given only to its own key, aged out only after more than a minute. */
  ghost predicate GoodExit(e: Exit) {
    match e
    case Given(c, key) => c.key == key
    case AgedOut(c, at) => at - c.added > 60
    case Closed(_) => true
  }

  lemma ClosedIsGood(c: Conn)
    ensures GoodExit(Closed(c))
  {
  }

  /** A connection of the other generation seen now: an earlier minute. */
  lemma OtherMinute(c: Conn, g: nat, now: int)
    requires Marked(c, g, now) && Gen(now) != g
    ensures now / TTL > c.since / TTL && c.z <= 1
    ensures c.z == 1 ==> now - c.added > TTL
    ensures c.z == 0 ==> Marked(c.(z := 1, since := now), Gen(now), now)
  {
    assert now / TTL >= c.since / TTL;
  }

  /** The connections of an old bucket that are moved over, the last one first. */
  ghost function Marks(l: seq<Conn>, t: int): seq<Conn> {
    if l == [] then [] else
      var n := |l| - 1;
      (if l[n].z == 0 then [l[n].(z := 1, since := t)] else []) + Marks(l[..n], t)
  }

  lemma MarksNext(l: seq<Conn>, t: int, k: nat)
    requires k < |l|
    ensures Marks(l[..k + 1], t) == (if l[k].z == 0 then [l[k].(z := 1, since := t)] else []) + Marks(l[..k], t)
  {
    assert l[..k + 1][..k] == l[..k];
  }

  /** Those let go for good, in order. */
  ghost function Aged(l: seq<Conn>, t: int): seq<Exit> {
    if l == [] then [] else
      var n := |l| - 1;
      Aged(l[..n], t) + if l[n].z == 0 then [] else [AgedOut(l[n], t)]
  }

  lemma AgedNext(l: seq<Conn>, t: int, k: nat)
    requires k < |l|
    ensures Aged(l[..k + 1], t) == Aged(l[..k], t) + if l[k].z == 0 then [] else [AgedOut(l[k], t)]
  {
    assert l[..k + 1][..k] == l[..k];
  }

  /** The exits of the first i old buckets. */
  ghost function AllAged(was: seq<seq<Conn>>, t: int, i: nat): seq<Exit>
    requires |was| == 2 * BUCKETS && i <= BUCKETS
  {
    if i == 0 then [] else AllAged(was, t, i - 1) + Aged(was[BUCKETS * (1 - Gen(t)) + i - 1], t)
  }

  /** The buckets once the other generation is emptied: each of this one has what was moved over in front. */
  ghost function Swept(was: seq<seq<Conn>>, t: int): (ls: seq<seq<Conn>>)
    requires |was| == 2 * BUCKETS
    ensures |ls| == |was|
  {
    seq(2 * BUCKETS, i requires 0 <= i < 2 * BUCKETS =>
      if i / BUCKETS == Gen(t) then Marks(was[BUCKETS * (1 - Gen(t)) + i % BUCKETS], t) + was[i] else [])
  }

  /** What is moved over is marked, and what is marked is not moved again. */
  lemma {:induction false} MovedOnce(l: seq<Conn>, t: int)
    ensures forall j :: 0 <= j < |Marks(l, t)| ==> Marks(l, t)[j].z == 1
    ensures (forall j :: 0 <= j < |l| ==> l[j].z != 0) ==> Marks(l, t) == []
  {
    if l != [] { MovedOnce(l[..|l| - 1], t); }
  }

  lemma SweptOf(was: seq<seq<Conn>>, t: int, i: nat)
    requires |was| == 2 * BUCKETS && i < BUCKETS
    ensures var g := Gen(t);
      && Swept(was, t)[BUCKETS * (1 - g) + i] == []
      && Swept(was, t)[BUCKETS * g + i] == Marks(was[BUCKETS * (1 - g) + i], t) + was[BUCKETS * g + i]
  {
    hide Marks;
    var g := Gen(t);
    assert (BUCKETS * g + i) / BUCKETS == g && (BUCKETS * g + i) % BUCKETS == i;
    assert (BUCKETS * (1 - g) + i) / BUCKETS == 1 - g;
  }

  /** Nothing stays unasked for: the third sweep in a minute of the other kind than the one before leaves none of the
      connections that were there before the first. */
  lemma ThreeSweeps(was: seq<seq<Conn>>, t1: int, t2: int, t3: int, k: nat)
    requires |was| == 128 && Gen(t1) != Gen(t2) && Gen(t2) != Gen(t3) && k < 128
    ensures Swept(Swept(Swept(was, t1), t2), t3)[k] == []
  {
    hide Marks, Swept;
    var a := Swept(was, t1);
    var b := Swept(a, t2);
    var i, g := k % BUCKETS, Gen(t3);
    SweptOf(was, t1, i);
    SweptOf(a, t2, i);
    SweptOf(b, t3, i);
    MovedOnce(a[BUCKETS * g + i], t2);
    assert b[BUCKETS * (1 - g) + i] == Marks(a[BUCKETS * g + i], t2) + [];
    MovedOnce(b[BUCKETS * (1 - g) + i], t3);
    assert k == BUCKETS * (k / BUCKETS) + i;
  }

  lemma NoMarks(l: seq<Conn>, m: seq<Conn>, t: int)
    ensures Marks(l[..0], t) + m == m && l[0..] == l
  {
  }

  /** The old bucket i is empty, its counterpart has what was moved over in front. */
  ghost predicate MovedOver(was: seq<seq<Conn>>, ls: seq<seq<Conn>>, i: nat, t: int) {
    && |was| == |ls| == 2 * BUCKETS && i < BUCKETS
    && var a, d := BUCKETS * (1 - Gen(t)) + i, BUCKETS * Gen(t) + i;
    ls[a] == [] && ls[d] == Marks(was[a], t) + was[d]
  }

  /** The first connection of bucket i is gone, to the front of its counterpart or for good. */
  ghost predicate Recycled(was: seq<seq<Conn>>, ls: seq<seq<Conn>>, i: nat, t: int) {
    && |was| == |ls| == 2 * BUCKETS && i < 2 * BUCKETS && i / BUCKETS != Gen(t) && was[i] != []
    && var c, d := was[i][0], BUCKETS * Gen(t) + i % BUCKETS;
    && ls[i] == was[i][1..] && ls[d] == (if c.z == 0 then [c.(z := 1, since := t)] else []) + was[d]
    && forall k :: 0 <= k < 2 * BUCKETS && k != i && k != d ==> ls[k] == was[k]
  }

  /** The first k connections of the old bucket i are dealt with. */
  ghost predicate Halfway(was: seq<seq<Conn>>, ls: seq<seq<Conn>>, i: nat, t: int, k: nat) {
    && |was| == |ls| == 2 * BUCKETS && i < BUCKETS
    && var a, d := BUCKETS * (1 - Gen(t)) + i, BUCKETS * Gen(t) + i;
    && k <= |was[a]| && ls[a] == was[a][k..] && ls[d] == Marks(was[a][..k], t) + was[d]
    && forall j :: 0 <= j < 2 * BUCKETS && j != a && j != d ==> ls[j] == was[j]
  }

  lemma HalfwayStart(was: seq<seq<Conn>>, i: nat, t: int)
    requires |was| == 2 * BUCKETS && i < BUCKETS
    ensures Halfway(was, was, i, t, 0)
  {
    var a, d := BUCKETS * (1 - Gen(t)) + i, BUCKETS * Gen(t) + i;
    NoMarks(was[a], was[d], t);
  }

  lemma HalfwayNext(was: seq<seq<Conn>>, mid: seq<seq<Conn>>, ls: seq<seq<Conn>>, i: nat, t: int, k: nat)
    requires i < BUCKETS && Halfway(was, mid, i, t, k) && Recycled(mid, ls, BUCKETS * (1 - Gen(t)) + i, t)
    ensures Halfway(was, ls, i, t, k + 1)
  {
    hide Marks;
    var a, d := BUCKETS * (1 - Gen(t)) + i, BUCKETS * Gen(t) + i;
    MarksNext(was[a], t, k);
    assert mid[a][0] == was[a][k] && mid[a][1..] == was[a][k + 1..];
  }

  lemma HalfwayAt(was: seq<seq<Conn>>, ls: seq<seq<Conn>>, i: nat, t: int, k: nat)
    requires i < BUCKETS && Halfway(was, ls, i, t, k)
    ensures var a := BUCKETS * (1 - Gen(t)) + i; |was| == |ls| == 2 * BUCKETS && k <= |was[a]| && ls[a] == was[a][k..]
  {
  }

  lemma NoneAged(l: seq<Conn>, t: int)
    ensures Aged(l[..0], t) == [] && l[0..] == l
  {
  }

  lemma HalfwayEnd(was: seq<seq<Conn>>, ls: seq<seq<Conn>>, i: nat, t: int, k: nat)
    requires i < BUCKETS && Halfway(was, ls, i, t, k) && ls[BUCKETS * (1 - Gen(t)) + i] == []
    ensures MovedOver(was, ls, i, t) && forall j :: 0 <= j < BUCKETS && j != i ==> Untouched(was, ls, j)
  {
    hide Marks;
    var a := BUCKETS * (1 - Gen(t)) + i;
    assert was[a][..k] == was[a];
  }

  /** Both buckets i are as they were. */
  ghost predicate Untouched(was: seq<seq<Conn>>, ls: seq<seq<Conn>>, i: nat) {
    |was| == |ls| == 2 * BUCKETS && i < BUCKETS && ls[i] == was[i] && ls[BUCKETS + i] == was[BUCKETS + i]
  }

  lemma AllUntouched(was: seq<seq<Conn>>, i: nat)
    requires |was| == 2 * BUCKETS && i < BUCKETS
    ensures Untouched(was, was, i)
  {
  }

  lemma UntouchedOld(was: seq<seq<Conn>>, ls: seq<seq<Conn>>, i: nat, t: int)
    requires Untouched(was, ls, i)
    ensures |was| == |ls| == 2 * BUCKETS && ls[BUCKETS * (1 - Gen(t)) + i] == was[BUCKETS * (1 - Gen(t)) + i]
  {
  }

  lemma StillUntouched(was: seq<seq<Conn>>, mid: seq<seq<Conn>>, ls: seq<seq<Conn>>, i: nat)
    requires Untouched(was, mid, i) && Untouched(mid, ls, i)
    ensures Untouched(was, ls, i)
  {
  }

  lemma MovedStays(was: seq<seq<Conn>>, mid: seq<seq<Conn>>, ls: seq<seq<Conn>>, i: nat, t: int)
    requires MovedOver(was, mid, i, t) && Untouched(mid, ls, i)
    ensures MovedOver(was, ls, i, t)
  {
    hide Marks;
  }

  lemma MovedNow(was: seq<seq<Conn>>, mid: seq<seq<Conn>>, ls: seq<seq<Conn>>, i: nat, t: int)
    requires Untouched(was, mid, i) && MovedOver(mid, ls, i, t)
    ensures MovedOver(was, ls, i, t)
  {
    hide Marks;
  }

  lemma AllSwept(was: seq<seq<Conn>>, ls: seq<seq<Conn>>, t: int)
    requires |was| == |ls| == 2 * BUCKETS && forall i :: 0 <= i < BUCKETS ==> MovedOver(was, ls, i, t)
    ensures ls == Swept(was, t)
  {
    hide Marks;
    forall k | 0 <= k < 2 * BUCKETS ensures ls[k] == Swept(was, t)[k] { assert MovedOver(was, ls, k % BUCKETS, t); }
  }

  /** The pool at a time: its buckets, the connections put in and the ways out. */
  class Pool {
    const lists: array<seq<Conn>>
    ghost var now: int
    ghost var added: multiset<Origin>
    ghost var exits: seq<Exit>

    constructor ()
      ensures Valid() && fresh(lists) && added == multiset{} && exits == [] && now == 0
      ensures forall i :: 0 <= i < 2 * BUCKETS ==> lists[i] == []
    {
      lists := new seq<Conn>[2 * BUCKETS](_ => []);
      now, added, exits := 0, multiset{}, [];
      new;
      NoOrigins(lists[..]);
    }

    ghost predicate Valid()
      reads this, lists
    {
      && lists.Length == 2 * BUCKETS && 0 <= now
      && (forall i :: 0 <= i < 2 * BUCKETS ==> Bucket(lists[i], i, now))
      && Conserved()
      && (forall j :: 0 <= j < |exits| ==> GoodExit(exits[j]))
    }

    /** The clock moves on. */
    ghost method Tick(t: int)
      requires Valid() && now <= t
      modifies this`now
      ensures Valid() && now == t
    {
      forall i | 0 <= i < 2 * BUCKETS ensures Bucket(lists[i], i, t) {
        forall j | 0 <= j < |lists[i]| ensures InPlace(lists[i][j], i, t) {
          assert Bucket(lists[i], i, now) && InPlace(lists[i][j], i, now);
        }
      }
      now := t;
    }

    /** Element j of bucket i leaves the pool. */
    method Leave(i: nat, j: nat, ghost e: Exit)
      requires Valid() && i < 2 * BUCKETS && j < |lists[i]| && e.c == lists[i][j] && GoodExit(e)
      modifies this`exits, lists
      ensures Valid() && exits == old(exits) + [e]
      ensures lists[..] == old(lists[..])[i := Without(old(lists[i]), j)]
    {
      hide Origins, AllOrigins, ExitOrigins, GoodExit;
      ghost var before := lists[..];
      var l := lists[i];
      Taken(before, i, j);
      ExitSnoc(exits, e);
      lists[i] := Without(l, j);
      exits := exits + [e];
      assert lists[..] == before[i := Without(l, j)];
      BucketWithout(l, j, i, now);
      Regroup(AllOrigins(lists[..]), multiset{Of(e.c)}, ExitOrigins(old(exits)));
    }

    /** A connection enters bucket i, at the front or at the end. */
    method Enter(i: nat, c: Conn, front: bool)
      requires lists.Length == 2 * BUCKETS && i < 2 * BUCKETS && InPlace(c, i, now)
      requires forall k :: 0 <= k < 2 * BUCKETS ==> Bucket(lists[k], k, now)
      modifies lists
      ensures forall k :: 0 <= k < 2 * BUCKETS ==> Bucket(lists[k], k, now)
      ensures lists[..] == old(lists[..])[i := if front then [c] + old(lists[i]) else old(lists[i]) + [c]]
      ensures AllOrigins(lists[..]) == old(AllOrigins(lists[..])) + multiset{Of(c)}
    {
      hide Origins, AllOrigins, InPlace;
      ghost var before := lists[..];
      var l := lists[i];
      lists[i] := if front then [c] + l else l + [c];
      assert lists[..] == before[i := lists[i]];
      Put(before, i, c, lists[i]);
      assert Bucket(l, i, now);
    }

    /** The first connection of an old bucket: moved over once, closed the second time. */
    method Recycle(i: nat, t: int)
      requires Valid() && now == t && i < 2 * BUCKETS && i / BUCKETS != Gen(t) && lists[i] != []
      modifies this`exits, lists
      ensures Valid() && |lists[i]| < |old(lists[i])|
      ensures exits == old(exits) + if old(lists[i])[0].z == 0 then [] else [AgedOut(old(lists[i])[0], t)]
      ensures Recycled(old(lists[..]), lists[..], i, t)
    {
      hide Origins, AllOrigins, ExitOrigins, Marked;
      var c := lists[i][0];
      assert Bucket(lists[i], i, now) && InPlace(c, i, now);
      OtherMinute(c, i / BUCKETS, t);
      assert Without(lists[i], 0) == lists[i][1..];
      if c.z == 0 {
        Move(i, c, t);
      } else {
        Leave(i, 0, AgedOut(c, t));
      }
    }

    method Move(i: nat, c: Conn, t: int)
      requires Valid() && now == t && i < 2 * BUCKETS && i / BUCKETS != Gen(t) && lists[i] != [] && c == lists[i][0]
      requires Marked(c.(z := 1, since := t), Gen(t), t) && c.key % BUCKETS == i % BUCKETS
      modifies lists
      ensures Valid() && lists[i] == old(lists[i])[1..]
      ensures var d := BUCKETS * Gen(t) + i % BUCKETS;
        && lists[d] == [c.(z := 1, since := t)] + old(lists[..])[d]
        && forall k :: 0 <= k < 2 * BUCKETS && k != i && k != d ==> lists[k] == old(lists[k])
    {
      hide Origins, AllOrigins, ExitOrigins, Marked, GoodExit;
      ghost var before := lists[..];
      var l, d := lists[i], Slot(Gen(t), c.key);
      Taken(before, i, 0);
      BucketWithout(l, 0, i, t);
      assert Without(l, 0) == l[1..];
      lists[i] := l[1..];
      assert lists[..] == before[i := l[1..]];
      Enter(d, c.(z := 1, since := t), true);
    }

    /** The first part of get_connection_in_pool: the other generation is emptied, and each of its buckets goes,
        as far as it was not moved before, to the front of its counterpart. */
    method Clear(t: int)
      requires Valid() && now == t
      modifies this`exits, lists
      ensures Valid() && lists[..] == Swept(old(lists[..]), t)
      ensures exits == old(exits) + AllAged(old(lists[..]), t, BUCKETS)
    {
      hide Origins, AllOrigins, ExitOrigins, Bucket, GoodExit, MovedOver, Untouched, Aged, Swept;
      ghost var was := lists[..];
      forall k | 0 <= k < BUCKETS ensures Untouched(was, lists[..], k) { AllUntouched(was, k); }
      for i := 0 to BUCKETS
        invariant Valid() && exits == old(exits) + AllAged(was, t, i)
        invariant forall k :: 0 <= k < i ==> MovedOver(was, lists[..], k, t)
        invariant forall k :: i <= k < BUCKETS ==> Untouched(was, lists[..], k)
      {
        ghost var mid := lists[..];
        UntouchedOld(was, mid, i, t);
        ClearBucket(i, t);
        MovedNow(was, mid, lists[..], i, t);
        forall k | 0 <= k < i ensures MovedOver(was, lists[..], k, t) { MovedStays(was, mid, lists[..], k, t); }
        forall k | i + 1 <= k < BUCKETS ensures Untouched(was, lists[..], k) { StillUntouched(was, mid, lists[..], k); }
      }
      AllSwept(was, lists[..], t);
    }

    /** Bucket i of the other generation. */
    method ClearBucket(i: nat, t: int)
      requires Valid() && now == t && i < BUCKETS
      modifies this`exits, lists
      ensures Valid() && exits == old(exits) + Aged(old(lists[..])[BUCKETS * (1 - Gen(t)) + i], t)
      ensures MovedOver(old(lists[..]), lists[..], i, t)
      ensures forall k :: 0 <= k < BUCKETS && k != i ==> Untouched(old(lists[..]), lists[..], k)
    {
      hide Origins, AllOrigins, ExitOrigins, Bucket, GoodExit, Conserved, Halfway, Recycled, MovedOver, Untouched, Aged;
      var a := BUCKETS * (1 - Gen(t)) + i;
      ghost var was, k := lists[..], 0;
      HalfwayStart(was, i, t);
      NoneAged(was[a], t);
      while lists[a] != []
        invariant Valid() && Halfway(was, lists[..], i, t, k)
        invariant k <= |was[a]| && lists[a] == was[a][k..] && exits == old(exits) + Aged(was[a][..k], t)
        decreases |lists[a]|
      {
        ghost var mid := lists[..];
        AgedNext(was[a], t, k);
        Recycle(a, t);
        HalfwayNext(was, mid, lists[..], i, t, k);
        HalfwayAt(was, lists[..], i, t, k + 1);
        k := k + 1;
      }
      assert was[a][..k] == was[a];
      HalfwayEnd(was, lists[..], i, t, k);
    }

    /**
     get_connection_in_pool at time t: the other generation is emptied, then the first connection of the
     bucket with the key is given out.  None is given for key 0, and otherwise only when no connection in the
     pool has the key.
     */
    method Get(key: nat, t: int) returns (r: Option<Conn>)
      requires Valid() && now <= t
      modifies this`now, this`exits, lists
      ensures Valid() && now == t && added == old(added)
      ensures r == if key == 0 then None else FirstOf(Swept(old(lists[..]), t)[Slot(Gen(t), key)], key)
      ensures lists[..] == GivenOut(Swept(old(lists[..]), t), Slot(Gen(t), key), r)
      ensures exits == old(exits) + AllAged(old(lists[..]), t, BUCKETS) + if r.Some? then [Given(r.value, key)] else []
      ensures r == None && key != 0 ==> NoneHas(lists[..], key)
    {
      hide Origins, AllOrigins, ExitOrigins, Marked, Swept, AllAged;
      Tick(t);
      ghost var was := lists[..];
      Clear(t);
      if key == 0 { return None; }
      var s := Slot(Gen(t), key);
      var j := Find(lists[s], key);
      FirstAt(lists[s], key, j);
      if j < |lists[s]| {
        r := Some(lists[s][j]);
        Leave(s, j, Given(lists[s][j], key));
        return;
      }
      forall i, m | 0 <= i < 2 * BUCKETS && 0 <= m < |lists[i]| ensures lists[i][m].key != key {
        assert Bucket(lists[i], i, now) && InPlace(lists[i][m], i, now);
        OthersEmpty(was, t, i);
      }
      return None;
    }

    /** A connection is put in, behind its bucket. */
    method Admit(s: nat, c: Conn)
      requires Valid() && s < 2 * BUCKETS && InPlace(c, s, now)
      modifies this`added, lists
      ensures Valid() && added == old(added) + multiset{Of(c)}
      ensures lists[..] == old(lists[..])[s := old(lists[s]) + [c]]
    {
      hide Origins, AllOrigins, ExitOrigins, Bucket, InPlace, GoodExit;
      Enter(s, c, false);
      added := added + multiset{Of(c)};
      Regroup(old(AllOrigins(lists[..])), multiset{Of(c)}, ExitOrigins(exits));
    }

    /** add_connection_to_pool: refused exactly when the bucket already has more than size connections
        for the key; one whose watch cannot be set is closed again at once. */
    method Add(id: int, key: nat, size: int, t: int, watched: bool) returns (ok: bool)
      requires Valid() && now <= t
      modifies this`now, this`added, this`exits, lists
      ensures Valid() && now == t
      ensures var n := Number(old(lists[..])[Slot(Gen(t), key)], key);
        && (ok <==> n <= size || n == 0)
        && (ok && watched ==> Number(lists[..][Slot(Gen(t), key)], key) == n + 1)
      ensures added == old(added) + if ok then multiset{Origin(id, key, t)} else multiset{}
      ensures exits == old(exits) + if ok && !watched then [Closed(Conn(id, key, 0, t, t))] else []
      ensures lists[..] ==
        if ok && watched then Hung(old(lists[..]), Slot(Gen(t), key), Conn(id, key, 0, t, t)) else old(lists[..])
    {
      hide Origins, AllOrigins, ExitOrigins, Number, Bucket, Without, Slot, InPlace, GoodExit;
      Tick(t);
      var s := Slot(Gen(t), key);
      SlotSame(Gen(t), key, Gen(t), key);
      var n := CountKey(lists[s], key);
      if Full(n, size) { return false; }
      var c := Conn(id, key, 0, t, t);
      NewInPlace(c, t);
      Admit(s, c);
      if !watched {
        ClosedIsGood(c);
        LastAgain(old(lists[..])[s], c);
        Leave(s, |lists[s]| - 1, Closed(c));
      } else {
        OneMoreOfKey(old(lists[..])[s], c);
      }
      return true;
    }

    /** cosocket_be_close: the peer closed a pooled connection; it is taken out of its chain. */
    method BeClose(c: Conn) returns (s: nat, j: nat)
      requires Valid() && (c in lists[Slot(0, c.key)] || c in lists[Slot(1, c.key)])
      modifies this`exits, lists
      ensures Valid() && exits == old(exits) + [Closed(c)] && added == old(added)
      ensures (s == Slot(0, c.key) || s == Slot(1, c.key)) && j < |old(lists[..])[s]| && old(lists[..])[s][j] == c
      ensures lists[..] == old(lists[..])[s := Without(old(lists[..])[s], j)]
    {
      hide Origins, AllOrigins, ExitOrigins, Bucket;
      s := if c in lists[Slot(0, c.key)] then Slot(0, c.key) else Slot(1, c.key);
      j := 0;
      while lists[s][j] != c
        invariant 0 <= j < |lists[s]| && c in lists[s][j..]
        decreases |lists[s]| - j
      {
        j := j + 1;
      }
      Leave(s, j, Closed(c));
    }

    /** Every connection put in is in the pool or has left, once. */
    ghost predicate Conserved()
      reads this, lists
    {
      added == AllOrigins(lists[..]) + ExitOrigins(exits)
    }
  }

  /** The first connection with the key, if there is one. */
  ghost function FirstOf(l: seq<Conn>, key: nat): Option<Conn> {
    if l == [] then None else if l[0].key == key then Some(l[0]) else FirstOf(l[1..], key)
  }

  /** The list without the first connection with the key. */
  ghost function DropFirst(l: seq<Conn>, key: nat): seq<Conn> {
    if l == [] then [] else if l[0].key == key then l[1..] else [l[0]] + DropFirst(l[1..], key)
  }

  /** The buckets with r, the first of its key, out of bucket s. */
  ghost function GivenOut(ls: seq<seq<Conn>>, s: nat, r: Option<Conn>): seq<seq<Conn>>
    requires s < |ls|
  {
    if r.None? then ls else ls[s := DropFirst(ls[s], r.value.key)]
  }

  /** The buckets with c behind bucket s. */
  ghost function Hung(ls: seq<seq<Conn>>, s: nat, c: Conn): seq<seq<Conn>>
    requires s < |ls|
  {
    ls[s := ls[s] + [c]]
  }

  ghost predicate NoneHas(ls: seq<seq<Conn>>, key: nat) {
    forall i, j :: 0 <= i < |ls| && 0 <= j < |ls[i]| ==> ls[i][j].key != key
  }

  lemma {:induction false} FirstAt(l: seq<Conn>, key: nat, j: nat)
    requires j <= |l| && (forall m :: 0 <= m < j ==> l[m].key != key) && (j < |l| ==> l[j].key == key)
    ensures FirstOf(l, key) == if j < |l| then Some(l[j]) else None
    ensures j < |l| ==> DropFirst(l, key) == Without(l, j)
  {
    if j > 0 {
      FirstAt(l[1..], key, j - 1);
      if j < |l| { assert Without(l, j) == [l[0]] + Without(l[1..], j - 1); }
    }
  }

  lemma NewInPlace(c: Conn, t: int)
    requires 0 <= t == c.added == c.since && c.z == 0
    ensures InPlace(c, Slot(Gen(t), c.key), t)
  {
  }

  lemma LastAgain(l: seq<Conn>, c: Conn)
    ensures Without(l + [c], |l|) == l
  {
  }

  lemma OthersEmpty(was: seq<seq<Conn>>, t: int, k: nat)
    requires |was| == 2 * BUCKETS && k < 2 * BUCKETS
    ensures k / BUCKETS != Gen(t) ==> Swept(was, t)[k] == []
  {
  }

  /** The first connection with the key. */
  method Find(l: seq<Conn>, key: nat) returns (j: nat)
    ensures j <= |l| && (forall m :: 0 <= m < j ==> l[m].key != key) && (j < |l| ==> l[j].key == key)
  {
    j := 0;
    while j < |l| && l[j].key != key
      invariant j <= |l| && forall m :: 0 <= m < j ==> l[m].key != key
    {
      j := j + 1;
    }
  }

  /** Refused at the entry with the key before which size were counted: there are more, and there is one. */
  predicate Full(n: nat, size: int) {
    n > 0 && n > size
  }

  ghost function Number(l: seq<Conn>, key: nat): nat {
    if l == [] then 0 else Number(l[..|l| - 1], key) + if l[|l| - 1].key == key then 1 else 0
  }

  lemma OneMoreOfKey(l: seq<Conn>, c: Conn)
    ensures Number(l + [c], c.key) == Number(l, c.key) + 1
  {
    assert (l + [c])[..|l|] == l;
  }

  /** The connections of a key, counted by their places. */
  lemma {:induction false} NumberIs(l: seq<Conn>, key: nat)
    ensures Number(l, key) == |set i | 0 <= i < |l| && l[i].key == key|
  {
    var places := set i | 0 <= i < |l| && l[i].key == key;
    if l != [] {
      var n := |l| - 1;
      NumberIs(l[..n], key);
      var before := set i | 0 <= i < |l[..n]| && l[..n][i].key == key;
      assert places == before + if l[n].key == key then {n} else {};
    }
  }

  method CountKey(l: seq<Conn>, key: nat) returns (n: nat)
    ensures n == Number(l, key)
  {
    n := 0;
    for j := 0 to |l|
      invariant n == Number(l[..j], key)
    {
      assert l[..j + 1][..j] == l[..j];
      if l[j].key == key { n := n + 1; }
    }
    assert l[..|l|] == l;
  }

  lemma {:induction false} NoOrigins(lists: seq<seq<Conn>>)
    requires forall i :: 0 <= i < |lists| ==> lists[i] == []
    ensures AllOrigins(lists) == multiset{}
  {
    if lists != [] { NoOrigins(lists[..|lists| - 1]); }
  }

  lemma Taken(lists: seq<seq<Conn>>, i: nat, j: nat)
    requires i < |lists| && j < |lists[i]|
    ensures AllOrigins(lists) == AllOrigins(lists[i := Without(lists[i], j)]) + multiset{Of(lists[i][j])}
  {
    hide Origins, AllOrigins;
    var w := Without(lists[i], j);
    AllUpdate(lists, i, w);
    OriginsWithout(lists[i], j);
    Cancel(AllOrigins(lists[i := w]), Origins(w), multiset{Of(lists[i][j])}, AllOrigins(lists));
  }

  lemma Cancel(a: multiset<Origin>, w: multiset<Origin>, c: multiset<Origin>, b: multiset<Origin>)
    requires a + (w + c) == b + w
    ensures b == a + c
  {
    forall x ensures b[x] == (a + c)[x] { assert (a + (w + c))[x] == (b + w)[x]; }
    assert a + c + w == b + w;
    assert (a + c + w) - w == (b + w) - w;
    assert (a + c + w) - w == a + c && (b + w) - w == b;
  }

  lemma Put(lists: seq<seq<Conn>>, i: nat, c: Conn, l: seq<Conn>)
    requires i < |lists| && (l == [c] + lists[i] || l == lists[i] + [c])
    ensures AllOrigins(lists[i := l]) == AllOrigins(lists) + multiset{Of(c)}
  {
    hide Origins, AllOrigins;
    AllUpdate(lists, i, l);
    OriginsOne(c);
    OriginsAppend([c], lists[i]);
    OriginsAppend(lists[i], [c]);
    assert multiset{Of(c)} + Origins(lists[i]) == Origins(lists[i]) + multiset{Of(c)};
    Cancel(AllOrigins(lists), Origins(lists[i]), multiset{Of(c)}, AllOrigins(lists[i := l]));
  }

  lemma Regroup(a: multiset<Origin>, c: multiset<Origin>, e: multiset<Origin>)
    ensures (a + c) + e == a + (e + c)
  {
  }

  lemma BucketWithout(l: seq<Conn>, j: nat, i: nat, now: int)
    requires Bucket(l, i, now) && j < |l|
    ensures Bucket(Without(l, j), i, now)
  {
    hide InPlace;
    var w := Without(l, j);
    forall m | 0 <= m < |w| ensures InPlace(w[m], i, now) {
      assert w[m] == l[if m < j then m else m + 1];
    }
  }

  // ----- the life of a connection -------------------------------------------------------------------

  /** No connection was put in twice, and no two have the same id. */
  ghost predicate Distinct(added: multiset<Origin>) {
    && (forall o :: added[o] <= 1)
    && (forall o, p :: o in added && p in added && o.id == p.id ==> o == p)
  }

  lemma {:induction false} ExitIn(es: seq<Exit>, i: nat)
    requires i < |es|
    ensures Of(es[i].c) in ExitOrigins(es)
  {
    if i < |es| - 1 { ExitIn(es[..|es| - 1], i); }
  }

  lemma {:induction false} ExitTwice(es: seq<Exit>, i: nat, j: nat)
    requires i < j < |es| && Of(es[i].c) == Of(es[j].c)
    ensures ExitOrigins(es)[Of(es[i].c)] >= 2
  {
    var n := |es| - 1;
    if j < n { ExitTwice(es[..n], i, j); } else { ExitIn(es[..n], i); }
  }

  lemma {:induction false} ConnIn(l: seq<Conn>, i: nat)
    requires i < |l|
    ensures Of(l[i]) in Origins(l)
  {
    if i < |l| - 1 { ConnIn(l[..|l| - 1], i); }
  }

  lemma {:induction false} ListIn(ls: seq<seq<Conn>>, i: nat, m: nat)
    requires i < |ls| && m < |ls[i]|
    ensures Of(ls[i][m]) in AllOrigins(ls)
  {
    if i < |ls| - 1 { ListIn(ls[..|ls| - 1], i, m); } else { ConnIn(ls[i], m); }
  }

  /** What leaves was put in before, with the key it is given to, and is aged out more than a minute later. */
  lemma ExitWasAdded(p: Pool, i: nat)
    requires p.Valid() && i < |p.exits|
    ensures match p.exits[i]
      case Given(c, key) => Origin(c.id, key, c.added) in p.added
      case AgedOut(c, at) => Origin(c.id, c.key, c.added) in p.added && at - c.added > 60
      case Closed(c) => Origin(c.id, c.key, c.added) in p.added
  {
    hide AllOrigins, ExitOrigins, Bucket;
    ExitIn(p.exits, i);
    assert GoodExit(p.exits[i]);
  }

  /** A connection leaves once, and is not in the pool any more. */
  lemma LeavesOnce(p: Pool, i: nat, j: nat)
    requires p.Valid() && Distinct(p.added) && i < |p.exits|
    ensures i < j < |p.exits| ==> p.exits[i].c.id != p.exits[j].c.id
    ensures forall k, m :: 0 <= k < p.lists.Length && 0 <= m < |p.lists[k]| ==> p.lists[k][m].id != p.exits[i].c.id
  {
    hide AllOrigins, ExitOrigins, Bucket;
    ExitIn(p.exits, i);
    if i < j < |p.exits| {
      ExitIn(p.exits, j);
      if p.exits[i].c.id == p.exits[j].c.id { ExitTwice(p.exits, i, j); }
    }
    forall k, m | 0 <= k < p.lists.Length && 0 <= m < |p.lists[k]| ensures p.lists[k][m].id != p.exits[i].c.id {
      ListIn(p.lists[..], k, m);
      assert p.lists[..][k] == p.lists[k];
    }
  }

  /** No connection is given out twice. */
  method TwoGets(p: Pool, key: nat, t: int, key': nat, t': int) returns (r: Option<Conn>, r': Option<Conn>)
    requires p.Valid() && Distinct(p.added) && p.now <= t <= t'
    modifies p, p.lists
    ensures r.Some? && r'.Some? ==> r.value.id != r'.value.id
  {
    hide AllOrigins, ExitOrigins, Bucket, Swept, AllAged, GoodExit, NoneHas, Distinct, FirstOf;
    r := p.Get(key, t);
    ghost var n := |p.exits| - 1;
    r' := p.Get(key', t');
    if r.Some? && r'.Some? { LeavesOnce(p, n, |p.exits| - 1); }
  }

  /** The only connection of the pool, swept once. */
  lemma OneSwept(was: seq<seq<Conn>>, c: Conn, t: int, t': int, key: nat)
    requires |was| == 2 * BUCKETS && c.z == 0
    requires forall k :: 0 <= k < |was| ==> was[k] == if k == Slot(Gen(t), c.key) then [c] else []
    ensures var r := FirstOf(Swept(was, t')[Slot(Gen(t'), key)], key);
      if key == c.key then r.Some? && Of(r.value) == Of(c) else r == None
  {
    hide Marks, FirstOf, Swept, Slot;
    var g := Gen(t');
    SlotSame(1 - g, key, Gen(t), c.key);
    SlotSame(g, key, Gen(t), c.key);
    SweptAt(was, t', key);
    var l := Swept(was, t')[Slot(g, key)];
    OneMark(c, t');
    if key % BUCKETS == c.key % BUCKETS {
      var c' := if g == Gen(t) then c else c.(z := 1, since := t');
      assert l == [c'];
      OneFirst(c', key);
    } else {
      assert l == [];
      NoneFirst(key);
    }
  }

  lemma SweptAt(was: seq<seq<Conn>>, t: int, key: nat)
    requires |was| == 2 * BUCKETS
    ensures Slot(Gen(t), key) < |was| && Slot(1 - Gen(t), key) < |was|
    ensures Swept(was, t)[Slot(Gen(t), key)] == Marks(was[Slot(1 - Gen(t), key)], t) + was[Slot(Gen(t), key)]
  {
    hide Marks;
    var i := Slot(Gen(t), key);
    assert i / BUCKETS == Gen(t) && i % BUCKETS == key % BUCKETS;
  }

  lemma OneMark(c: Conn, t: int)
    requires c.z == 0
    ensures Marks([c], t) == [c.(z := 1, since := t)] && Marks([], t) == []
  {
    assert [c][..0] == [];
  }

  lemma OneFirst(c: Conn, key: nat)
    ensures FirstOf([c], key) == if c.key == key then Some(c) else None
  {
    assert [c][1..] == [];
  }

  lemma NoneFirst(key: nat)
    ensures FirstOf([], key) == None
  {
  }

  /** A connection put into an empty pool comes out for its own key and for no other. */
  method AddThenGet(id: int, key: nat, t: int, other: nat, t': int) returns (r: Option<Conn>)
    requires 0 <= t <= t'
    ensures r.Some? <==> other == key && key != 0
    ensures r.Some? ==> Of(r.value) == Origin(id, key, t)
  {
    hide AllOrigins, ExitOrigins, Bucket, GoodExit, Swept;
    var p := new Pool();
    var ok := p.Add(id, key, 0, t, true);
    OneSwept(p.lists[..], Conn(id, key, 0, t, t), t, t', other);
    r := p.Get(other, t');
  }

  /** What is asked of a pool: take a connection in, give one out, take note that the peer closed one. */
  datatype Op = Keep(id: int, key: nat, size: int, t: int, watched: bool) | Ask(key: nat, t: int) | Gone(c: Conn)

  /** The clock does not go back. */
  ghost predicate InTime(ops: seq<Op>, now: int) {
    ops != [] ==>
      && (!ops[0].Gone? ==> now <= ops[0].t)
      && InTime(ops[1..], if ops[0].Gone? then now else ops[0].t)
  }

  /** Some connection kept by one of the first n calls. */
  ghost predicate Kept(ops: seq<Op>, n: nat, o: Origin) {
    exists h :: 0 <= h < n && h < |ops| && ops[h].Keep? && o == Origin(ops[h].id, ops[h].key, ops[h].t)
  }

  /** No two calls keep connections of the same id. */
  ghost predicate NoReuse(ops: seq<Op>) {
    forall i, j :: 0 <= i < j < |ops| && ops[i].Keep? && ops[j].Keep? ==> ops[i].id != ops[j].id
  }

  lemma StillDistinct(ops: seq<Op>, k: nat, added: multiset<Origin>)
    requires NoReuse(ops) && k < |ops| && ops[k].Keep? && Distinct(added) && forall o :: o in added ==> Kept(ops, k, o)
    ensures Distinct(added + multiset{Origin(ops[k].id, ops[k].key, ops[k].t)})
  {
    forall o | o in added ensures o.id != ops[k].id { assert Kept(ops, k, o); }
  }

  /** The calls answered so far, and where their answers are among the exits. */
  ghost predicate Served(ops: seq<Op>, got: seq<Option<Conn>>, exits: seq<Exit>, at: seq<nat>) {
    && |got| == |at| <= |ops|
    && (forall i :: 0 <= i < |got| && got[i].Some? ==>
         ops[i].Ask? && at[i] < |exits| && exits[at[i]] == Given(got[i].value, ops[i].key) &&
           Kept(ops, i, Of(got[i].value)))
    && (forall i, j :: 0 <= i < j < |got| && got[i].Some? && got[j].Some? ==> at[i] < at[j])
  }

  /** One call. */
  method Serve(p: Pool, op: Op) returns (r: Option<Conn>)
    requires p.Valid() && (!op.Gone? ==> p.now <= op.t)
    modifies p, p.lists
    ensures p.Valid() && p.now == (if op.Gone? then old(p.now) else op.t) && old(p.exits) <= p.exits
    ensures p.added == old(p.added) || (op.Keep? && p.added == old(p.added) + multiset{Origin(op.id, op.key, op.t)})
    ensures r.Some? ==> op.Ask? && r.value.key == op.key && |old(p.exits)| < |p.exits|
    ensures r.Some? ==> p.exits[|p.exits| - 1] == Given(r.value, op.key) && Of(r.value) in old(p.added)
  {
    hide AllOrigins, ExitOrigins, Bucket, Swept, AllAged, NoneHas, FirstOf, Hung, GivenOut;
    r := None;
    match op {
      case Keep(id, key, size, t, watched) => var ok := p.Add(id, key, size, t, watched);
      case Ask(key, t) =>
        r := p.Get(key, t);
        if r.Some? { ExitWasAdded(p, |p.exits| - 1); }
      case Gone(c) =>
        if c in p.lists[Slot(0, c.key)] || c in p.lists[Slot(1, c.key)] { var s, j := p.BeClose(c); }
    }
  }

  lemma ServedNext(ops: seq<Op>, got: seq<Option<Conn>>, r: Option<Conn>, exits: seq<Exit>, exits': seq<Exit>,
                   at: seq<nat>)
    requires Served(ops, got, exits, at) && |got| < |ops| && exits <= exits'
    requires r.Some? ==> ops[|got|].Ask? && |exits| < |exits'| && Kept(ops, |got|, Of(r.value))
    requires r.Some? ==> exits'[|exits'| - 1] == Given(r.value, ops[|got|].key)
    ensures Served(ops, got + [r], exits', at + [if exits' == [] then 0 else |exits'| - 1])
  {
    hide Kept;
  }

  /** Any calls on a new pool: every connection given out was kept by an earlier call, under the key it is given
      to, and unless ids are reused none is given out twice. */
  method Lifetime(ops: seq<Op>) returns (p: Pool, got: seq<Option<Conn>>)
    requires InTime(ops, 0)
    ensures p.Valid() && |got| == |ops|
    ensures forall i :: 0 <= i < |ops| && got[i].Some? ==>
      ops[i].Ask? && got[i].value.key == ops[i].key && Kept(ops, i, Of(got[i].value))
    ensures NoReuse(ops) ==>
      forall i, j :: 0 <= i < j < |got| && got[i].Some? && got[j].Some? ==> got[i].value.id != got[j].value.id
    ensures forall i :: 0 <= i < |p.exits| && p.exits[i].AgedOut? ==> p.exits[i].at - p.exits[i].c.added > 60
  {
    hide AllOrigins, ExitOrigins, Bucket, Distinct, Served, Kept, NoReuse;
    p := new Pool();
    got := [];
    ghost var at: seq<nat> := [];
    NoneServed(ops);
    NoneAdded();
    for k := 0 to |ops|
      invariant p.Valid() && fresh(p) && fresh(p.lists) && |got| == k && InTime(ops[k..], p.now)
      invariant Served(ops, got, p.exits, at) && forall o :: o in p.added ==> Kept(ops, k, o)
      invariant NoReuse(ops) ==> Distinct(p.added)
    {
      ghost var exits, added := p.exits, p.added;
      assert ops[k..][1..] == ops[k + 1..];
      var r := Serve(p, ops[k]);
      if NoReuse(ops) && p.added != added { StillDistinct(ops, k, added); }
      forall o | o in p.added ensures Kept(ops, k + 1, o) { KeptLater(ops, k, o, added); }
      ServedNext(ops, got, r, exits, p.exits, at);
      got, at := got + [r], at + [if p.exits == [] then 0 else |p.exits| - 1];
    }
    AllServed(p, ops, got, at);
  }

  lemma NoneServed(ops: seq<Op>)
    ensures Served(ops, [], [], []) && ops[0..] == ops
  {
  }

  lemma NoneAdded()
    ensures Distinct(multiset{})
  {
  }

  lemma KeptLater(ops: seq<Op>, k: nat, o: Origin, added: multiset<Origin>)
    requires k < |ops| && forall q :: q in added ==> Kept(ops, k, q)
    requires o in added || (ops[k].Keep? && o == Origin(ops[k].id, ops[k].key, ops[k].t))
    ensures Kept(ops, k + 1, o)
  {
    if o in added { assert Kept(ops, k, o); }
  }

  lemma AllServed(p: Pool, ops: seq<Op>, got: seq<Option<Conn>>, at: seq<nat>)
    requires p.Valid() && Served(ops, got, p.exits, at)
    ensures forall i :: 0 <= i < |got| && got[i].Some? ==>
      ops[i].Ask? && got[i].value.key == ops[i].key && Kept(ops, i, Of(got[i].value))
    ensures Distinct(p.added) ==>
      forall i, j :: 0 <= i < j < |got| && got[i].Some? && got[j].Some? ==> got[i].value.id != got[j].value.id
    ensures forall i :: 0 <= i < |p.exits| && p.exits[i].AgedOut? ==> p.exits[i].at - p.exits[i].c.added > 60
  {
    hide AllOrigins, ExitOrigins, Bucket, Distinct, Kept;
    forall i | 0 <= i < |got| && got[i].Some? ensures got[i].value.key == ops[i].key {
      assert GoodExit(p.exits[at[i]]);
    }
    if Distinct(p.added) {
      forall i, j | 0 <= i < j < |got| && got[i].Some? && got[j].Some? ensures got[i].value.id != got[j].value.id {
        LeavesOnce(p, at[i], at[j]);
      }
    }
    forall i | 0 <= i < |p.exits| && p.exits[i].AgedOut? ensures p.exits[i].at - p.exits[i].c.added > 60 {
      assert GoodExit(p.exits[i]);
    }
  }
}
