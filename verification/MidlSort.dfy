/**
 mdb_midl_sort: quicksort with an explicit stack and insertion sort for short segments,
 in place on a list whose element 0 is its length.  The result is in descending order.
 */
module MidlSort {

  const SMALL := 8
  const STACK := 64   // sizeof(int) * CHAR_BIT * 2

  /** b is a with the entries l..r rearranged. */
  ghost predicate Rearranged(a: seq<nat>, b: seq<nat>, l: int, r: int) {
    && 0 <= l <= r + 1 <= |a| == |b|
    && a[..l] == b[..l] && a[r + 1..] == b[r + 1..]
    && multiset(a[l..r + 1]) == multiset(b[l..r + 1])
  }

  lemma RearrangedTrans(a: seq<nat>, b: seq<nat>, c: seq<nat>, l: int, r: int)
    requires Rearranged(a, b, l, r) && Rearranged(b, c, l, r)
    ensures Rearranged(a, c, l, r)
  {
  }

  lemma RearrangedSwap(a: seq<nat>, l: int, r: int, i: int, j: int)
    requires 0 <= l <= i <= r < |a| && l <= j <= r
    ensures Rearranged(a, a[i := a[j]][j := a[i]], l, r)
  {
    var b := a[i := a[j]][j := a[i]];
    var s, t := a[l..r + 1], b[l..r + 1];
    assert t == s[i - l := s[j - l]][j - l := s[i - l]];
  }

  /** Rearranging l..r keeps every bound that all of l..r satisfied. */
  lemma RearrangedFrom(a: seq<nat>, b: seq<nat>, l: int, r: int, y: int) returns (x: int)
    requires Rearranged(a, b, l, r) && l <= y <= r
    ensures l <= x <= r && a[x] == b[y]
  {
    assert b[y] == b[l..r + 1][y - l];
    assert b[y] in multiset(b[l..r + 1]);
    assert b[y] in multiset(a[l..r + 1]);
    var k :| 0 <= k < |a[l..r + 1]| && a[l..r + 1][k] == b[y];
    x := l + k;
  }

  method Swap(ids: array<nat>, i: int, j: int, ghost l: int, ghost r: int)
    requires 0 <= l <= i <= r < ids.Length && l <= j <= r
    modifies ids
    ensures ids[..] == old(ids[..])[i := old(ids[j])][j := old(ids[i])]
    ensures Rearranged(old(ids[..]), ids[..], l, r)
  {
    RearrangedSwap(ids[..], l, r, i, j);
    ids[i], ids[j] := ids[j], ids[i];
  }

  ghost predicate SortedFrom(a: seq<nat>, l: int, r: int)
    requires 0 <= l && r < |a|
  {
    forall x, y :: l <= x < y <= r ==> a[x] >= a[y]
  }

  /** Everything in l..r is at most the entry before it; 1 is the first entry. */
  ghost predicate Capped(a: seq<nat>, l: int, r: int)
    requires 1 <= l && r < |a|
  {
    l > 1 ==> l - 1 < |a| && forall y :: l <= y <= r ==> a[l - 1] >= a[y]
  }

  lemma CappedKept(a: seq<nat>, b: seq<nat>, l: int, r: int)
    requires 1 <= l && r < |a| && Rearranged(a, b, l, r) && Capped(a, l, r)
    ensures Capped(b, l, r)
  {
    if l > 1 {
      assert a[..l][l - 1] == b[..l][l - 1];
      forall y | l <= y <= r ensures b[l - 1] >= b[y] {
        var x := RearrangedFrom(a, b, l, r, y);
      }
    }
  }

  lemma MoveHole(a: seq<nat>, now: seq<nat>, l: int, r: int, i: int, v: nat)
    requires 0 <= l <= i < r < |now| && Rearranged(a, now[i + 1 := v], l, r)
    ensures Rearranged(a, now[i + 1 := now[i]][i := v], l, r)
  {
    var f := now[i + 1 := v];
    RearrangedSwap(f, l, r, i, i + 1);
    assert f[i := f[i + 1]][i + 1 := f[i]] == now[i + 1 := now[i]][i := v];
    RearrangedTrans(a, f, f[i := f[i + 1]][i + 1 := f[i]], l, r);
  }

  /** While v, the old entry j, is being inserted: i + 1 is the hole. */
  ghost predicate Inserting(was: seq<nat>, now: seq<nat>, l: int, r: int, j: int, i: int, v: nat) {
    && 1 <= l <= i + 1 <= j <= r < |now| == |was|
    && Rearranged(was, now[i + 1 := v], l, r)
    && (l > 1 ==> now[l - 1] >= v)
    && (forall x, y :: l <= x < y <= j && x != i + 1 && y != i + 1 ==> now[x] >= now[y])
    && (forall y :: i + 1 < y <= j ==> now[y] < v)
  }

  lemma InsertStart(was: seq<nat>, l: int, r: int, j: int)
    requires 1 <= l < j <= r < |was| && Capped(was, l, r) && SortedFrom(was, l, j - 1)
    ensures Inserting(was, was, l, r, j, j - 1, was[j])
  {
    assert was[j := was[j]] == was;
  }

  lemma InsertStep(was: seq<nat>, now: seq<nat>, l: int, r: int, j: int, i: int, v: nat)
    requires Inserting(was, now, l, r, j, i, v) && 1 <= i && now[i] < v
    ensures Inserting(was, now[i + 1 := now[i]], l, r, j, i - 1, v)
  {
    hide Rearranged;
    MoveHole(was, now, l, r, i, v);
  }

  lemma InsertEnd(was: seq<nat>, now: seq<nat>, l: int, r: int, j: int, i: int, v: nat)
    requires Inserting(was, now, l, r, j, i, v) && (i < 1 || now[i] >= v)
    ensures Rearranged(was, now[i + 1 := v], l, r) && SortedFrom(now[i + 1 := v], l, j)
  {
    hide Rearranged;
    var f := now[i + 1 := v];
    forall x, y | l <= x < y <= j ensures f[x] >= f[y] {
      if y == i + 1 && x < i { assert now[x] >= now[i]; }
    }
  }

  /** Insert entry j into the sorted entries l..j-1.  The scan is guarded by i >= 1 only: entries
      before l stop it. */
  method InsertOne(ids: array<nat>, l: int, r: int, j: int)
    requires 1 <= l < j <= r < ids.Length && Capped(ids[..], l, r) && SortedFrom(ids[..], l, j - 1)
    modifies ids
    ensures Rearranged(old(ids[..]), ids[..], l, r) && SortedFrom(ids[..], l, j)
  {
    hide Rearranged, Capped, SortedFrom, Inserting;
    ghost var was := ids[..];
    var a := ids[j];
    var i := j - 1;
    InsertStart(was, l, r, j);
    while i >= 1 && ids[i] < a
      invariant 0 <= i < j && Inserting(was, ids[..], l, r, j, i, a)
    {
      InsertStep(was, ids[..], l, r, j, i, a);
      ghost var before := ids[..];
      ids[i + 1] := ids[i];
      assert ids[..] == before[i + 1 := before[i]];
      i := i - 1;
    }
    InsertEnd(was, ids[..], l, r, j, i, a);
    ghost var before := ids[..];
    ids[i + 1] := a;
    assert ids[..] == before[i + 1 := a];
  }

  method InsertionSort(ids: array<nat>, l: int, r: int)
    requires 1 <= l <= r + 1 <= ids.Length && Capped(ids[..], l, r)
    modifies ids
    ensures Rearranged(old(ids[..]), ids[..], l, r) && SortedFrom(ids[..], l, r)
  {
    ghost var was := ids[..];
    var j := l + 1;
    while j <= r
      invariant l + 1 <= j && (j <= r + 1 || r <= l)
      invariant Rearranged(was, ids[..], l, r) && Capped(ids[..], l, r)
      invariant j - 1 <= r ==> SortedFrom(ids[..], l, j - 1)
    {
      ghost var before := ids[..];
      InsertOne(ids, l, r, j);
      RearrangedTrans(was, before, ids[..], l, r);
      CappedKept(before, ids[..], l, r);
      j := j + 1;
    }
  }

  // ----- Partitioning -----------------------------------------------------------------

  /** Put the median of the first, middle and last entry at l+1, the other two around it. */
  method MedianOfThree(ids: array<nat>, l: int, r: int)
    requires 1 <= l && l + SMALL <= r < ids.Length
    modifies ids
    ensures Rearranged(old(ids[..]), ids[..], l, r) && ids[l] >= ids[l + 1] >= ids[r]
  {
    hide Rearranged;
    ghost var was := ids[..];
    Swap(ids, (l + r) / 2, l + 1, l, r);
    ghost var s1 := ids[..];
    Order(ids, l, r, l, r);
    ghost var s2 := ids[..];
    RearrangedTrans(was, s1, s2, l, r);
    Order(ids, l + 1, r, l, r);
    ghost var s3 := ids[..];
    RearrangedTrans(was, s2, s3, l, r);
    Order(ids, l, l + 1, l, r);
    RearrangedTrans(was, s3, ids[..], l, r);
  }

  /** The larger of two entries to the first place. */
  method Order(ids: array<nat>, x: int, y: int, l: int, r: int)
    requires 0 <= l <= x < y <= r < ids.Length
    modifies ids
    ensures Rearranged(old(ids[..]), ids[..], l, r)
    ensures ids[..] == if old(ids[x]) < old(ids[y]) then old(ids[..])[x := old(ids[y])][y := old(ids[x])]
      else old(ids[..])
  {
    hide Rearranged;
    if ids[x] < ids[y] {
      Swap(ids, x, y, l, r);
    } else {
      Unchanged(ids[..], l, r);
    }
  }

  lemma Unchanged(a: seq<nat>, l: int, r: int)
    requires 0 <= l <= r < |a|
    ensures Rearranged(a, a, l, r)
  {
  }

  /** Before a round of scans: i and j have not met, a sits at l+1, and both ends stop the scans. */
  ghost predicate Parting(now: seq<nat>, l: int, r: int, i: int, j: int, a: nat) {
    && 1 <= l && l + 1 <= i <= j <= r < |now| && i < r && l + 2 <= j
    && now[l] >= a && now[l + 1] == a
    && (forall x :: l + 1 < x <= i ==> now[x] >= a)
    && (forall x :: j <= x <= r ==> now[x] <= a)
  }

  /** After both scans. */
  ghost predicate Scanned(now: seq<nat>, l: int, r: int, i: int, j: int, a: nat) {
    && 1 <= l && l + 2 <= i <= r < |now| && l + 1 <= j < r
    && now[l] >= a && now[l + 1] == a && now[i] <= a && now[j] >= a
    && (forall x :: l + 1 < x < i ==> now[x] >= a)
    && (forall x :: j < x <= r ==> now[x] <= a)
  }

  /** do i++ while (ids[i] > a), do j-- while (ids[j] < a): both stay inside l..r. */
  method Scan(ids: array<nat>, l: int, r: int, i0: int, j0: int, a: nat) returns (i: int, j: int)
    requires r < ids.Length && Parting(ids[..], l, r, i0, j0, a)
    ensures Scanned(ids[..], l, r, i, j, a) && i0 < i && j < j0
  {
    i := i0 + 1;
    while ids[i] > a
      invariant i0 < i <= r && (i0 < j0 ==> i <= j0)
      invariant forall x :: l + 1 < x < i ==> ids[x] >= a
      decreases r - i
    {
      i := i + 1;
    }
    j := j0 - 1;
    while ids[j] < a
      invariant l + 1 <= j < j0
      invariant forall x :: j < x <= r ==> ids[x] <= a
      decreases j
    {
      j := j - 1;
    }
  }

  lemma SwapScanned(now: seq<nat>, l: int, r: int, i: int, j: int, a: nat)
    requires Scanned(now, l, r, i, j, a) && i <= j
    ensures Parting(now[i := now[j]][j := now[i]], l, r, i, j, a)
  {
  }

  /** The segment l..r cut by the pivot p at j: larger, equal, smaller. */
  ghost predicate Cut(now: seq<nat>, l: int, r: int, i: int, j: int, p: nat) {
    && 1 <= l < j < i <= r < |now|
    && (forall x :: l <= x < j ==> now[x] >= p)
    && (forall x :: j <= x < i ==> now[x] == p)
    && (forall x :: i <= x <= r ==> now[x] <= p)
  }

  lemma CutScanned(now: seq<nat>, l: int, r: int, i: int, j: int, a: nat)
    requires Scanned(now, l, r, i, j, a) && j < i
    ensures Cut(now[l + 1 := now[j]][j := now[l + 1]], l, r, i, j, a)
  {
  }

  method Partition(ids: array<nat>, l: int, r: int) returns (i: int, j: int, ghost p: nat)
    requires 1 <= l && l + SMALL <= r < ids.Length
    modifies ids
    ensures Rearranged(old(ids[..]), ids[..], l, r) && Cut(ids[..], l, r, i, j, p)
  {
    hide Rearranged, Scanned;
    ghost var was := ids[..];
    MedianOfThree(ids, l, r);
    var a := ids[l + 1];
    p := a;
    i, j := l + 1, r;
    while true
      invariant Rearranged(was, ids[..], l, r) && Parting(ids[..], l, r, i, j, a)
      decreases j - i
    {
      i, j := Scan(ids, l, r, i, j, a);
      if j < i { break; }
      ScannedBounds(ids[..], l, r, i, j, a);
      SwapScanned(ids[..], l, r, i, j, a);
      ghost var before := ids[..];
      Swap(ids, i, j, l, r);
      RearrangedTrans(was, before, ids[..], l, r);
    }
    ScannedBounds(ids[..], l, r, i, j, a);
    CutScanned(ids[..], l, r, i, j, a);
    ghost var before := ids[..];
    Swap(ids, l + 1, j, l, r);
    RearrangedTrans(was, before, ids[..], l, r);
  }

  lemma ScannedBounds(now: seq<nat>, l: int, r: int, i: int, j: int, a: nat)
    requires Scanned(now, l, r, i, j, a)
    ensures l + 2 <= i <= r && l + 1 <= j < r
  {
  }

  // ----- Segments still to be sorted ---------------------------------------------------

  datatype Seg = Seg(l: int, r: int)

  ghost predicate InRange(segs: seq<Seg>, n: int) {
    forall k :: 0 <= k < |segs| ==> 1 <= segs[k].l <= segs[k].r + 1 <= n + 1
  }

  ghost predicate Inside(s: Seg, x: int) {
    s.l <= x <= s.r
  }

  ghost predicate Separate(segs: seq<Seg>) {
    forall k, m, x :: 0 <= k < |segs| && 0 <= m < |segs| && Inside(segs[k], x) && Inside(segs[m], x) ==> k == m
  }

  ghost predicate Together(segs: seq<Seg>, x: int, y: int) {
    exists k :: 0 <= k < |segs| && segs[k].l <= x && y <= segs[k].r
  }

  /** Two entries are in order unless one segment still holds both. */
  ghost predicate Pending(a: seq<nat>, n: int, segs: seq<Seg>)
    requires n < |a|
  {
    forall x, y :: 1 <= x < y <= n && !Together(segs, x, y) ==> a[x] >= a[y]
  }

  /** An entry outside the last segment is in order with everything inside it. */
  lemma PendingAcross(a: seq<nat>, n: int, segs: seq<Seg>, x: int, y: int)
    requires |segs| > 0 && n < |a| && InRange(segs, n) && Separate(segs) && Pending(a, n, segs) && 1 <= x < y <= n
    requires var s := segs[|segs| - 1]; (s.l <= x <= s.r) != (s.l <= y <= s.r)
    ensures a[x] >= a[y]
  {
    if Together(segs, x, y) {
      var k :| 0 <= k < |segs| && segs[k].l <= x && y <= segs[k].r;
      var s := segs[|segs| - 1];
      var z := if s.l <= x <= s.r then x else y;
      assert Inside(segs[k], z) && Inside(s, z);
    }
  }

  lemma PendingCapped(a: seq<nat>, n: int, segs: seq<Seg>)
    requires |segs| > 0 && n < |a| && InRange(segs, n) && Separate(segs) && Pending(a, n, segs)
    ensures Capped(a, segs[|segs| - 1].l, segs[|segs| - 1].r)
  {
    hide Pending, Separate;
    var s := segs[|segs| - 1];
    if s.l > 1 {
      forall y | s.l <= y <= s.r ensures a[s.l - 1] >= a[y] {
        PendingAcross(a, n, segs, s.l - 1, y);
      }
    }
  }

  /** Rearranging the last segment keeps the order across its border. */
  lemma RearrangedAcross(a: seq<nat>, b: seq<nat>, n: int, segs: seq<Seg>, x: int, y: int)
    requires |segs| > 0 && n < |a| && InRange(segs, n) && Separate(segs) && Pending(a, n, segs) && 1 <= x < y <= n
    requires Rearranged(a, b, segs[|segs| - 1].l, segs[|segs| - 1].r)
    requires var s := segs[|segs| - 1]; !(s.l <= x <= s.r && s.l <= y <= s.r) && !Together(segs[..|segs| - 1], x, y)
    ensures b[x] >= b[y]
  {
    hide Separate, Rearranged;
    var s := segs[|segs| - 1];
    if s.l <= x <= s.r {
      var x' := RearrangedFrom(a, b, s.l, s.r, x);
      PendingAcross(a, n, segs, x', y);
      RearrangedOutside(a, b, s.l, s.r, y);
    } else if s.l <= y <= s.r {
      var y' := RearrangedFrom(a, b, s.l, s.r, y);
      PendingAcross(a, n, segs, x, y');
      RearrangedOutside(a, b, s.l, s.r, x);
    } else {
      RearrangedOutside(a, b, s.l, s.r, x);
      RearrangedOutside(a, b, s.l, s.r, y);
      NotTogether(segs, x, y);
    }
  }

  lemma NotTogether(segs: seq<Seg>, x: int, y: int)
    requires |segs| > 0 && !Together(segs[..|segs| - 1], x, y) && x < y
    requires var s := segs[|segs| - 1]; !(s.l <= x <= s.r && s.l <= y <= s.r)
    ensures !Together(segs, x, y)
  {
    var front := segs[..|segs| - 1];
    assert forall k :: 0 <= k < |front| ==> front[k] == segs[k];
  }

  lemma RearrangedOutside(a: seq<nat>, b: seq<nat>, l: int, r: int, x: int)
    requires Rearranged(a, b, l, r) && 0 <= x < |a| && !(l <= x <= r)
    ensures a[x] == b[x]
  {
    if x < l { assert a[..l][x] == b[..l][x]; } else { assert a[r + 1..][x - r - 1] == b[r + 1..][x - r - 1]; }
  }

  lemma AfterSort(a: seq<nat>, b: seq<nat>, n: int, stack: seq<Seg>, s: Seg)
    requires n < |a| && InRange(stack + [s], n) && Separate(stack + [s]) && Pending(a, n, stack + [s])
    requires Rearranged(a, b, s.l, s.r) && SortedFrom(b, s.l, s.r)
    ensures Pending(b, n, stack) && InRange(stack, n) && Separate(stack)
  {
    var segs := stack + [s];
    assert segs[..|stack|] == stack;
    assert segs[|stack|] == s;
    assert forall k :: 0 <= k < |stack| ==> segs[k] == stack[k];
    forall k, m, x | 0 <= k < |stack| && 0 <= m < |stack| && Inside(stack[k], x) && Inside(stack[m], x) ensures k == m {
      assert Inside(segs[k], x) && Inside(segs[m], x);
    }
    forall x, y | 1 <= x < y <= n && !Together(stack, x, y) ensures b[x] >= b[y] {
      if !(s.l <= x && y <= s.r) { RearrangedAcross(a, b, n, segs, x, y); }
    }
  }

  lemma AfterCut(a: seq<nat>, b: seq<nat>, n: int, stack: seq<Seg>, s: Seg, i: int, j: int, p: nat, big: Seg,
                 small: Seg)
    requires n < |a| && InRange(stack + [s], n) && Separate(stack + [s]) && Pending(a, n, stack + [s])
    requires Rearranged(a, b, s.l, s.r) && Cut(b, s.l, s.r, i, j, p)
    requires (big == Seg(s.l, j - 1) && small == Seg(i, s.r)) || (small == Seg(s.l, j - 1) && big == Seg(i, s.r))
    ensures Pending(b, n, stack + [big] + [small])
  {
    var segs, segs' := stack + [s], stack + [big] + [small];
    assert segs[..|stack|] == stack;
    assert segs[|stack|] == s;
    forall x, y | 1 <= x < y <= n && !Together(segs', x, y) ensures b[x] >= b[y] {
      SubTogether(stack, big, small, x, y);
      if !(s.l <= x && y <= s.r) { RearrangedAcross(a, b, n, segs, x, y); }
    }
  }

  lemma SubTogether(stack: seq<Seg>, big: Seg, small: Seg, x: int, y: int)
    requires !Together(stack + [big] + [small], x, y)
    ensures !Together(stack, x, y) && !(big.l <= x && y <= big.r) && !(small.l <= x && y <= small.r)
  {
    var segs := stack + [big] + [small];
    assert forall k :: 0 <= k < |stack| ==> segs[k] == stack[k];
    assert segs[|stack|] == big && segs[|stack| + 1] == small;
  }

  lemma CutSeparate(n: int, stack: seq<Seg>, s: Seg, i: int, j: int, big: Seg, small: Seg)
    requires InRange(stack + [s], n) && Separate(stack + [s]) && s.l < j < i <= s.r
    requires (big == Seg(s.l, j - 1) && small == Seg(i, s.r)) || (small == Seg(s.l, j - 1) && big == Seg(i, s.r))
    ensures InRange(stack + [big] + [small], n) && Separate(stack + [big] + [small])
  {
    var segs, segs' := stack + [s], stack + [big] + [small];
    assert forall k :: 0 <= k < |stack| ==> segs[k] == stack[k] == segs'[k];
    assert segs[|stack|] == s;
    forall k, m, x | 0 <= k < |segs'| && 0 <= m < |segs'| && Inside(segs'[k], x) && Inside(segs'[m], x)
      ensures k == m
    {
      var k0, m0 := if k < |stack| then k else |stack|, if m < |stack| then m else |stack|;
      assert Inside(segs[k0], x) && Inside(segs[m0], x);
    }
  }

  // ----- The stack never overflows, and the work shrinks --------------------------------

  /** n halved k times. */
  function Halved(n: nat, k: nat): nat {
    if k == 0 then n else Halved(n, k - 1) / 2
  }

  lemma {:induction false} HalvedShrinks(n: nat, k: nat, m: nat)
    requires k <= m
    ensures Halved(n, m) <= Halved(n, k)
  {
    if k < m { HalvedShrinks(n, k, m - 1); }
  }

  /** An int cannot be halved 28 times and stay above SMALL. */
  lemma HalvedInt(n: nat, m: nat)
    requires n < 0x8000_0000 && Halved(n, m) > SMALL
    ensures m < 28
  {
    if m >= 28 {
      HalvedShrinks(n, 28, m);
      Halved4(n, 0); Halved4(n, 4); Halved4(n, 8); Halved4(n, 12); Halved4(n, 16); Halved4(n, 20); Halved4(n, 24);
    }
  }

  lemma Halved4(n: nat, k: nat)
    ensures Halved(n, k + 4) == Halved(n, k) / 16
  {
    assert Halved(n, k + 4) == Halved(n, k + 2) / 2 / 2;
  }

  function Len(s: Seg): int {
    s.r - s.l + 1
  }

  /** Each level of the stack holds at most half of what the level below may hold. */
  ghost predicate Halving(segs: seq<Seg>, n: int) {
    0 <= n && forall k :: 0 <= k < |segs| ==> Len(segs[k]) <= Halved(n, k)
  }

  ghost function Work(segs: seq<Seg>): int {
    if segs == [] then 0 else Work(segs[..|segs| - 1]) + 2 * Len(segs[|segs| - 1]) + 1
  }

  lemma {:induction false} WorkNonNegative(segs: seq<Seg>, n: int)
    requires InRange(segs, n)
    ensures Work(segs) >= |segs|
  {
    if segs != [] { WorkNonNegative(segs[..|segs| - 1], n); }
  }

  lemma WorkPush(stack: seq<Seg>, s: Seg, big: Seg, small: Seg)
    requires Len(big) + Len(small) < Len(s)
    ensures Work(stack + [big] + [small]) < Work(stack + [s])
  {
    assert (stack + [big] + [small])[..|stack| + 1] == stack + [big];
    assert (stack + [big])[..|stack|] == stack;
    assert (stack + [s])[..|stack|] == stack;
  }

  lemma WorkPop(stack: seq<Seg>, s: Seg)
    requires Len(s) >= 0
    ensures Work(stack) < Work(stack + [s])
  {
    assert (stack + [s])[..|stack|] == stack;
  }

  lemma HalvingPush(stack: seq<Seg>, s: Seg, big: Seg, small: Seg, n: int)
    requires Halving(stack + [s], n) && 0 <= Len(small) <= Len(big) && Len(big) + Len(small) < Len(s)
    ensures Halving(stack + [big] + [small], n)
    ensures Len(s) > SMALL && n < 0x8000_0000 ==> |stack| < 28
  {
    var segs, segs' := stack + [s], stack + [big] + [small];
    var m := |stack|;
    assert segs[m] == s;
    forall k | 0 <= k < |segs'| ensures Len(segs'[k]) <= Halved(n, k) {
      if k < m { assert segs[k] == segs'[k]; }
    }
    if Len(s) > SMALL && n < 0x8000_0000 { HalvedInt(n, m); }
  }

  lemma HalvingPop(stack: seq<Seg>, s: Seg, n: int)
    requires Halving(stack + [s], n)
    ensures Halving(stack, n)
  {
    assert forall k :: 0 <= k < |stack| ==> (stack + [s])[k] == stack[k];
  }

  /** What holds between two rounds; the last segment is the current one. */
  ghost predicate Sorting(was: seq<nat>, a: seq<nat>, n: int, segs: seq<Seg>) {
    && 0 <= n < |a| && InRange(segs, n) && Separate(segs) && Pending(a, n, segs) && Halving(segs, n)
    && Rearranged(was, a, 1, n)
  }

  lemma RearrangedWiden(a: seq<nat>, b: seq<nat>, l: int, r: int, n: int)
    requires Rearranged(a, b, l, r) && 1 <= l && r <= n < |a|
    ensures Rearranged(a, b, 1, n)
  {
    forall x | 0 <= x < |a| && !(l <= x <= r) ensures a[x] == b[x] { RearrangedOutside(a, b, l, r, x); }
    assert a[1..n + 1] == a[1..l] + a[l..r + 1] + a[r + 1..n + 1];
    assert b[1..n + 1] == b[1..l] + b[l..r + 1] + b[r + 1..n + 1];
    assert a[1..l] == b[1..l] && a[r + 1..n + 1] == b[r + 1..n + 1];
  }

  lemma SortingStart(a: seq<nat>, n: int)
    requires 0 <= n < |a|
    ensures Sorting(a, a, n, [Seg(1, n)])
  {
    forall x, y | 1 <= x < y <= n ensures Together([Seg(1, n)], x, y) {
      assert [Seg(1, n)][0].l <= x && y <= [Seg(1, n)][0].r;
    }
  }

  lemma SortingRearranged(was: seq<nat>, a: seq<nat>, b: seq<nat>, n: int, segs: seq<Seg>, s: Seg)
    requires Sorting(was, a, n, segs) && |segs| > 0 && segs[|segs| - 1] == s && Rearranged(a, b, s.l, s.r)
    ensures Rearranged(was, b, 1, n) && |a| == |b|
  {
    hide Pending, Separate, Halving;
    RearrangedWiden(a, b, s.l, s.r, n);
    RearrangedTrans(was, a, b, 1, n);
  }

  lemma LastInRange(stack: seq<Seg>, s: Seg, n: int)
    requires InRange(stack + [s], n)
    ensures 1 <= s.l <= s.r + 1 <= n + 1
  {
    assert (stack + [s])[|stack|] == s;
  }

  lemma SortingPop(was: seq<nat>, a: seq<nat>, b: seq<nat>, n: int, stack: seq<Seg>, s: Seg)
    requires Sorting(was, a, n, stack + [s]) && Rearranged(a, b, s.l, s.r) && SortedFrom(b, s.l, s.r)
    ensures Sorting(was, b, n, stack) && Work(stack) < Work(stack + [s])
  {
    hide Rearranged, Pending, Separate, Halving, InRange, SortedFrom, Work;
    SortingRearranged(was, a, b, n, stack + [s], s);
    AfterSort(a, b, n, stack, s);
    HalvingPop(stack, s, n);
    LastInRange(stack, s, n);
    WorkPop(stack, s);
  }

  lemma SortingPush(was: seq<nat>, a: seq<nat>, b: seq<nat>, n: int, stack: seq<Seg>, s: Seg, i: int, j: int, p: nat,
                    big: Seg, small: Seg)
    requires Sorting(was, a, n, stack + [s]) && Rearranged(a, b, s.l, s.r) && Cut(b, s.l, s.r, i, j, p)
    requires (big == Seg(s.l, j - 1) && small == Seg(i, s.r)) || (small == Seg(s.l, j - 1) && big == Seg(i, s.r))
    requires Len(small) <= Len(big) && Len(s) > SMALL && n < 0x8000_0000
    ensures Sorting(was, b, n, stack + [big] + [small]) && Work(stack + [big] + [small]) < Work(stack + [s])
    ensures |stack| < 28
  {
    hide Rearranged, Pending, Separate, Halving, InRange, Work;
    SortingRearranged(was, a, b, n, stack + [s], s);
    AfterCut(a, b, n, stack, s, i, j, p, big, small);
    CutSeparate(n, stack, s, i, j, big, small);
    HalvingPush(stack, s, big, small, n);
    WorkPush(stack, s, big, small);
  }

  /** The array istack up to jstack holds these segments. */
  ghost predicate StackHolds(st: seq<int>, segs: seq<Seg>) {
    && |st| == STACK && 2 * |segs| < STACK
    && (forall k :: 0 <= k < |segs| ==> st[2 * k + 1] == segs[k].l && st[2 * k + 2] == segs[k].r)
  }

  lemma SortedAtEnd(was: seq<nat>, a: seq<nat>, n: int)
    requires Sorting(was, a, n, [])
    ensures SortedFrom(a, 1, n) && Rearranged(was, a, 1, n)
  {
    forall x, y | 1 <= x < y <= n ensures a[x] >= a[y] {
      assert !Together([], x, y);
    }
  }

  lemma StackPush(st: seq<int>, stack: seq<Seg>, big: Seg)
    requires StackHolds(st, stack) && |stack| < 28
    ensures var m := 2 * |stack| + 2; StackHolds(st[m := big.r][m - 1 := big.l], stack + [big])
  {
  }

  /** Sort the list ids[1..ids[0]] into descending order. */
  method Sort(ids: array<nat>)
    requires 0 < ids.Length && ids[0] < ids.Length && ids[0] < 0x8000_0000
    modifies ids
    ensures ids[0] == old(ids[0]) && SortedFrom(ids[..], 1, ids[0])
    ensures Rearranged(old(ids[..]), ids[..], 1, ids[0])
  {
    hide Sorting, StackHolds, Rearranged, SortedFrom, Capped, Cut, Work;
    ghost var was := ids[..];
    var n := ids[0];
    var istack := new int[STACK](_ => 0);
    var l, ir, jstack := 1, n, 0;
    ghost var stack: seq<Seg> := [];
    SortingStart(was, n);
    assert stack + [Seg(l, ir)] == [Seg(1, n)];
    StackEmpty(istack[..]);
    while true
      invariant Sorting(was, ids[..], n, stack + [Seg(l, ir)]) && ids.Length == |was|
      invariant jstack == 2 * |stack| && StackHolds(istack[..], stack) && fresh(istack)
      decreases Work(stack + [Seg(l, ir)])
    {
      SortingFacts(was, ids[..], n, stack, Seg(l, ir));
      ghost var before := ids[..];
      if ir - l < SMALL {
        InsertionSort(ids, l, ir);
        SortingPop(was, before, ids[..], n, stack, Seg(l, ir));
        if jstack == 0 { break; }
        StackTop(istack[..], stack);
        ir, jstack := istack[jstack], jstack - 1;
        l, jstack := istack[jstack], jstack - 1;
        assert stack[..|stack| - 1] + [Seg(l, ir)] == stack;
        stack := stack[..|stack| - 1];
      } else {
        var i, j;
        ghost var p;
        i, j, p := Partition(ids, l, ir);
        var left, right := Seg(l, j - 1), Seg(i, ir);
        ghost var big, small := if ir - i + 1 >= j - l then right else left,
          if ir - i + 1 >= j - l then left else right;
        SortingPush(was, before, ids[..], n, stack, Seg(l, ir), i, j, p, big, small);
        StackPush(istack[..], stack, big);
        jstack := jstack + 2;
        if ir - i + 1 >= j - l {
          istack[jstack] := ir;
          istack[jstack - 1] := i;
          ir := j - 1;
        } else {
          istack[jstack] := j - 1;
          istack[jstack - 1] := l;
          l := i;
        }
        stack := stack + [big];
      }
    }
    SortedAtEnd(was, ids[..], n);
  }

  lemma StackEmpty(st: seq<int>)
    requires |st| == STACK
    ensures StackHolds(st, [])
  {
  }

  lemma StackTop(st: seq<int>, stack: seq<Seg>)
    requires StackHolds(st, stack) && |stack| > 0
    ensures |st| == STACK && 2 * |stack| < STACK
    ensures st[2 * |stack|] == stack[|stack| - 1].r && st[2 * |stack| - 1] == stack[|stack| - 1].l
    ensures StackHolds(st, stack[..|stack| - 1])
  {
  }

  lemma SortingFacts(was: seq<nat>, a: seq<nat>, n: int, stack: seq<Seg>, s: Seg)
    requires Sorting(was, a, n, stack + [s])
    ensures 1 <= s.l <= s.r + 1 <= n + 1 <= |a| == |was| && Capped(a, s.l, s.r) && a[0] == was[0]
    ensures Work(stack + [s]) >= 0
  {
    hide Pending, Separate, Halving;
    LastInRange(stack, s, n);
    PendingCapped(a, n, stack + [s]);
    WorkNonNegative(stack + [s], n);
    assert was[..1][0] == a[..1][0];
  }
}
