/**
 The page-number lists of mdb_page_alloc, mdb_ovpage_free and mdb_freelist_save.

 A list is an array whose element 0 is the length n and whose elements 1..n are page
 numbers in strictly descending order.  `Elems` is the list it stands for.
 */
module FreeList {
  import opened Common

  /** (pgno_t)-1, larger than every page number. */
  const SENTINEL: nat := 0xFFFF_FFFF_FFFF_FFFF

  ghost predicate Apart(s: seq<nat>, t: seq<nat>) {
    forall i, j :: 0 <= i < |s| && 0 <= j < |t| ==> s[i] != t[j]
  }

  ghost predicate Pages(s: seq<nat>) {
    forall i :: 0 <= i < |s| ==> s[i] < SENTINEL
  }

  ghost predicate IsList(a: array<nat>)
    reads a
  {
    0 < a.Length && a[0] < a.Length && Descending(a[1..a[0] + 1]) && Pages(a[1..a[0] + 1])
  }

  ghost function Elems(a: array<nat>): seq<nat>
    requires IsList(a)
    reads a
  {
    a[1..a[0] + 1]
  }

  /** The pages p+k-1, ..., p+1, p in list order. */
  ghost function Run(p: nat, k: nat): (r: seq<nat>)
    ensures |r| == k && forall i :: 0 <= i < k ==> r[i] == p + k - 1 - i
  {
    seq(k, i requires 0 <= i < k => p + k - 1 - i)
  }

  ghost predicate HasRun(s: seq<nat>, p: nat, k: nat) {
    forall q :: p <= q < p + k ==> q in s
  }

  // ----- Merging a free record -----------------------------------------------------

  ghost predicate Below(s: seq<nat>, t: seq<nat>) {
    forall i, j :: 0 <= i < |s| && 0 <= j < |t| ==> s[i] < t[j]
  }

  /** `tail` is the merge of everything from was[j..] and idl[i..], and it belongs last. */
  ghost predicate MergedTail(tail: seq<nat>, was: seq<nat>, idl: seq<nat>, i: nat, j: nat)
    requires i <= |idl| && j <= |was|
  {
    && Descending(tail)
    && Below(tail, was[..j]) && Below(tail, idl[..i])
    && multiset(tail) == multiset(was[j..]) + multiset(idl[i..])
  }

  lemma TailTakesOld(tail: seq<nat>, was: seq<nat>, idl: seq<nat>, i: nat, j: nat)
    requires i <= |idl| && 0 < j <= |was| && Descending(was) && Descending(idl)
    requires MergedTail(tail, was, idl, i, j) && 0 < i && was[j - 1] < idl[i - 1]
    ensures MergedTail([was[j - 1]] + tail, was, idl, i, j - 1)
  {
    assert was[j - 1..] == [was[j - 1]] + was[j..];
  }

  lemma TailTakesNew(tail: seq<nat>, was: seq<nat>, idl: seq<nat>, i: nat, j: nat)
    requires 0 < i <= |idl| && j <= |was| && Descending(was) && Descending(idl)
    requires MergedTail(tail, was, idl, i, j) && (0 < j ==> idl[i - 1] < was[j - 1])
    ensures MergedTail([idl[i - 1]] + tail, was, idl, i - 1, j)
  {
    assert idl[i - 1..] == [idl[i - 1]] + idl[i..];
    assert Below([idl[i - 1]] + tail, was[..j]);
  }

  /** The array during the merge: sentinel, untouched old entries, a gap, the merged tail. */
  ghost predicate Merging(a: seq<nat>, tail: seq<nat>, was: seq<nat>, k: nat, j: nat) {
    && k + |tail| < |a| && j <= |was| && j <= k
    && a[0] == SENTINEL && a[1..j + 1] == was[..j] && a[k + 1..k + 1 + |tail|] == tail
  }

  lemma MergePut(a: seq<nat>, tail: seq<nat>, was: seq<nat>, k: nat, j: nat, j': nat, x: nat)
    requires Merging(a, tail, was, k, j) && j' <= j && j' < k
    ensures Merging(a[k := x], [x] + tail, was, k - 1, j')
  {
    var b := a[k := x];
    assert b[1..j' + 1] == a[1..j + 1][..j'];
    assert b[k..k + 1 + |tail|] == [x] + a[k + 1..k + 1 + |tail|];
  }

  lemma MergeDone(a: seq<nat>, tail: seq<nat>, was: seq<nat>, idl: seq<nat>, j: nat)
    requires Merging(a, tail, was, j, j) && MergedTail(tail, was, idl, 0, j) && Descending(was) && j + |tail| < |a|
    requires Pages(was)
    requires Pages(idl)
    ensures var s := a[1..j + |tail| + 1];
            s == was[..j] + tail && Descending(s) && multiset(s) == multiset(was) + multiset(idl) && Pages(s)
  {
    var s := a[1..j + |tail| + 1];
    assert s == a[1..j + 1] + a[j + 1..j + 1 + |tail|];
    assert was == was[..j] + was[j..];
    assert idl[0..] == idl;
    BoundedUnion(s, was, idl);
  }

  lemma BoundedUnion(s: seq<nat>, a: seq<nat>, b: seq<nat>)
    requires multiset(s) == multiset(a) + multiset(b)
    requires Pages(a)
    requires Pages(b)
    ensures Pages(s)
  {
    forall i | 0 <= i < |s| ensures s[i] < SENTINEL {
      assert s[i] in multiset(a) + multiset(b);
    }
  }

  lemma PageAt(s: seq<nat>, i: nat)
    requires Pages(s) && i < |s|
    ensures s[i] < SENTINEL
  {
  }

  lemma MergingAt(a: seq<nat>, tail: seq<nat>, was: seq<nat>, k: nat, j: nat)
    requires Merging(a, tail, was, k, j)
    ensures j < |a| && j <= |was| && a[j] == if j == 0 then SENTINEL else was[j - 1]
  {
    if j > 0 { assert a[1..j + 1][j - 1] == was[..j][j - 1]; }
  }

  lemma MergeStart(was: seq<nat>, idl: seq<nat>)
    ensures MergedTail([], was, idl, |idl|, |was|)
  {
  }

  method Store(a: array<nat>, k: nat, x: nat)
    requires k < a.Length
    modifies a
    ensures a[..] == old(a[..])[k := x]
  {
    a[k] := x;
  }

  /** The two nested loops: take from the old list while it has the smaller entry, then the new one. */
  method MergeLoop(mop: array<nat>, idl: seq<nat>, len: nat, ghost was: seq<nat>) returns (ghost tail: seq<nat>, j: nat)
    requires Descending(was) && Descending(idl) && Apart(was, idl) && Pages(idl)
    requires len == |was| + |idl| < mop.Length && Merging(mop[..], [], was, len, |was|)
    modifies mop
    ensures j <= |was| && MergedTail(tail, was, idl, 0, j) && Merging(mop[..], tail, was, j, j) && j + |tail| == len
  {
    hide MergedTail, Merging, Descending, Pages;
    var i: nat := |idl|;
    var k: nat := len;
    MergeStart(was, idl);
    tail, j := [], len - |idl|;
    MergingAt(mop[..], tail, was, k, j);
    var oldId: nat := mop[j];
    while i > 0
      invariant i <= |idl| && j <= |was| && k == i + j && len == k + |tail| && oldId == mop[j]
      invariant Merging(mop[..], tail, was, k, j)
      invariant MergedTail(tail, was, idl, i, j)
    {
      var newId: nat := idl[i - 1];
      while oldId < newId
        invariant 0 < i <= |idl| && j <= |was| && k == i + j && len == k + |tail| && oldId == mop[j]
        invariant Merging(mop[..], tail, was, k, j)
        invariant MergedTail(tail, was, idl, i, j)
        decreases j
      {
        MergingAt(mop[..], tail, was, k, j);
        PageAt(idl, i - 1);
        MergePut(mop[..], tail, was, k, j, j - 1, oldId);
        TailTakesOld(tail, was, idl, i, j);
        Store(mop, k, oldId);
        tail := [oldId] + tail;
        k, j := k - 1, j - 1;
        oldId := mop[j];
      }
      MergingAt(mop[..], tail, was, k, j);
      MergePut(mop[..], tail, was, k, j, j, newId);
      TailTakesNew(tail, was, idl, i, j);
      Store(mop, k, newId);
      tail := [newId] + tail;
      k, i := k - 1, i - 1;
    }
  }

  /** mop := merge of mop and idl, working backward in place behind a sentinel in mop[0]. */
  method Merge(mop: array<nat>, idl: seq<nat>)
    requires IsList(mop) && Descending(idl) && Apart(Elems(mop), idl) && Pages(idl)
    requires mop[0] + |idl| < mop.Length
    modifies mop
    ensures IsList(mop)
    ensures multiset(Elems(mop)) == multiset(old(Elems(mop))) + multiset(idl)
  {
    hide MergedTail, Descending, Pages, Apart, Merging;
    ghost var was := Elems(mop);
    var len: nat := mop[0] + |idl|;
    mop[0] := SENTINEL;
    assert mop[..][1..|was| + 1] == was;
    MergingStart(mop[..], was, len);
    ghost var tail;
    var j;
    tail, j := MergeLoop(mop, idl, len, was);
    MergeDone(mop[..], tail, was, idl, j);
    ghost var merged: seq<nat>, before: seq<nat> := was[..j] + tail, mop[..];
    mop[0] := len;
    assert mop[..] == before[0 := len];
    ListOf(mop, before, merged);
  }

  lemma MergingStart(a: seq<nat>, was: seq<nat>, len: nat)
    requires |was| <= len < |a| && a[0] == SENTINEL && a[1..|was| + 1] == was
    ensures Merging(a, [], was, len, |was|)
  {
  }

  /** With its length set, an array is the list of the entries behind it. */
  lemma ListOf(mop: array<nat>, before: seq<nat>, merged: seq<nat>)
    requires |merged| < |before| && mop[..] == before[0 := |merged|] && before[1..|merged| + 1] == merged
    requires Descending(merged) && Pages(merged)
    ensures IsList(mop) && Elems(mop) == merged
  {
    hide Descending, Pages;
    assert mop[0] == mop[..][0] && mop[1..|merged| + 1] == before[1..|merged| + 1];
  }

  // ----- Searching a run of consecutive pages ------------------------------------------

  lemma {:induction false} Gap(s: seq<nat>, i: nat, j: nat)
    requires Descending(s) && i <= j < |s|
    ensures s[i] >= s[j] + (j - i)
    decreases j - i
  {
    if i < j {
      Gap(s, i + 1, j);
      assert s[i] > s[i + 1];
    }
  }

  /** In a descending list, two entries n apart in position and in value enclose a run. */
  lemma RunBetween(s: seq<nat>, i: nat, n: nat)
    requires Descending(s) && n <= i < |s| && s[i - n] == s[i] + n
    ensures s[i - n..i + 1] == Run(s[i], n + 1)
  {
    var t := s[i - n..i + 1];
    forall k | 0 <= k < |t| ensures t[k] == s[i] + n - k {
      Gap(s, i - n, i - n + k);
      Gap(s, i - n + k, i);
    }
  }

  lemma {:induction false} RunPosition(s: seq<nat>, p: nat, k: nat, i: nat)
    requires Descending(s) && 1 <= k && HasRun(s, p, k) && i < |s| && s[i] == p
    ensures k - 1 <= i && s[i - (k - 1)] == p + k - 1
    decreases k
  {
    if k > 1 {
      assert HasRun(s, p, k - 1);
      RunPosition(s, p, k - 1, i);
      assert p + k - 1 in s;
      var m :| 0 <= m < |s| && s[m] == p + k - 1;
    }
  }

  /** Scan from the tail; 0 means no run of num pages exists, otherwise entries i-num+1..i are the lowest one. */
  method FindRun(mop: array<nat>, num: nat) returns (i: nat)
    requires IsList(mop) && 1 <= num
    ensures i <= mop[0] && SearchResult(Elems(mop), num, i)
  {
    hide Descending, Pages, HasRun, RunsIn;
    ghost var s := Elems(mop);
    var n2 := num - 1;
    i := mop[0];
    AllRunsIn(s, num);
    while i > n2
      invariant i <= mop[0] && RunsIn(s, num, i)
    {
      assert mop[i] == s[i - 1] && mop[i - n2] == s[i - 1 - n2];
      if mop[i - n2] == mop[i] + n2 {
        RunBetween(s, i - 1, n2);
        LowestRun(s, num, i);
        return;
      }
      NoRunAt(s, num, i);
      i := i - 1;
    }
    NoRunLeft(s, num, i);
    i := 0;
  }

  /** Every run begins among the first i entries. */
  ghost predicate RunsIn(s: seq<nat>, num: nat, i: nat)
    requires i <= |s|
  {
    forall p: nat :: HasRun(s, p, num) ==> p in s[..i]
  }

  lemma AllRunsIn(s: seq<nat>, num: nat)
    requires 1 <= num
    ensures RunsIn(s, num, |s|)
  {
    assert s[..|s|] == s;
  }

  lemma LowestRun(s: seq<nat>, num: nat, i: nat)
    requires Descending(s) && 0 < i <= |s| && RunsIn(s, num, i)
    ensures forall p: nat :: HasRun(s, p, num) ==> s[i - 1] <= p
  {
    hide HasRun;
    forall p: nat | HasRun(s, p, num) ensures s[i - 1] <= p {
      var m :| 0 <= m < |s[..i]| && s[..i][m] == p;
      assert m < i - 1 ==> s[m] > s[i - 1];
    }
  }

  lemma NoRunAt(s: seq<nat>, num: nat, i: nat)
    requires Descending(s) && 1 <= num <= i <= |s| && RunsIn(s, num, i) && s[i - num] != s[i - 1] + num - 1
    ensures RunsIn(s, num, i - 1)
  {
    hide HasRun, Descending;
    forall p: nat | HasRun(s, p, num) ensures p in s[..i - 1] {
      var m :| 0 <= m < |s[..i]| && s[..i][m] == p;
      if m == i - 1 { RunPosition(s, p, num, m); }
      assert p == s[..i - 1][m];
    }
  }

  lemma NoRunLeft(s: seq<nat>, num: nat, i: nat)
    requires Descending(s) && 1 <= num && i < num && i <= |s| && RunsIn(s, num, i)
    ensures forall p: nat :: !HasRun(s, p, num)
  {
    hide HasRun, Descending;
    forall p: nat ensures !HasRun(s, p, num) {
      if HasRun(s, p, num) {
        var m :| 0 <= m < |s[..i]| && s[..i][m] == p;
        RunPosition(s, p, num, m);
      }
    }
  }

  /** Close the gap left by entries i-num+1..i. */
  method RemoveRun(mop: array<nat>, i0: nat, num: nat)
    requires IsList(mop) && num <= i0 <= mop[0]
    modifies mop
    ensures IsList(mop)
    ensures Elems(mop) == old(Elems(mop))[..i0 - num] + old(Elems(mop))[i0..]
  {
    hide Descending, Pages, Shifted;
    ghost var s: seq<nat> := Elems(mop);
    mop[0] := mop[0] - num;
    MoveDown(mop, i0, num, s);
    RunRemoved(mop, s, i0 - num, num);
  }

  method MoveDown(mop: array<nat>, i0: nat, num: nat, ghost s: seq<nat>)
    requires num <= i0 <= |s| < mop.Length && mop[0] == |s| - num && mop[1..|s| + 1] == s
    modifies mop
    ensures mop[0] == |s| - num && Shifted(mop[..], s, i0 - num, num, |s| - num)
  {
    hide Shifted;
    var len, i, j := mop[0], i0, i0 - num;
    assert mop[..][1..|s| + 1] == mop[1..|s| + 1];
    ShiftBegins(mop[..], s, i0 - num, num);
    while j < len
      invariant i == j + num && i0 - num <= j <= len && mop[0] == len && Shifted(mop[..], s, i0 - num, num, j)
    {
      ShiftOne(mop[..], s, i0 - num, num, j);
      j, i := j + 1, i + 1;
      ghost var was := mop[..];
      mop[j] := mop[i];
      assert mop[..] == was[j := was[i]];
    }
  }

  lemma RunRemoved(mop: array<nat>, s: seq<nat>, cut: nat, num: nat)
    requires cut + num <= |s| < mop.Length && mop[0] == |s| - num && Shifted(mop[..], s, cut, num, |s| - num)
    requires Descending(s) && Pages(s)
    ensures IsList(mop) && Elems(mop) == s[..cut] + s[cut + num..]
  {
    hide Descending, Pages, Shifted;
    ShiftEnds(mop[..], s, cut, num);
    assert mop[1..mop[0] + 1] == mop[..][1..|s| - num + 1];
    CutDescending(s, cut, cut + num);
  }

  /** Entries after the cut are moved down by num places up to place j; the rest is as it was. */
  ghost predicate Shifted(a: seq<nat>, s: seq<nat>, cut: nat, num: nat, j: nat) {
    && cut <= j && cut + num <= |s| < |a|
    && (forall k :: 1 <= k <= j && k < |a| && k - 1 + num < |s| ==>
      a[k] == if k <= cut then s[k - 1] else s[k - 1 + num])
    && (forall k :: j + num < k <= |s| ==> a[k] == s[k - 1])
  }

  lemma ShiftBegins(a: seq<nat>, s: seq<nat>, cut: nat, num: nat)
    requires |s| < |a| && a[1..|s| + 1] == s && cut + num <= |s|
    ensures Shifted(a, s, cut, num, cut)
  {
    assert forall k :: 1 <= k <= |s| ==> a[k] == a[1..|s| + 1][k - 1];
  }

  lemma ShiftOne(a: seq<nat>, s: seq<nat>, cut: nat, num: nat, j: nat)
    requires Shifted(a, s, cut, num, j) && j + num < |s|
    ensures Shifted(a[j + 1 := a[j + 1 + num]], s, cut, num, j + 1)
  {
  }

  lemma ShiftEnds(a: seq<nat>, s: seq<nat>, cut: nat, num: nat)
    requires num <= |s| && Shifted(a, s, cut, num, |s| - num)
    ensures a[1..|s| - num + 1] == s[..cut] + s[cut + num..]
  {
    var t := s[..cut] + s[cut + num..];
    assert |t| == |s| - num;
    forall k | 0 <= k < |t| ensures a[1..|s| - num + 1][k] == t[k] {
      assert a[k + 1] == if k + 1 <= cut then s[k] else s[k + num];
    }
  }

  lemma CutDescending(s: seq<nat>, i: nat, j: nat)
    requires Descending(s) && Pages(s) && i <= j <= |s|
    ensures Descending(s[..i] + s[j..]) && Pages(s[..i] + s[j..])
    ensures multiset(s) == multiset(s[..i] + s[j..]) + multiset(s[i..j])
  {
    assert s == s[..i] + s[i..j] + s[j..];
  }

  // ----- Giving an overflow run back (mdb_ovpage_free) -----------------------------------

  lemma DescendingConcat(s: seq<nat>, t: seq<nat>)
    requires Descending(s) && Descending(t) && Below(t, s)
    ensures Descending(s + t)
  {
  }

  lemma RunIndex(pg: nat, num: nat, x: nat) returns (k: nat)
    requires pg <= x < pg + num
    ensures k < num && Run(pg, num)[k] == x
  {
    k := pg + num - 1 - x;
  }

  lemma AboveRun(s: seq<nat>, i: nat, pg: nat, num: nat)
    requires Descending(s) && 0 < i <= |s| && Apart(s, Run(pg, num)) && pg <= s[i - 1]
    ensures Below(Run(pg, num), s[..i])
  {
    var r := Run(pg, num);
    forall k, m | 0 <= k < |r| && 0 <= m < |s[..i]| ensures r[k] < s[..i][m] {
      Gap(s, m, i - 1);
      if s[m] < pg + num { var x := RunIndex(pg, num, s[m]); }
    }
  }

  lemma SpliceDescending(s: seq<nat>, i: nat, pg: nat, num: nat)
    requires Descending(s) && i <= |s| && Apart(s, Run(pg, num))
    requires (forall k :: i <= k < |s| ==> s[k] < pg) && (0 < i ==> pg <= s[i - 1])
    ensures Descending(s[..i] + (Run(pg, num) + s[i..]))
  {
    hide Run, Apart;
    var r := Run(pg, num);
    if 0 < i { AboveRun(s, i, pg, num); }
    DescendingConcat(r, s[i..]);
    DescendingConcat(s[..i], r + s[i..]);
  }

  lemma SplicePages(s: seq<nat>, i: nat, r: seq<nat>)
    requires i <= |s| && Pages(s) && Pages(r)
    ensures var t := s[..i] + (r + s[i..]); Pages(t) && multiset(t) == multiset(s) + multiset(r)
  {
    assert s == s[..i] + s[i..];
  }

  lemma Assemble(b: seq<nat>, s: seq<nat>, r: seq<nat>, i: nat)
    requires i <= |s| && |s| + |r| < |b|
    requires forall k :: 1 <= k <= i ==> b[k] == s[k - 1]
    requires forall k :: i < k <= i + |r| ==> b[k] == r[k - 1 - i]
    requires forall k :: i + |r| < k <= |s| + |r| ==> b[k] == s[k - 1 - |r|]
    ensures b[1..|s| + |r| + 1] == s[..i] + (r + s[i..])
  {
  }

  /** Move the entries smaller than pg up by num places; returns how many stay. */
  method ShiftUp(mop: array<nat>, pg: nat, num: nat) returns (i: nat)
    requires IsList(mop) && mop[0] + num < mop.Length
    modifies mop
    ensures mop[0] == old(mop[0]) && i <= mop[0]
    ensures forall k :: 1 <= k <= i ==> mop[k] == old(Elems(mop))[k - 1]
    ensures forall k :: i + num < k <= mop[0] + num ==> mop[k] == old(Elems(mop))[k - 1 - num]
    ensures (forall k :: i <= k < |old(Elems(mop))| ==> old(Elems(mop))[k] < pg)
    ensures 0 < i ==> pg <= old(Elems(mop))[i - 1]
  {
    hide Descending, Pages;
    ghost var s: seq<nat> := Elems(mop);
    var len: nat := mop[0];
    var j: nat := len + num;
    i := len;
    while i > 0 && mop[i] < pg
      invariant i <= len == |s| && j == i + num && len + num < mop.Length && mop[0] == len
      invariant forall k :: 1 <= k <= i ==> mop[k] == s[k - 1]
      invariant forall k :: j < k <= len + num ==> mop[k] == s[k - 1 - num]
      invariant forall k :: i <= k < len ==> s[k] < pg
    {
      mop[j] := mop[i];
      j, i := j - 1, i - 1;
    }
  }

  /** Fill places i+1..i+num with the run, writing backward while the page number goes up. */
  method WriteRun(mop: array<nat>, i: nat, pg0: nat, num: nat)
    requires i + num < mop.Length
    modifies mop
    ensures forall k :: 0 <= k <= i || i + num < k < mop.Length ==> mop[k] == old(mop[k])
    ensures forall k :: i < k <= i + num ==> mop[k] == Run(pg0, num)[k - 1 - i]
  {
    ghost var r := Run(pg0, num);
    var j: nat, pg := i + num, pg0;
    while j > i
      invariant i <= j <= i + num && pg == pg0 + (i + num - j)
      invariant forall k :: 0 <= k <= i || i + num < k < mop.Length ==> mop[k] == old(mop[k])
      invariant forall k :: j < k <= i + num ==> mop[k] == r[k - i - 1]
    {
      mop[j] := pg;
      j, pg := j - 1, pg + 1;
    }
  }

  method InsertRun(mop: array<nat>, pg: nat, num: nat) returns (ghost i: nat)
    requires IsList(mop) && mop[0] + num < mop.Length
    modifies mop
    ensures mop[0] == old(mop[0]) && i <= mop[0]
    ensures mop[1..mop[0] + num + 1] == old(Elems(mop))[..i] + (Run(pg, num) + old(Elems(mop))[i..])
    ensures (forall k :: i <= k < |old(Elems(mop))| ==> old(Elems(mop))[k] < pg)
    ensures 0 < i ==> pg <= old(Elems(mop))[i - 1]
  {
    hide Descending, Pages, Run;
    ghost var s: seq<nat> := Elems(mop);
    var k := ShiftUp(mop, pg, num);
    i := k;
    WriteRun(mop, k, pg, num);
    Assemble(mop[..], s, Run(pg, num), i);
    assert mop[1..|s| + num + 1] == mop[..][1..|s| + num + 1];
  }

  /** Return a run of dirty overflow pages to the list. */
  method GiveBack(mop: array<nat>, pg: nat, num: nat)
    requires IsList(mop) && mop[0] + num < mop.Length && Apart(Elems(mop), Run(pg, num)) && pg + num <= SENTINEL
    modifies mop
    ensures IsList(mop)
    ensures multiset(Elems(mop)) == multiset(old(Elems(mop))) + multiset(Run(pg, num))
  {
    hide Descending, Apart, Run;
    ghost var s: seq<nat> := Elems(mop);
    ghost var i := InsertRun(mop, pg, num);
    SpliceDescending(s, i, pg, num);
    SplicePages(s, i, Run(pg, num));
    mop[0] := mop[0] + num;
    assert mop[1..mop[0] + 1] == s[..i] + (Run(pg, num) + s[i..]);
  }

  // ----- mdb_find_oldest and mdb_page_alloc ------------------------------------------------

  /** A slot of the reader table; a slot with pid 0 is unused. */
  datatype Reader = Reader(pid: nat, txnid: nat)

  method FindOldest(txnid: nat, readers: array<Reader>) returns (oldest: nat)
    requires 0 < txnid
    ensures oldest <= txnid - 1
    ensures forall r :: r in readers[..] && r.pid != 0 ==> oldest <= r.txnid
    ensures oldest == txnid - 1 || exists r :: r in readers[..] && r.pid != 0 && oldest == r.txnid
  {
    oldest := txnid - 1;
    var i := readers.Length;
    while i > 0
      invariant 0 <= i <= readers.Length && oldest <= txnid - 1
      invariant forall k :: i <= k < readers.Length && readers[k].pid != 0 ==> oldest <= readers[k].txnid
      invariant oldest == txnid - 1 ||
        exists k :: i <= k < readers.Length && readers[k].pid != 0 && oldest == readers[k].txnid
    {
      i := i - 1;
      if readers[i].pid != 0 && oldest > readers[i].txnid {
        oldest := readers[i].txnid;
      }
    }
    if oldest != txnid - 1 {
      var k :| 0 <= k < readers.Length && readers[k].pid != 0 && oldest == readers[k].txnid;
      assert readers[k] in readers[..];
    }
  }

  /** A free-DB record: the transaction that freed the pages and the pages, descending. */
  datatype Rec = Rec(id: nat, pages: seq<nat>)

  ghost function RecPages(recs: seq<Rec>): multiset<nat> {
    if recs == [] then multiset{} else RecPages(recs[..|recs| - 1]) + multiset(recs[|recs| - 1].pages)
  }

  /** The free DB as a cursor reads it: ascending ids, descending pages, no page twice. */
  ghost predicate FreeDb(recs: seq<Rec>) {
    && (forall i :: 0 <= i < |recs| ==> 0 < recs[i].id && Descending(recs[i].pages) && Pages(recs[i].pages))
    && (forall i, j :: 0 <= i < j < |recs| ==> recs[i].id < recs[j].id && Apart(recs[i].pages, recs[j].pages))
  }

  /** Pages of `s` are in none of the records from `pos` on. */
  ghost predicate ApartFrom(s: seq<nat>, recs: seq<Rec>, pos: nat) {
    forall i :: pos <= i < |recs| ==> Apart(s, recs[i].pages)
  }

  ghost predicate RunIn(pages: multiset<nat>, p: nat, num: nat) {
    forall q :: p <= q < p + num ==> q in pages
  }

  /** mdb_midl_need: the list, in an array with room for `extra` more entries. */
  method Need(mop: array<nat>, extra: nat) returns (r: array<nat>)
    requires IsList(mop)
    ensures IsList(r) && Elems(r) == Elems(mop) && r[0] + extra < r.Length
    ensures r == mop || fresh(r)
  {
    hide Descending, Pages;
    ghost var s := Elems(mop);
    var num := mop[0] + extra;
    if num > mop.Length - 1 {
      var room := (num + num / 4 + (256 + 2)) / 256 * 256;
      r := new nat[room - 1];
      forall i | 0 <= i < mop.Length { r[i] := mop[i]; }
      assert mop[1..mop[0] + 1] == s;
      assert r[1..r[0] + 1] == s;
    } else {
      r := mop;
    }
  }

  lemma RunInRun(p: nat, num: nat)
    ensures RunIn(multiset(Run(p, num)), p, num)
  {
    forall q | p <= q < p + num ensures q in multiset(Run(p, num)) {
      assert Run(p, num)[p + num - 1 - q] == q;
    }
  }

  lemma TakeRun(s: seq<nat>, i: nat, num: nat)
    requires num <= i <= |s| && 0 < i && s[i - num..i] == Run(s[i - 1], num)
    requires forall p: nat :: HasRun(s, p, num) ==> s[i - 1] <= p
    ensures multiset(s) == multiset(s[..i - num] + s[i..]) + multiset(Run(s[i - 1], num))
    ensures RunIn(multiset(s), s[i - 1], num)
    ensures forall p: nat :: RunIn(multiset(s), p, num) ==> s[i - 1] <= p
  {
    RunInRun(s[i - 1], num);
    assert s == s[..i - num] + s[i - num..i] + s[i..];
    forall p: nat | RunIn(multiset(s), p, num) ensures HasRun(s, p, num) {
      forall q | p <= q < p + num ensures q in s { assert q in multiset(s); }
    }
  }

  lemma FoundRun(s: seq<nat>, num: nat, i: nat)
    requires 0 < i <= |s| && SearchResult(s, num, i)
    ensures num <= i && s[i - num..i] == Run(s[i - 1], num) && forall p: nat :: HasRun(s, p, num) ==> s[i - 1] <= p
  {
  }

  lemma ListLength(a: array<nat>)
    requires IsList(a)
    ensures a.Length > 0 && |Elems(a)| == a[0]
  {
  }

  lemma NothingFound(s: seq<nat>, num: nat)
    requires SearchResult(s, num, 0)
    ensures forall p: nat :: !RunIn(multiset(s), p, num)
  {
    forall p: nat | RunIn(multiset(s), p, num) ensures HasRun(s, p, num) {
      forall q | p <= q < p + num ensures q in s { assert q in multiset(s); }
    }
  }

  /** The environment fields of page allocation. */
  class PageSource {
    var head: array<nat>    // me_pghead, empty while it is NULL
    var pglast: nat         // me_pglast
    var next: nat           // mt_next_pgno
    var dirtyRoom: nat      // mt_dirty_room
    const maxpg: nat
    const recs: seq<Rec>    // the free DB of the transaction's snapshot

    constructor (recs: seq<Rec>, next: nat, maxpg: nat, dirtyRoom: nat)
      requires FreeDb(recs)
      ensures Valid() && Loose() == [] && pglast == 0 && this.next == next && this.maxpg == maxpg && this.recs == recs
      ensures this.dirtyRoom == dirtyRoom && fresh(head)
    {
      this.recs, this.next, this.maxpg, this.dirtyRoom, pglast := recs, next, maxpg, dirtyRoom, 0;
      head := new nat[1] [0];
      new;
      assert head[1..1] == [];
    }

    ghost predicate Valid()
      reads this, head
    {
      IsList(head) && FreeDb(recs) && ApartFrom(Elems(head), recs, After(recs, pglast))
    }

    ghost function Loose(): seq<nat>
      requires IsList(head)
      reads this, head
    {
      Elems(head)
    }

    /** Merge record n, the next one, into the list. */
    method Fetch(n: nat)
      requires Valid() && n == After(recs, pglast) && n < |recs|
      modifies this`head, this`pglast, head
      ensures Valid() && (head == old(head) || fresh(head))
      ensures pglast == recs[n].id && After(recs, pglast) == n + 1
      ensures multiset(Loose()) == multiset(old(Loose())) + multiset(recs[n].pages)
    {
      hide Descending, Pages, Apart;
      ghost var s := Elems(head);
      FetchApart(s, recs, n);
      var idl := recs[n].pages;
      head := Need(head, |idl|);
      pglast := recs[n].id;
      Merge(head, idl);
      AfterNext(recs, n);
      MergedApart(Elems(head), s, recs, n);
    }

    /** Merge eligible records one by one, but only while no run of num pages is found. */
    method Search(num: nat, oldest: nat) returns (i: nat, ghost upto: nat)
      requires Valid() && 1 <= num
      modifies this`head, this`pglast, head
      ensures Valid() && (head == old(head) || fresh(head)) && After(recs, pglast) == upto
      ensures Fetched(recs, After(recs, old(pglast)), upto, oldest, multiset(old(Loose())), multiset(Loose()))
      ensures pglast == LastFetched(recs, old(pglast), upto)
      ensures NeededAll(recs, After(recs, old(pglast)), upto, multiset(old(Loose())), num)
      ensures i <= |Loose()| == head[0] && SearchResult(Loose(), num, i)
      ensures i == 0 && upto < |recs| ==> oldest <= recs[upto].id
    {
      hide IsList, Elems, FreeDb, ApartFrom, SearchResult, Gathered, RunIn;
      ghost var was, pg, lo := multiset(Loose()), pglast, After(recs, pglast);
      upto := lo;
      GatheredNone(recs, lo, pg, oldest, was, num);
      while true
        invariant Valid() && (head == old(head) || fresh(head)) && upto == After(recs, pglast)
        invariant Gathered(recs, lo, upto, pg, pglast, oldest, was, multiset(Loose()), num)
        decreases |recs| - upto
      {
        i := FindRun(head, num);
        ListLength(head);
        var n := After(recs, pglast);
        if i > 0 || n == |recs| || oldest <= recs[n].id {
          GatheredAll(recs, lo, upto, pg, pglast, oldest, was, multiset(Loose()), num);
          return;
        }
        NothingFound(Loose(), num);
        GatheredOne(recs, lo, n, pg, pglast, oldest, was, multiset(Loose()), num);
        Fetch(n);
        upto := n + 1;
      }
    }

    /** Take the run that a search found off the list. */
    method Pop(i: nat, num: nat) returns (p: nat)
      requires Valid() && 1 <= num && 0 < i <= head[0] && SearchResult(Loose(), num, i)
      modifies head
      ensures Valid() && RunIn(multiset(old(Loose())), p, num)
      ensures multiset(old(Loose())) == multiset(Loose()) + multiset(Run(p, num))
      ensures forall q: nat :: RunIn(multiset(old(Loose())), q, num) ==> p <= q
    {
      hide Descending, Pages, Apart, FreeDb, SearchResult, RunIn, Run, ApartFrom;
      ghost var s := Elems(head);
      FoundRun(s, num, i);
      TakeRun(s, i, num);
      p := head[i];
      RemoveRun(head, i, num);
      CutApart(s, i - num, i, recs, After(recs, pglast));
    }

    /** mdb_page_alloc: `num` consecutive pages, or None (TXN_FULL or MAP_FULL).  Records are fetched only
        as long as what is there holds no run; the pages are the lowest run of what was fetched, or new ones
        when list and eligible records hold none. */
    method Alloc(num: nat, oldest: nat) returns (r: Option<nat>, ghost upto: nat, ghost avail: multiset<nat>)
      requires Valid() && 1 <= num
      modifies this`head, this`pglast, this`next, this`dirtyRoom, head
      ensures Valid() && (head == old(head) || fresh(head)) && After(recs, pglast) == upto
      ensures Fetched(recs, After(recs, old(pglast)), upto, oldest, multiset(old(Loose())), avail)
      ensures pglast == LastFetched(recs, old(pglast), upto)
      ensures NeededAll(recs, After(recs, old(pglast)), upto, multiset(old(Loose())), num)
      ensures r.Some? <==> AllocSucceeds(num, avail, old(next), maxpg, old(dirtyRoom))
      ensures AllocResult(r, num, avail, multiset(Loose()), old(next), next)
      ensures dirtyRoom == old(dirtyRoom) - (if r.Some? then 1 else 0) && Once(avail)
      ensures (next != old(next) || (r.None? && 0 < dirtyRoom)) && upto < |recs| ==> oldest <= recs[upto].id
    {
      hide IsList, FreeDb, SearchResult, RunIn, Run, Fetched, RecPages, ApartFrom, NeededAll;
      if dirtyRoom == 0 {
        NeededNone(recs, After(recs, pglast), multiset(Loose()), num);
        upto, avail := After(recs, pglast), multiset(Loose());
        ListOnce(head);
        FetchedNone(recs, upto, oldest, avail);
        return None, upto, avail;
      }
      var i;
      i, upto := Search(num, oldest);
      avail := multiset(Loose());
      ListOnce(head);
      if i > 0 {
        var p := Pop(i, num);
        r := Some(p);
      } else {
        NothingFound(Loose(), num);
        if next + num >= maxpg { return None, upto, avail; }
        r := Some(next);
        next := next + num;
      }
      dirtyRoom := dirtyRoom - 1;
    }
  }

  ghost predicate Once(m: multiset<nat>) {
    forall x :: m[x] <= 1
  }

  lemma ListOnce(a: array<nat>)
    requires IsList(a)
    ensures Once(multiset(Elems(a)))
  {
    DescendingOnce(Elems(a));
  }

  lemma {:induction false} DescendingOnce(s: seq<nat>)
    requires Descending(s)
    ensures Once(multiset(s))
  {
    if s != [] {
      var n := |s| - 1;
      DescendingOnce(s[..n]);
      assert s == s[..n] + [s[n]];
      assert s[n] !in s[..n];
    }
  }

  /** Records lo..upto-1, all older than `oldest`, turned `was` into `now`. */
  ghost predicate Fetched(recs: seq<Rec>, lo: nat, upto: nat, oldest: nat, was: multiset<nat>, now: multiset<nat>) {
    && lo <= upto <= |recs|
    && (forall k :: lo <= k < upto ==> recs[k].id < oldest)
    && now == was + RecPages(recs[lo..upto])
  }

  /** me_pglast after the records before upto: the last of them, if there was one to fetch. */
  function LastFetched(recs: seq<Rec>, pglast: nat, upto: nat): nat {
    if upto <= After(recs, pglast) || upto > |recs| then pglast else recs[upto - 1].id
  }

  /** Before each record was fetched, what was there held no run. */
  ghost predicate NeededAll(recs: seq<Rec>, lo: nat, upto: nat, was: multiset<nat>, num: nat) {
    lo <= upto <= |recs| && forall k, p: nat :: lo <= k < upto ==> !RunIn(was + RecPages(recs[lo..k]), p, num)
  }

  lemma NeededNone(recs: seq<Rec>, lo: nat, was: multiset<nat>, num: nat)
    requires lo <= |recs|
    ensures NeededAll(recs, lo, lo, was, num)
  {
  }

  lemma NeededOne(recs: seq<Rec>, lo: nat, n: nat, oldest: nat, was: multiset<nat>, now: multiset<nat>, num: nat)
    requires Fetched(recs, lo, n, oldest, was, now) && n < |recs| && NeededAll(recs, lo, n, was, num)
    requires forall p: nat :: !RunIn(now, p, num)
    ensures NeededAll(recs, lo, n + 1, was, num)
  {
    hide RunIn;
  }

  /** The records from lo, the first above me_pglast pg, have been fetched up to upto, none without need. */
  ghost predicate Gathered(recs: seq<Rec>, lo: nat, upto: nat, pg: nat, pglast: nat, oldest: nat, was: multiset<nat>,
                           now: multiset<nat>, num: nat) {
    && Fetched(recs, lo, upto, oldest, was, now) && NeededAll(recs, lo, upto, was, num)
    && pglast == if upto == lo then pg else recs[upto - 1].id
  }

  lemma GatheredNone(recs: seq<Rec>, lo: nat, pg: nat, oldest: nat, was: multiset<nat>, num: nat)
    requires lo <= |recs|
    ensures Gathered(recs, lo, lo, pg, pg, oldest, was, was, num)
  {
    FetchedNone(recs, lo, oldest, was);
    NeededNone(recs, lo, was, num);
  }

  lemma GatheredOne(recs: seq<Rec>, lo: nat, n: nat, pg: nat, pglast: nat, oldest: nat, was: multiset<nat>,
                    now: multiset<nat>, num: nat)
    requires Gathered(recs, lo, n, pg, pglast, oldest, was, now, num) && forall p: nat :: !RunIn(now, p, num)
    requires n < |recs| && recs[n].id < oldest
    ensures Gathered(recs, lo, n + 1, pg, recs[n].id, oldest, was, now + multiset(recs[n].pages), num)
  {
    hide Fetched, NeededAll, RunIn;
    FetchedWithin(recs, lo, n, oldest, was, now);
    FetchedOne(recs, lo, n, oldest, was, now);
    NeededOne(recs, lo, n, oldest, was, now, num);
  }

  lemma FetchedWithin(recs: seq<Rec>, lo: nat, upto: nat, oldest: nat, was: multiset<nat>, now: multiset<nat>)
    requires Fetched(recs, lo, upto, oldest, was, now)
    ensures lo <= upto <= |recs|
  {
  }

  lemma GatheredAll(recs: seq<Rec>, lo: nat, upto: nat, pg: nat, pglast: nat, oldest: nat, was: multiset<nat>,
                    now: multiset<nat>, num: nat)
    requires lo == After(recs, pg) && Gathered(recs, lo, upto, pg, pglast, oldest, was, now, num)
    ensures Fetched(recs, lo, upto, oldest, was, now) && NeededAll(recs, lo, upto, was, num)
    ensures pglast == LastFetched(recs, pg, upto)
  {
  }

  lemma FetchedNone(recs: seq<Rec>, lo: nat, oldest: nat, was: multiset<nat>)
    requires lo <= |recs|
    ensures Fetched(recs, lo, lo, oldest, was, was)
  {
    assert recs[lo..lo] == [];
  }

  lemma FetchedOne(recs: seq<Rec>, lo: nat, n: nat, oldest: nat, was: multiset<nat>, now: multiset<nat>)
    requires Fetched(recs, lo, n, oldest, was, now) && n < |recs| && recs[n].id < oldest
    ensures Fetched(recs, lo, n + 1, oldest, was, now + multiset(recs[n].pages))
  {
    assert recs[lo..n + 1][..n - lo] == recs[lo..n];
  }

  /** 0: no run of num entries; otherwise the run ending at entry i is the lowest. */
  ghost predicate SearchResult(s: seq<nat>, num: nat, i: nat)
    requires i <= |s|
  {
    if i == 0 then forall p: nat :: !HasRun(s, p, num)
    else num <= i && s[i - num..i] == Run(s[i - 1], num) && forall p: nat :: HasRun(s, p, num) ==> s[i - 1] <= p
  }

  ghost predicate AllocSucceeds(num: nat, avail: multiset<nat>, next: nat, maxpg: nat, dirtyRoom: nat) {
    dirtyRoom > 0 && ((exists q: nat :: RunIn(avail, q, num)) || next + num < maxpg)
  }

  ghost predicate AllocResult(r: Option<nat>, num: nat, avail: multiset<nat>, loose: multiset<nat>, next: nat,
                              next': nat) {
    match r
    case None => loose == avail && next' == next
    case Some(p) =>
      if exists q: nat :: RunIn(avail, q, num)
      then next' == next && avail == loose + multiset(Run(p, num)) && forall q: nat :: RunIn(avail, q, num) ==> p <= q
      else p == next && next' == next + num && loose == avail
  }

  lemma CutApart(s: seq<nat>, i: nat, j: nat, recs: seq<Rec>, pos: nat)
    requires i <= j <= |s| && ApartFrom(s, recs, pos)
    ensures ApartFrom(s[..i] + s[j..], recs, pos)
  {
  }

  lemma FetchApart(s: seq<nat>, recs: seq<Rec>, n: nat)
    requires FreeDb(recs) && ApartFrom(s, recs, n) && n < |recs|
    ensures Apart(s, recs[n].pages) && Descending(recs[n].pages) && Pages(recs[n].pages)
  {
  }

  lemma {:induction false} AfterNext(recs: seq<Rec>, n: nat)
    requires FreeDb(recs) && n < |recs|
    ensures After(recs, recs[n].id) == n + 1
  {
    hide Descending, Pages, Apart;
    var m := After(recs, recs[n].id);
    assert m < |recs| ==> recs[m].id > recs[n].id;
    assert n + 1 < |recs| ==> recs[n].id < recs[n + 1].id;
  }

  lemma MergedApart(t: seq<nat>, s: seq<nat>, recs: seq<Rec>, n: nat)
    requires FreeDb(recs) && n < |recs| && ApartFrom(s, recs, n) && multiset(t) == multiset(s) + multiset(recs[n].pages)
    ensures ApartFrom(t, recs, n + 1)
  {
    hide Descending, Pages;
    forall i, j, k | n + 1 <= i < |recs| && 0 <= j < |t| && 0 <= k < |recs[i].pages| ensures t[j] != recs[i].pages[k] {
      assert t[j] in multiset(s) + multiset(recs[n].pages);
      assert Apart(s, recs[i].pages) && Apart(recs[n].pages, recs[i].pages);
    }
  }

  /** Index of the first record with a key above `id`, where a cursor lands. */
  function After(recs: seq<Rec>, id: nat): (n: nat)
    ensures n <= |recs|
    ensures forall i :: 0 <= i < n ==> recs[i].id <= id
    ensures n < |recs| ==> recs[n].id > id
  {
    if recs == [] || recs[0].id > id then 0 else 1 + After(recs[1..], id)
  }
}
