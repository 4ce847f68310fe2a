/**
 Where mdb_page_split cuts a full page, in terms of the space each node takes (node, padding
 and slot).  sizes lists the nodes of the page with the new one at newindx.
 */
module PageSplit {

  function Sum(s: seq<nat>): nat {
    if s == [] then 0 else Sum(s[..|s| - 1]) + s[|s| - 1]
  }

  lemma SumSnoc(s: seq<nat>, i: nat)
    requires i < |s|
    ensures Sum(s[..i + 1]) == Sum(s[..i]) + s[i]
  {
    assert s[..i + 1][..i] == s[..i];
  }

  lemma {:induction false} SumSplit(s: seq<nat>, i: nat)
    requires i <= |s|
    ensures Sum(s) == Sum(s[..i]) + Sum(s[i..])
    decreases |s|
  {
    if i == |s| {
      assert s[..i] == s;
    } else {
      var t := s[..|s| - 1];
      SumSplit(t, i);
      assert t[..i] == s[..i] && s[i..][..|s[i..]| - 1] == t[i..];
    }
  }

  lemma SumCons(s: seq<nat>, i: nat)
    requires i < |s|
    ensures Sum(s[i..]) == s[i] + Sum(s[i + 1..])
  {
    SumSplit(s, i);
    SumSplit(s, i + 1);
    SumSnoc(s, i);
  }

  ghost predicate AllAtMost(s: seq<nat>, m: nat) {
    forall i :: 0 <= i < |s| ==> s[i] <= m
  }

  lemma {:induction false} SumBound(s: seq<nat>, m: nat, n: nat)
    requires AllAtMost(s, m) && |s| <= n
    ensures Sum(s) <= n * m
  {
    if s != [] { SumBound(s[..|s| - 1], m, n - 1); }
    assert n * m == (n - 1) * m + m;
  }

  /** The case in which the sizes are looked at; otherwise the page is cut in the middle. */
  predicate Checked(sizes: seq<nat>, newindx: nat, pmax: nat)
    requires newindx < |sizes|
  {
    |sizes| - 1 < 20 || sizes[newindx] > pmax / 16 || newindx >= |sizes| - 1
  }

  /** A page that was within its limit, and nodes of which any two fit one page. */
  ghost predicate Splittable(sizes: seq<nat>, newindx: nat, pmax: nat) {
    && newindx < |sizes| && AllAtMost(sizes, pmax / 2)
    && Sum(sizes) > pmax && Sum(sizes) - sizes[newindx] <= pmax
  }

  lemma AtLeastThree(sizes: seq<nat>, newindx: nat, pmax: nat)
    requires Splittable(sizes, newindx, pmax)
    ensures |sizes| >= 3
  {
    if |sizes| <= 2 { SumBound(sizes, pmax / 2, 2); }
  }

  lemma AtLeastFive(sizes: seq<nat>, pmax: nat)
    requires AllAtMost(sizes, pmax / 4) && Sum(sizes) > pmax
    ensures |sizes| >= 5
  {
    if |sizes| <= 4 { SumBound(sizes, pmax / 4, 4); }
  }

  lemma {:induction false} SumWithout(s: seq<nat>, a: nat, b: nat, x: nat)
    requires a <= b <= |s| && x < |s| && !(a <= x < b)
    ensures Sum(s[a..b]) <= Sum(s) - s[x]
  {
    SumSplit(s, a);
    SumSplit(s[a..], b - a);
    assert s[a..][..b - a] == s[a..b] && s[a..][b - a..] == s[b..];
    if x < a {
      Contains(s[..a], x);
      assert s[..a][x] == s[x];
    } else {
      Contains(s[b..], x - b);
    }
  }

  lemma {:induction false} Contains(s: seq<nat>, x: nat)
    requires x < |s|
    ensures s[x] <= Sum(s)
  {
    if x < |s| - 1 { Contains(s[..|s| - 1], x); }
  }

  /** Both parts of a cut fit a page. */
  ghost predicate Halves(sizes: seq<nat>, split: nat, pmax: nat) {
    split <= |sizes| && Sum(sizes[..split]) <= pmax && Sum(sizes[split..]) <= pmax
  }

  /** The first place, from i on and before k, at which the left part is too large; the last if there is none. */
  function UpStop(sizes: seq<nat>, pmax: nat, k: nat, i: nat): (r: nat)
    requires i < k <= |sizes|
    ensures i <= r < k
    decreases k - i
  {
    if Sum(sizes[..i + 1]) > pmax || i == k - 1 then i else UpStop(sizes, pmax, k, i + 1)
  }

  /** The same from the right end, down to mid. */
  function DownStop(sizes: seq<nat>, pmax: nat, mid: nat, i: nat): (r: nat)
    requires mid <= i < |sizes|
    ensures mid < r <= i + 1
  {
    if Sum(sizes[i..]) > pmax || i == mid then i + 1 else DownStop(sizes, pmax, mid, i - 1)
  }

  /** The place of the cut. */
  function CutAt(sizes: seq<nat>, newindx: nat, pmax: nat): (r: nat)
    requires newindx < |sizes| && |sizes| >= 3
    ensures r <= |sizes|
  {
    var nkeys, mid := |sizes| - 1, |sizes| / 2;
    if !Checked(sizes, newindx, pmax) then mid
    else if newindx <= mid || newindx >= nkeys then UpStop(sizes, pmax, if newindx >= nkeys then nkeys else mid + 2, 0)
    else DownStop(sizes, pmax, mid, nkeys)
  }

  /** The cut chosen by mdb_page_split.  When the sizes are checked both parts fit. */
  method SplitPoint(sizes: seq<nat>, newindx: nat, pmax: nat) returns (split: nat)
    requires Splittable(sizes, newindx, pmax)
    ensures |sizes| >= 3 && split == CutAt(sizes, newindx, pmax) && 1 <= split < |sizes|
    ensures if Checked(sizes, newindx, pmax) then Halves(sizes, split, pmax) else split == |sizes| / 2
    ensures AllAtMost(sizes, pmax / 4) ==> 2 <= split <= |sizes| - 2
  {
    hide Sum;
    AtLeastThree(sizes, newindx, pmax);
    if AllAtMost(sizes, pmax / 4) { AtLeastFive(sizes, pmax); }
    var nkeys := |sizes| - 1;
    split := (nkeys + 1) / 2;
    if nkeys < 20 || sizes[newindx] > pmax / 16 || newindx >= nkeys {
      if newindx <= split || newindx >= nkeys {
        split := ScanUp(sizes, newindx, pmax, if newindx >= nkeys then nkeys else split + 2);
      } else {
        split := ScanDown(sizes, newindx, pmax, split);
      }
    }
  }

  method ScanUp(sizes: seq<nat>, newindx: nat, pmax: nat, k: nat) returns (split: nat)
    requires Splittable(sizes, newindx, pmax) && 2 <= k <= |sizes|
    requires newindx < k - 1 || (newindx == k == |sizes| - 1)
    ensures 1 <= split < k && Halves(sizes, split, pmax) && split == UpStop(sizes, pmax, k, 0)
    ensures AllAtMost(sizes, pmax / 4) ==> split == k - 1 || split >= 4
  {
    hide Sum;
    var psize, i := 0, 0;
    SumNone(sizes);
    while i != k
      invariant i < k && psize == Sum(sizes[..i]) <= pmax && UpStop(sizes, pmax, k, 0) == UpStop(sizes, pmax, k, i)
      decreases k - i
    {
      psize := psize + sizes[i];
      SumSnoc(sizes, i);
      if psize > pmax || i == k - 1 {
        UpFits(sizes, newindx, pmax, k, i);
        if AllAtMost(sizes, pmax / 4) && psize > pmax { AtLeastFive(sizes[..i + 1], pmax); }
        return i;
      }
      i := i + 1;
    }
  }

  lemma SumNone(s: seq<nat>)
    ensures Sum(s[..0]) == 0 && Sum(s[|s|..]) == 0
  {
  }

  lemma UpFits(sizes: seq<nat>, newindx: nat, pmax: nat, k: nat, i: nat)
    requires Splittable(sizes, newindx, pmax) && 2 <= k <= |sizes| && i < k
    requires newindx < k - 1 || (newindx == k == |sizes| - 1)
    requires Sum(sizes[..i]) <= pmax && (Sum(sizes[..i]) + sizes[i] > pmax || i == k - 1)
    ensures 1 <= i && Halves(sizes, i, pmax)
  {
    hide Sum;
    SumNone(sizes);
    SumSplit(sizes, i);
    if Sum(sizes[..i]) + sizes[i] <= pmax {
      if newindx < k - 1 {
        SumWithout(sizes, i, |sizes|, newindx);
        assert sizes[i..|sizes|] == sizes[i..];
      } else {
        SumBound(sizes[i..], pmax / 2, 2);
      }
    }
  }

  method ScanDown(sizes: seq<nat>, newindx: nat, pmax: nat, mid: nat) returns (split: nat)
    requires Splittable(sizes, newindx, pmax) && 1 <= mid < newindx < |sizes| - 1
    ensures mid < split < |sizes| && Halves(sizes, split, pmax) && split == DownStop(sizes, pmax, mid, |sizes| - 1)
    ensures AllAtMost(sizes, pmax / 4) ==> split == mid + 1 || split <= |sizes| - 4
  {
    hide Sum;
    var psize, i := 0, |sizes| - 1;
    SumNone(sizes);
    while i != mid - 1
      invariant mid <= i < |sizes| && psize == Sum(sizes[i + 1..]) <= pmax
      invariant DownStop(sizes, pmax, mid, |sizes| - 1) == DownStop(sizes, pmax, mid, i)
      decreases i
    {
      psize := psize + sizes[i];
      SumCons(sizes, i);
      if psize > pmax || i == mid {
        DownFits(sizes, newindx, pmax, mid, i);
        if AllAtMost(sizes, pmax / 4) && psize > pmax { AtLeastFive(sizes[i..], pmax); }
        return i + 1;
      }
      i := i - 1;
    }
  }

  lemma DownFits(sizes: seq<nat>, newindx: nat, pmax: nat, mid: nat, i: nat)
    requires Splittable(sizes, newindx, pmax) && 1 <= mid < newindx < |sizes| - 1 && mid <= i < |sizes|
    requires Sum(sizes[i + 1..]) <= pmax && (Sum(sizes[i + 1..]) + sizes[i] > pmax || i == mid)
    ensures i + 1 < |sizes| && Halves(sizes, i + 1, pmax)
  {
    hide Sum;
    SumNone(sizes);
    SumSplit(sizes, i + 1);
    if Sum(sizes[i + 1..]) + sizes[i] <= pmax {
      SumWithout(sizes, 0, i + 1, newindx);
      assert sizes[0..i + 1] == sizes[..i + 1];
    }
  }

  function Copies(v: nat, n: nat): (s: seq<nat>)
    ensures |s| == n && (forall i :: 0 <= i < n ==> s[i] == v) && Sum(s) == n * v
  {
    if n == 0 then [] else
      var s := Copies(v, n - 1);
      assert (s + [v])[..n - 1] == s;
      s + [v]
  }

  lemma SumJoin(a: seq<nat>, b: seq<nat>)
    ensures Sum(a + b) == Sum(a) + Sum(b)
  {
    SumSplit(a + b, |a|);
    assert (a + b)[..|a|] == a && (a + b)[|a|..] == b;
  }
}
