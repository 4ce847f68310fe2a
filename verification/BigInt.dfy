/**
 The multiple-precision integers of dtoa.c: word arrays changed in place.  Every method is
 proved against `Value`, the number the words stand for.
 */
module BigInt {
  import opened BigVal

  const TWO64: nat := 0x1_0000_0000_0000_0000

  class Bigint {
    const k: nat            // x has room for 2^k words
    const x: array<word>
    var wds: nat

    /** Balloc: the words start out with whatever the memory holds. */
    constructor (k: nat)
      ensures this.k == k && wds == 0 && fresh(x) && x.Length == Pow(2, k)
    {
      this.k, wds, x := k, 0, new word[Pow(2, k)];
    }

    ghost predicate Valid()
      reads this, x
    {
      x.Length == Pow(2, k) && wds <= x.Length && (wds == 0 ==> x[0] == 0)
    }

    /** No leading zero word, except that 0 may be one zero word. */
    ghost predicate Normal()
      reads this, x
      requires wds <= x.Length
    {
      wds > 1 ==> x[wds - 1] != 0
    }

    ghost function Value(): nat
      reads this, x
      requires wds <= x.Length
    {
      Val(x[..wds])
    }
  }

  // ----- multadd -------------------------------------------------------------------

  method MulAddWords(x: array<word>, n: nat, m: nat, a: nat) returns (carry: nat)
    requires 1 <= n <= x.Length && m < 0x8000_0000 && a < 0x8000_0000
    modifies x
    ensures Val(x[..n]) + carry * Pow(B, n) == old(Val(x[..n])) * m + a
    ensures carry < 0x8000_0000 && x[n..] == old(x[n..])
  {
    hide Val, Pow, MulAdding;
    ghost var was := x[..];
    carry := a;
    MulAddStart(was, m, a);
    for i := 0 to n
      invariant carry < 0x8000_0000 && MulAdding(x[..], was, i, m, a, carry)
    {
      ghost var now, c0 := x[..], carry;
      MulAddKeeps(now, was, i, m, a, carry);
      var y := x[i] * m + carry;
      WordProduct(x[i], m, carry);
      carry := y / 0x1_0000_0000;
      x[i] := y % 0x1_0000_0000;
      assert x[..] == now[i := x[i]];
      MulAddStep(now, was, i, m, a, c0, x[i], carry);
    }
    MulAddEnd(x[..], was, n, m, a, carry);
    assert x[..][..n] == x[..n] && x[..][n..] == x[n..] && was[..n] == old(x[..n]) && was[n..] == old(x[n..]);
  }

  /** The first i words of was times m, plus a, are the first i words of now and a carry. */
  ghost predicate MulAdding(now: seq<word>, was: seq<word>, i: nat, m: nat, a: nat, carry: nat) {
    && i <= |now| == |was| && now[i..] == was[i..]
    && Val(now[..i]) + carry * Pow(B, i) == Val(was[..i]) * m + a
  }

  lemma MulAddStart(was: seq<word>, m: nat, a: nat)
    ensures MulAdding(was, was, 0, m, a, a)
  {
    assert was[..0] == [];
  }

  lemma MulAddKeeps(now: seq<word>, was: seq<word>, i: nat, m: nat, a: nat, carry: nat)
    requires MulAdding(now, was, i, m, a, carry) && i < |was|
    ensures |now| == |was| && now[i] == was[i]
  {
    assert now[i..][0] == was[i..][0];
  }

  lemma MulAddStep(now: seq<word>, was: seq<word>, i: nat, m: nat, a: nat, c: nat, d: word, c': nat)
    requires MulAdding(now, was, i, m, a, c) && i < |now| && d + c' * B == was[i] * m + c
    ensures MulAdding(now[i := d], was, i + 1, m, a, c')
  {
    hide Val, Pow;
    var next := now[i := d];
    assert next[..i] == now[..i];
    assert next[i + 1..] == now[i..][1..] && was[i + 1..] == was[i..][1..];
    ValSnoc(next, i);
    ValSnoc(was, i);
    PowStep(i);
    MulAddWord(Val(now[..i]), c, Pow(B, i), Val(was[..i]), m, a, was[i], d, c');
  }

  lemma MulAddEnd(now: seq<word>, was: seq<word>, n: nat, m: nat, a: nat, carry: nat)
    requires MulAdding(now, was, n, m, a, carry)
    ensures n <= |now| == |was| && now[n..] == was[n..]
    ensures Val(now[..n]) + carry * Pow(B, n) == Val(was[..n]) * m + a
  {
  }

  lemma WordProduct(w: word, m: nat, c: nat)
    requires m < 0x8000_0000 && c < 0x8000_0000
    ensures w * m + c < 0x8000_0000 * B && (w * m + c) / B < 0x8000_0000 && 0x8000_0000 * B < TWO64
  {
    MulMono(w, B - 1, m);
    MulMono(m, 0x7FFF_FFFF, B - 1);
  }

  lemma NormalGrows(s: seq<word>, t: seq<word>)
    requires 1 < |s| == |t| && s[|s| - 1] != 0 && Val(s) <= Val(t)
    ensures t[|t| - 1] != 0
  {
    TopWord(s);
    TopWord(t);
  }

  lemma WithCarry(s: seq<word>, n: nat, c: word)
    requires n < |s| && s[n] == c
    ensures Val(s[..n + 1]) == Val(s[..n]) + c * Pow(B, n)
  {
    ValSnoc(s, n);
  }

  /** Store a carry above the n words of b, moving to a larger block if they fill it. */
  method PutCarry(b: Bigint, n: nat, carry: word) returns (r: Bigint)
    requires b.x.Length == Pow(2, b.k) && 1 <= n == b.wds <= b.x.Length && carry != 0
    modifies b, b.x
    ensures r == b || (fresh(r) && fresh(r.x))
    ensures r.Valid() && r.Normal() && r.Value() == old(Val(b.x[..n])) + carry * Pow(B, n)
  {
    hide Val;
    ghost var low := b.x[..n];
    r := b;
    if b.wds >= b.x.Length {
      r := new Bigint(b.k + 1);
      forall i | 0 <= i < n { r.x[i] := b.x[i]; }
    }
    r.x[n] := carry;
    r.wds := n + 1;
    assert r.x[..][..n + 1] == r.x[..n + 1] && r.x[..][..n] == low;
    WithCarry(r.x[..], n, carry);
  }

  /** b * m + a.  The word loop runs at least once but the length only follows a carry: with no
      words at all (a zero left by quorem) the addend is lost, so that case is exact only for a = 0. */
  method MultAdd(b: Bigint, m: nat, a: nat) returns (r: Bigint)
    requires b.Valid() && m < 0x8000_0000 && a < 0x8000_0000
    modifies b, b.x
    ensures r == b || (fresh(r) && fresh(r.x))
    ensures r.wds <= r.x.Length && (r.Value() == old(b.Value()) * m + a <==> old(b.wds) > 0 || a == 0)
    ensures old(b.wds) > 0 || a == 0 ==> r.Valid()
    ensures old(b.Normal()) && 0 < m && (old(b.wds) > 0 || a == 0) ==> r.Normal()
  {
    hide Val, Pow;
    r := b;
    if b.wds == 0 {
      NoWords(b.x[..1], b.x[..0]);
      var carry := MulAddWords(b.x, 1, m, a);
      CarryFree(b.x[..1], carry, a);
    } else {
      var n := b.wds;
      ghost var was := b.x[..n];
      var carry := MulAddWords(b.x, n, m, a);
      if carry != 0 {
        r := PutCarry(b, n, carry);
      } else if n > 1 && was[n - 1] != 0 && 0 < m {
        MulMono(1, m, Val(was));
        NormalGrows(was, b.x[..n]);
      }
    }
  }

  lemma NoWords(s: seq<word>, e: seq<word>)
    requires |s| == 1 && e == []
    ensures Val(e) == 0 && (s[0] == 0 ==> Val(s) == 0)
  {
  }

  lemma CarryFree(s: seq<word>, carry: nat, a: nat)
    requires |s| == 1 && Val(s) + carry * Pow(B, 1) == a && a < B
    ensures carry == 0 && s[0] == a
  {
    assert s[..0] == [];
    assert Pow(B, 1) == B * Pow(B, 0) == B;
  }

  // ----- mult ------------------------------------------------------------------------

  /** cx[off..] += y * ax, and the carry out of the row. */
  method MulRow(ax: array<word>, wa: nat, y: word, cx: array<word>, off: nat) returns (carry: word)
    requires ax != cx && wa <= ax.Length && off + wa < cx.Length
    modifies cx
    ensures Val(cx[off..off + wa]) + carry * Pow(B, wa) == old(Val(cx[off..off + wa])) + Val(ax[..wa]) * y
    ensures forall i :: 0 <= i < off || off + wa <= i < cx.Length ==> cx[i] == old(cx[i])
  {
    hide Val, Pow, Rowing;
    ghost var a, c0 := ax[..wa], cx[off..off + wa];
    RowingStart(cx[off..off + wa], c0, a, y);
    carry := 0;
    var j := 0;
    while j < wa
      invariant j <= wa && ax[..wa] == a && cx[off + j..off + wa] == c0[j..]
      invariant Rowing(cx[off..off + wa], c0, a, j, y, carry)
      invariant forall i :: 0 <= i < off || off + wa <= i < cx.Length ==> cx[i] == old(cx[i])
    {
      ghost var seg, c := cx[off..off + wa], carry;
      assert cx[off + j] == c0[j] && ax[j] == a[j] by { assert cx[off + j..off + wa][0] == c0[j..][0]; }
      var z := ax[j] * y + cx[off + j] + carry;
      RowProduct(ax[j], y, cx[off + j], carry);
      carry := z / 0x1_0000_0000;
      cx[off + j] := z % 0x1_0000_0000;
      assert cx[off..off + wa] == seg[j := z % 0x1_0000_0000];
      RowingStep(seg, c0, a, j, y, c, z % 0x1_0000_0000, carry);
      j := j + 1;
    }
    RowingEnd(cx[off..off + wa], c0, a, y, carry);
  }

  /** The first j words of the row are added; `carry` belongs to word j. */
  ghost predicate Rowing(seg: seq<word>, c0: seq<word>, a: seq<word>, j: nat, y: word, carry: word) {
    && j <= |seg| == |c0| == |a|
    && Val(seg[..j]) + carry * Pow(B, j) == Val(c0[..j]) + Val(a[..j]) * y
  }

  lemma RowingStart(seg: seq<word>, c0: seq<word>, a: seq<word>, y: word)
    requires |seg| == |c0| == |a|
    ensures Rowing(seg, c0, a, 0, y, 0)
  {
  }

  lemma RowingStep(seg: seq<word>, c0: seq<word>, a: seq<word>, j: nat, y: word, c: word, d: word, c': word)
    requires j < |seg| && Rowing(seg, c0, a, j, y, c) && d + c' * B == a[j] * y + c0[j] + c
    ensures Rowing(seg[j := d], c0, a, j + 1, y, c')
  {
    hide Val, Pow;
    var now := seg[j := d];
    assert now[..j] == seg[..j];
    ValSnoc(now, j);
    ValSnoc(c0, j);
    ValSnoc(a, j);
    RowWord(Val(seg[..j]), c, Pow(B, j), Val(c0[..j]), Val(a[..j]), y, a[j], c0[j], d, c');
    PowStep(j);
  }

  lemma RowingEnd(seg: seq<word>, c0: seq<word>, a: seq<word>, y: word, carry: word)
    requires Rowing(seg, c0, a, |a|, y, carry)
    ensures Val(seg) + carry * Pow(B, |a|) == Val(c0) + Val(a) * y
  {
    hide Val, Pow;
    assert seg[..|a|] == seg && c0[..|a|] == c0 && a[..|a|] == a;
  }

  lemma PowStep(j: nat)
    ensures Pow(B, j + 1) == B * Pow(B, j)
  {
  }

  lemma RowProduct(x: word, y: word, t: word, c: word)
    ensures 0 <= x * y <= 0xFFFF_FFFE_0000_0001
    ensures x * y + t + c < TWO64 && 0 <= (x * y + t + c) / B < B
  {
    MulMono(0, x, y);
    MulMono(x, 0xFFFF_FFFF, y);
  }

  lemma RowStep(c: seq<word>, c': seq<word>, a: seq<word>, b: seq<word>, k: nat, carry: word)
    requires |c| == |c'| == |a| + |b| && k < |b| && c[..k] == c'[..k] && Zero(c, k + |a|) && Zero(c', k + |a| + 1)
    requires Val(c) == Val(a) * Val(b[..k])
    requires Val(c'[k..k + |a|]) + carry * Pow(B, |a|) == Val(c[k..k + |a|]) + Val(a) * b[k] && c'[k + |a|] == carry
    ensures Val(c') == Val(a) * Val(b[..k + 1])
  {
    hide Val, Pow, Zero;
    RowTop(c', k, |a|);
    RowAdded(c, c', k, |a|, Val(a) * b[k]);
    ValSnoc(b, k);
    RowCombine(Val(c), Val(c'), Val(a), Val(b[..k]), b[k], Pow(B, k), Val(b[..k + 1]));
  }

  lemma RowTop(c: seq<word>, k: nat, n: nat)
    requires k + n < |c|
    ensures Val(c[k..k + n + 1]) == Val(c[k..k + n]) + c[k + n] * Pow(B, n)
  {
    hide Val, Pow;
    var h := c[k..k + n + 1];
    assert h[..n] == c[k..k + n] && h[..n + 1] == h;
    ValSnoc(h, n);
  }

  lemma RowCombine(c: int, c': int, a: int, v: int, y: int, p: int, v': int)
    requires c == a * v && c' == c + p * (a * y) && v' == v + y * p
    ensures c' == a * v'
  {
    assert a * (v + y * p) == a * v + a * (y * p);
    MulAssoc(a, y, p);
  }

  lemma ZeroRow(a: seq<word>, b: seq<word>, k: nat)
    requires k < |b| && b[k] == 0
    ensures Val(b[..k + 1]) == Val(b[..k])
  {
    ValSnoc(b, k);
  }

  /** Schoolbook product of the first wa words of ax and wb words of bx into cleared words. */
  method MulWords(ax: array<word>, wa: nat, bx: array<word>, wb: nat, cx: array<word>)
    requires wa <= ax.Length && wb <= bx.Length && wa + wb <= cx.Length && ax != cx && bx != cx
    modifies cx
    ensures Val(cx[..wa + wb]) == Val(ax[..wa]) * Val(bx[..wb])
  {
    hide Val, Pow, Zero;
    ghost var a, b := ax[..wa], bx[..wb];
    var wc := wa + wb;
    for i := 0 to wc
      invariant forall k :: 0 <= k < i ==> cx[k] == 0
    {
      cx[i] := 0;
    }
    AllZero(cx[..wc]);
    AllZero(b[..0]);
    ZeroAll(cx[..wc], wa);
    var k := 0;
    while k < wb
      invariant k <= wb && ax[..wa] == a && bx[..wb] == b
      invariant Val(cx[..wc]) == Val(a) * Val(b[..k])
      invariant Zero(cx[..wc], k + wa)
    {
      var y := bx[k];
      if y != 0 {
        ghost var c := cx[..wc];
        assert c[k..k + wa] == cx[k..k + wa];
        var carry := MulRow(ax, wa, y, cx, k);
        ghost var seg := cx[k..k + wa];
        cx[k + wa] := carry;
        assert cx[..wc][k..k + wa] == seg;
        RowDone(c, cx[..wc], a, b, k, carry);
      } else {
        ZeroRow(a, b, k);
        ZeroLess(cx[..wc], k + wa);
      }
      k := k + 1;
    }
    assert b[..wb] == b;
  }

  lemma AllZero(s: seq<word>)
    requires forall k :: 0 <= k < |s| ==> s[k] == 0
    ensures Val(s) == 0
  {
    ValZeros(s, 0);
    assert s[..0] == [];
  }

  lemma ZeroAll(s: seq<word>, i: nat)
    requires forall k :: 0 <= k < |s| ==> s[k] == 0
    ensures Zero(s, i)
  {
  }

  lemma ZeroLess(s: seq<word>, i: nat)
    requires Zero(s, i)
    ensures Zero(s, i + 1)
  {
  }

  lemma RowDone(c: seq<word>, c': seq<word>, a: seq<word>, b: seq<word>, k: nat, carry: word)
    requires |c| == |c'| == |a| + |b| && k < |b| && c[..k] == c'[..k] && Zero(c, k + |a|)
    requires forall i :: k + |a| < i < |c| ==> c'[i] == c[i]
    requires Val(c) == Val(a) * Val(b[..k])
    requires Val(c'[k..k + |a|]) + carry * Pow(B, |a|) == Val(c[k..k + |a|]) + Val(a) * b[k] && c'[k + |a|] == carry
    ensures Val(c') == Val(a) * Val(b[..k + 1]) && Zero(c', k + 1 + |a|)
  {
    hide Val, Pow;
    RowStep(c, c', a, b, k, carry);
  }

  /** Drop leading zero words; 0 ends up with no words. */
  method Trim(x: array<word>, n: nat) returns (wds: nat)
    requires n <= x.Length
    ensures wds <= n && Val(x[..wds]) == Val(x[..n]) && (wds > 0 ==> x[wds - 1] != 0) && (wds == 0 < n ==> x[0] == 0)
  {
    hide Val;
    wds := n;
    while wds > 0 && x[wds - 1] == 0
      invariant wds <= n && Zero(x[..n], wds)
    {
      wds := wds - 1;
    }
    ValZeros(x[..n], wds);
    assert x[..n][..wds] == x[..wds];
  }

  lemma PowTwo(k: nat)
    ensures Pow(2, k + 1) == 2 * Pow(2, k)
  {
  }

  /** a * b in a new number; the operands are only read, and may be the same object. */
  method Mult(a: Bigint, b: Bigint) returns (c: Bigint)
    requires a.Valid() && b.Valid()
    ensures fresh(c) && fresh(c.x) && c.wds <= c.x.Length && c.Normal() && (0 < a.wds + b.wds ==> c.Valid())
    ensures c.Value() == a.Value() * b.Value()
  {
    hide Val, Pow;
    var p, q := a, b;
    if a.wds < b.wds { p, q := b, a; }
    var wc := p.wds + q.wds;
    c := new Bigint(if wc > p.x.Length then p.k + 1 else p.k);
    var cx := c.x;
    ghost var va, vb := p.x[..p.wds], q.x[..q.wds];
    PowTwo(p.k);
    MulWords(p.x, p.wds, q.x, q.wds, cx);
    assert p.x[..p.wds] == va && q.x[..q.wds] == vb;
    c.wds := Trim(cx, wc);
  }

  // ----- cmp ---------------------------------------------------------------------------

  /** Sign of a - b.  The word counts decide first, so of two zeros with different word counts
      one would look larger; with equal counts there must be a word to look at. */
  method Cmp(a: Bigint, b: Bigint) returns (r: int)
    requires a.Valid() && b.Valid() && a.Normal() && b.Normal()
    requires if a.wds == b.wds then 0 < a.wds else 0 < a.Value() + b.Value()
    ensures r < 0 <==> a.Value() < b.Value()
    ensures r > 0 <==> a.Value() > b.Value()
  {
    hide Val, Pow;
    if a.wds != b.wds {
      if a.wds < b.wds { FewerWords(a.x[..a.wds], b.x[..b.wds]); } else { FewerWords(b.x[..b.wds], a.x[..a.wds]); }
      return a.wds - b.wds;
    }
    var i := a.wds;
    ghost var s, t := a.x[..a.wds], b.x[..b.wds];
    while i > 0
      invariant 0 <= i <= a.wds && s[i..] == t[i..]
    {
      i := i - 1;
      if a.x[i] != b.x[i] {
        if a.x[i] < b.x[i] { CompareAt(s, t, i); return -1; } else { CompareAt(t, s, i); return 1; }
      }
      assert s[i..] == [s[i]] + s[i + 1..] && t[i..] == [t[i]] + t[i + 1..];
    }
    assert s == t;
    r := 0;
  }

  // ----- quorem ------------------------------------------------------------------------

  /** bx := bx - q * sx over n words; nothing is borrowed at the end because q * S <= b. */
  method MulSubWords(bx: array<word>, sx: array<word>, n: nat, q: word)
    requires bx != sx && n <= bx.Length && n <= sx.Length && q * Val(sx[..n]) <= Val(bx[..n])
    modifies bx
    ensures Val(bx[..n]) == old(Val(bx[..n])) - q * Val(sx[..n])
  {
    hide Val, Pow, Subbing;
    ghost var u, v := bx[..n], sx[..n];
    var borrow, carry := 0, 0;
    SubbingStart(bx[..n], u, v, q);
    var i := 0;
    while i < n
      invariant i <= n && sx[..n] == v && bx[i..n] == u[i..]
      invariant 0 <= borrow <= 1 && 0 <= carry < 0x1_0000_0000
      invariant Subbing(bx[..n], u, v, i, q, carry + borrow)
    {
      ghost var now, e := bx[..n], carry + borrow;
      assert bx[i] == u[i] && sx[i] == v[i] by { assert bx[i] == bx[i..n][0]; }
      var ys := sx[i] * q + carry;
      RowProduct(sx[i], q, 0, carry);
      carry := ys / 0x1_0000_0000;
      var y := (bx[i] - ys % 0x1_0000_0000 - borrow) % 0x1_0000_0000_0000_0000;
      Borrowed(bx[i], ys % 0x1_0000_0000, borrow, y);
      borrow := y / 0x1_0000_0000 % 2;
      bx[i] := y % 0x1_0000_0000;
      assert bx[..n] == now[i := y % 0x1_0000_0000];
      SubbingStep(now, u, v, i, q, e, y % 0x1_0000_0000, carry + borrow);
      i := i + 1;
    }
    SubbingEnd(bx[..n], u, v, q, carry + borrow);
  }

  /** The first i words are subtracted; e is carry plus borrow at word i. */
  ghost predicate Subbing(now: seq<word>, u: seq<word>, v: seq<word>, i: nat, q: word, e: nat) {
    && i <= |now| == |u| == |v|
    && Val(now[..i]) + q * Val(v[..i]) == Val(u[..i]) + e * Pow(B, i)
  }

  lemma SubbingStart(now: seq<word>, u: seq<word>, v: seq<word>, q: word)
    requires |now| == |u| == |v|
    ensures Subbing(now, u, v, 0, q, 0)
  {
  }

  lemma SubbingStep(now: seq<word>, u: seq<word>, v: seq<word>, i: nat, q: word, e: nat, d: word, e': nat)
    requires i < |now| && Subbing(now, u, v, i, q, e) && d + q * v[i] + e == u[i] + e' * B
    ensures Subbing(now[i := d], u, v, i + 1, q, e')
  {
    hide Val, Pow;
    var next := now[i := d];
    assert next[..i] == now[..i];
    ValSnoc(next, i);
    ValSnoc(u, i);
    ValSnoc(v, i);
    MulSubWord(Val(now[..i]), e, Pow(B, i), Val(u[..i]), Val(v[..i]), q, v[i], u[i], d, e');
    PowStep(i);
  }

  lemma SubbingEnd(now: seq<word>, u: seq<word>, v: seq<word>, q: word, e: nat)
    requires Subbing(now, u, v, |v|, q, e) && q * Val(v) <= Val(u)
    ensures Val(now) == Val(u) - q * Val(v)
  {
    hide Val, Pow;
    assert now[..|v|] == now && u[..|v|] == u && v[..|v|] == v;
    ValBound(now);
    NoBorrowLeft(Val(now), q * Val(v), Val(u), e, Pow(B, |v|));
  }

  /** Unsigned 64-bit subtraction: bit 32 of the difference is the borrow. */
  lemma Borrowed(b: word, lo: word, r: int, y: int)
    requires 0 <= r <= 1 && y == (b - lo - r) % 0x1_0000_0000_0000_0000
    ensures 0 <= y / 0x1_0000_0000 % 2 <= 1 && y % 0x1_0000_0000 == b - lo - r + (y / 0x1_0000_0000 % 2) * 0x1_0000_0000
  {
    var t := b - lo - r;
    if t < 0 {
      assert y == t + 0x1_0000_0000_0000_0000;
    }
  }

  /** Shorten b after a subtraction over n+1 words.  The scan stops above word 0, so a zero keeps
      one word, or none when n is 0. */
  method TrimTop(b: Bigint, n: nat)
    requires b.x.Length == Pow(2, b.k) && b.wds == n + 1 <= b.x.Length
    modifies b`wds
    ensures b.Valid() && b.Normal() && b.Value() == old(b.Value()) && b.wds <= n + 1
  {
    hide Val, Pow;
    if b.x[n] == 0 {
      var m := n;
      while m > 1 && b.x[m - 1] == 0
        invariant m <= n && (n > 0 ==> 0 < m) && Zero(b.x[..n + 1], m)
      {
        m := m - 1;
      }
      ValZeros(b.x[..n + 1], m);
      assert b.x[..n + 1][..m] == b.x[..m];
      b.wds := m;
    }
  }

  /** b := b - q * S over S's words, then shorten. */
  method SubMul(b: Bigint, S: Bigint, q: word)
    requires b.Valid() && S.Valid() && b != S && b.x != S.x && 0 < S.wds == b.wds
    requires q * S.Value() <= b.Value()
    modifies b, b.x
    ensures b.Valid() && b.Normal() && b.Value() == old(b.Value()) - q * S.Value() && b.wds <= S.wds
  {
    hide Val, Pow;
    ghost var v := S.x[..S.wds];
    MulSubWords(b.x, S.x, b.wds, q);
    assert S.x[..S.wds] == v;
    TrimTop(b, b.wds - 1);
  }

  method Estimate(b: Bigint, S: Bigint) returns (q: nat)
    requires b.wds <= b.x.Length && S.wds <= S.x.Length && 0 < b.wds == S.wds
    requires 0x800_0000 <= S.x[S.wds - 1] < 0x1000_0000
    ensures q <= 31 && q * S.Value() <= b.Value() && b.Value() < (q + 2) * S.Value()
  {
    hide Val, Pow, Quot;
    var n := S.wds - 1;
    var top: nat := S.x[n];
    q := Quot(b.x[n], top + 1);
    EstimateWords(b.x[..b.wds], S.x[..S.wds], q);
  }

  /** Returns floor(b/S) and leaves the remainder in b: an estimate from the top words, then at
      most one correction. */
  method Quorem(b: Bigint, S: Bigint) returns (q: nat)
    requires b.Valid() && S.Valid() && b.Normal() && b.x != S.x && b != S
    requires 0 < S.wds && b.wds <= S.wds && 0x800_0000 <= S.x[S.wds - 1] < 0x1000_0000
    modifies b, b.x
    ensures b.Valid() && b.Normal() && b.wds <= S.wds
    ensures old(b.Value()) == q * S.Value() + b.Value() && b.Value() < S.Value()
  {
    hide Val, Pow;
    ghost var u, v := b.Value(), S.Value();
    PositiveTop(S.x[..S.wds]);
    if b.wds < S.wds {
      FewerWords(b.x[..b.wds], S.x[..S.wds]);
      return 0;
    }
    q := Estimate(b, S);
    ghost var q0 := q;
    if q != 0 { SubMul(b, S, q); }
    if b.wds < S.wds { FewerWords(b.x[..b.wds], S.x[..S.wds]); }
    var c := Cmp(b, S);
    if c >= 0 {
      q := q + 1;
      SubMul(b, S, 1);
    }
    Remaining(u, v, q0, q, b.Value());
  }

  lemma Remaining(u: int, v: int, q0: int, q: int, r: int)
    requires u < (q0 + 2) * v && 0 <= r && (q == q0 || q == q0 + 1)
    requires if q == q0 then r == u - q0 * v && r < v else r == u - q0 * v - v
    ensures u == q * v + r && r < v
  {
    assert (q0 + 2) * v == q0 * v + 2 * v && (q0 + 1) * v == q0 * v + v;
  }

  lemma PositiveTop(v: seq<word>)
    requires v != [] && v[|v| - 1] > 0
    ensures 0 < Val(v) && 0 < Pow(B, |v| - 1)
  {
    ValTop(v);
    MulMono(1, v[|v| - 1], Pow(B, |v| - 1));
  }

  // ----- pow5mult ------------------------------------------------------------------------

  /** 5^(4 * 2^i): what entry i of the cache holds. */
  ghost function Fives(i: nat): nat {
    if i == 0 then 625 else Fives(i - 1) * Fives(i - 1)
  }

  lemma {:induction false} FivesIsPower(i: nat)
    ensures Fives(i) == Pow(5, 4 * Pow(2, i))
  {
    if i == 0 {
      assert Pow(5, 4) == 5 * 5 * 5 * 5;
    } else {
      FivesIsPower(i - 1);
      PowAdd(5, 4 * Pow(2, i - 1), 4 * Pow(2, i - 1));
    }
  }

  /** Square and multiply: an even exponent halves over the squared base. */
  lemma {:induction false} PowHalf(b: nat, e: nat)
    ensures Pow(b, e) == (if e % 2 == 1 then b else 1) * Pow(b * b, e / 2)
  {
    if e >= 2 {
      PowHalf(b, e - 2);
      assert Pow(b, e) == b * (b * Pow(b, e - 2));
      MulAssoc(b, b, Pow(b, e - 2));
      var h := if e % 2 == 1 then b else 1;
      MulAssoc(b * b, h, Pow(b * b, e / 2 - 1));
      MulAssoc(h, b * b, Pow(b * b, e / 2 - 1));
      assert (e - 2) / 2 == e / 2 - 1;
    }
  }

  lemma {:induction false} PowQuarter(k: nat)
    ensures Pow(5, k) == Pow(5, k % 4) * Pow(625, k / 4)
  {
    if k >= 4 {
      PowQuarter(k - 4);
      assert Pow(5, 4) == 625 by { assert Pow(5, 4) == 5 * 5 * 5 * 5; }
      PowAdd(5, 4, k - 4);
      var q := Pow(5, k % 4);
      MulAssoc(625, q, Pow(625, k / 4 - 1));
      MulAssoc(q, 625, Pow(625, k / 4 - 1));
      assert (k - 4) / 4 == k / 4 - 1 && (k - 4) % 4 == k % 4;
    }
  }

  /** The list p5s of powers of five, computed on demand and kept. */
  class Pow5Cache {
    var list: seq<Bigint>

    constructor ()
      ensures list == [] && Valid()
    {
      list := [];
    }

    ghost function Arrays(): set<array<word>>
      reads this
    {
      set b | b in list :: b.x
    }

    ghost predicate Valid()
      reads this, list, Arrays()
    {
      forall i :: 0 <= i < |list| ==> list[i].x in Arrays() && Holds(list[i], i)
    }

    /** Entry i, squaring the last one when the list ends before it. */
    method Entry(i: nat) returns (p: Bigint)
      requires Valid() && i <= |list|
      modifies this
      ensures Valid() && i < |list| && p == list[i] && old(list) <= list && Holds(p, i)
      ensures forall j :: |old(list)| <= j < |list| ==> fresh(list[j]) && fresh(list[j].x)
    {
      hide Holds;
      if i < |list| { return list[i]; }
      if i == 0 { p := FirstFive(); } else { p := SquareFive(list[i - 1], i - 1); }
      list := list + [p];
      assert forall j :: 0 <= j < |old(list)| ==> list[j] == old(list)[j];
    }
  }

  /** b is the normal number 5^(4 * 2^i). */
  ghost predicate Holds(b: Bigint, i: nat)
    reads b, b.x
  {
    b.Valid() && b.Normal() && 0 < b.wds && b.Value() == Fives(i)
  }

  method FirstFive() returns (p: Bigint)
    ensures fresh(p) && fresh(p.x) && Holds(p, 0)
  {
    hide Val, Pow;
    p := new Bigint(1);
    PowTwo(0);
    OneWord(625);
    p.x[0] := 625;
    p.wds := 1;
    assert p.x[..1] == [625];
  }

  method SquareFive(b: Bigint, i: nat) returns (p: Bigint)
    requires Holds(b, i)
    ensures fresh(p) && fresh(p.x) && Holds(p, i + 1)
  {
    hide Val, Pow;
    p := Mult(b, b);
    FivesPositive(i);
    NonzeroWords(p.x[..p.wds], Val(b.x[..b.wds]));
  }

  lemma OneWord(w: word)
    ensures Val([w]) == w && Pow(2, 0) == 1
  {
    assert [w][..0] == [];
  }

  lemma {:induction false} FivesPositive(i: nat)
    ensures 0 < Fives(i)
  {
    if i > 0 { FivesPositive(i - 1); }
  }

  lemma NonzeroWords(s: seq<word>, v: nat)
    requires Val(s) == v * v && 0 < v
    ensures s != []
  {
    MulMono(1, v, v);
  }

  /** One round: the odd bit goes into r, the base is squared. */
  lemma PowRound(r: nat, r': nat, f: nat, e: nat, target: nat)
    requires r * Pow(f, e) == target && r' == (if e % 2 == 1 then r * f else r)
    ensures r' * Pow(f * f, e / 2) == target
  {
    hide Pow;
    PowHalf(f, e);
    if e % 2 == 1 { MulAssoc(r, f, Pow(f * f, e / 2)); }
  }

  lemma PowStart(v: nat, r: nat, k: nat)
    requires r == v * Pow(5, k % 4)
    ensures r * Pow(Fives(0), k / 4) == v * Pow(5, k)
  {
    hide Pow;
    PowQuarter(k);
    MulAssoc(v, Pow(5, k % 4), Pow(625, k / 4));
  }

  lemma PowZero(b: nat)
    ensures Pow(b, 0) == 1
  {
  }

  lemma SmallFives()
    ensures Pow(5, 0) == 1 && Pow(5, 1) == 5 && Pow(5, 2) == 25 && Pow(5, 3) == 125
  {
    assert Pow(5, 3) == 5 * Pow(5, 2) && Pow(5, 2) == 5 * Pow(5, 1);
  }

  /** b * 5^k: the low two bits of k by a single word, the rest by the cached powers 5^(4 * 2^i). */
  method Pow5Mult(b: Bigint, k: nat, cache: Pow5Cache) returns (r: Bigint)
    requires b.Valid() && b.Normal() && cache.Valid() && b !in cache.list && b.x !in cache.Arrays()
    modifies b, b.x, cache
    ensures cache.Valid() && old(cache.list) <= cache.list
    ensures forall j :: |old(cache.list)| <= j < |cache.list| ==> fresh(cache.list[j]) && fresh(cache.list[j].x)
    ensures r.Valid() && r.Normal() && r.Value() == old(b.Value()) * Pow(5, k)
    ensures (r == b || (fresh(r) && fresh(r.x))) && r !in cache.list && r.x !in cache.Arrays()
  {
    hide Val, Pow, Holds, Fives;
    ghost var v := b.Value();
    r := b;
    var i := k % 4;
    SmallFives();
    if i != 0 {
      r := MultAdd(b, if i == 1 then 5 else if i == 2 then 25 else 125, 0);
    }
    assert cache.Valid();
    PowStart(v, r.Value(), k);
    PowZero(Fives(0));
    if k / 4 != 0 {
      r := MultCached(r, k / 4, cache, v * Pow(5, k));
    }
  }

  /** One round of the loop: multiply by the cached power when the bit of k is set. */
  method MultBit(b: Bigint, k: nat, p5: Bigint, i: nat, ghost target: nat) returns (r: Bigint)
    requires b.Valid() && b.Normal() && Holds(p5, i) && b.Value() * Pow(Fives(i), k) == target
    ensures (r == b || (fresh(r) && fresh(r.x))) && r.Valid() && r.Normal()
    ensures r.Value() * Pow(Fives(i + 1), k / 2) == target
  {
    hide Val, Pow, Fives;
    r := b;
    if k % 2 == 1 { r := Mult(b, p5); }
    PowRound(b.Value(), r.Value(), Fives(i), k, target);
    FivesNext(i);
  }

  /** The square-and-multiply loop over the cached powers. */
  method MultCached(b: Bigint, k: nat, cache: Pow5Cache, ghost target: nat) returns (r: Bigint)
    requires b.Valid() && b.Normal() && cache.Valid() && b !in cache.list && b.x !in cache.Arrays() && 0 < k
    requires b.Value() * Pow(Fives(0), k) == target
    modifies cache
    ensures cache.Valid() && old(cache.list) <= cache.list
    ensures forall j :: |old(cache.list)| <= j < |cache.list| ==> fresh(cache.list[j]) && fresh(cache.list[j].x)
    ensures r.Valid() && r.Normal() && r.Value() == target
    ensures (r == b || (fresh(r) && fresh(r.x))) && r !in cache.list && r.x !in cache.Arrays()
  {
    hide Val, Pow, Fives, Holds;
    r := b;
    var kk, i := k, 0;
    var p5 := cache.Entry(0);
    while true
      invariant 0 < kk && cache.Valid() && old(cache.list) <= cache.list && i < |cache.list| && Holds(p5, i)
      invariant r.Valid() && r.Normal() && (r == b || (fresh(r) && fresh(r.x)))
      invariant forall j :: |old(cache.list)| <= j < |cache.list| ==> fresh(cache.list[j]) && fresh(cache.list[j].x)
      invariant r !in cache.list && r.x !in cache.Arrays()
      invariant r.Value() * Pow(Fives(i), kk) == target
      decreases kk
    {
      r := MultBit(r, kk, p5, i, target);
      kk := kk / 2;
      if kk == 0 {
        PowZero(Fives(i + 1));
        break;
      }
      i := i + 1;
      p5 := cache.Entry(i);
    }
  }

  lemma FivesNext(i: nat)
    ensures Fives(i + 1) == Fives(i) * Fives(i)
  {
  }

  // ----- lshift ----------------------------------------------------------------------------

  /** y[off..] := x * m for a power of two m, with m * h = 2^32; z is what leaves the top word. */
  method ShiftWords(x: array<word>, w: nat, y: array<word>, off: nat, m: nat, h: nat) returns (z: word)
    requires x != y && w <= x.Length && off + w <= y.Length
    requires 0 < m < 0x1_0000_0000 && 0 < h && m * h == 0x1_0000_0000
    modifies y
    ensures Val(y[off..off + w]) + z * Pow(B, w) == Val(x[..w]) * m
    ensures forall i :: 0 <= i < off || off + w <= i < y.Length ==> y[i] == old(y[i])
    ensures z < m
  {
    hide Val, Pow, Quot, Shifting;
    ghost var a := x[..w];
    z := 0;
    var i := 0;
    ShiftingStart(y[off..off + w], a, m);
    while i < w
      invariant i <= w && x[..w] == a && z < m
      invariant Shifting(y[off..off + w], a, i, m, z)
      invariant forall k :: 0 <= k < off || off + w <= k < y.Length ==> y[k] == old(y[k])
    {
      ghost var seg, z0 := y[off..off + w], z;
      ShiftWord(x[i], m, h, z);
      var d: word := (x[i] * m) % 0x1_0000_0000 + z;
      y[off + i] := d;
      z := Quot(x[i], h);
      assert y[off..off + w] == seg[i := d];
      ShiftingStep(seg, a, i, m, z0, d, z);
      i := i + 1;
    }
    ShiftingEnd(y[off..off + w], a, m, z);
  }

  ghost predicate Shifting(seg: seq<word>, a: seq<word>, i: nat, m: nat, z: nat) {
    i <= |seg| == |a| && Val(seg[..i]) + z * Pow(B, i) == Val(a[..i]) * m + 0
  }

  lemma ShiftingStart(seg: seq<word>, a: seq<word>, m: nat)
    requires |seg| == |a|
    ensures Shifting(seg, a, 0, m, 0)
  {
  }

  lemma ShiftingStep(seg: seq<word>, a: seq<word>, i: nat, m: nat, z: nat, d: word, z': nat)
    requires i < |seg| && Shifting(seg, a, i, m, z) && d + z' * B == a[i] * m + z
    ensures Shifting(seg[i := d], a, i + 1, m, z')
  {
    hide Val, Pow;
    var now := seg[i := d];
    assert now[..i] == seg[..i];
    ValSnoc(now, i);
    ValSnoc(a, i);
    MulAddWord(Val(seg[..i]), z, Pow(B, i), Val(a[..i]), m, 0, a[i], d, z');
    PowStep(i);
  }

  lemma ShiftingEnd(seg: seq<word>, a: seq<word>, m: nat, z: nat)
    requires Shifting(seg, a, |a|, m, z)
    ensures Val(seg) + z * Pow(B, |a|) == Val(a) * m
  {
    assert seg[..|a|] == seg && a[..|a|] == a;
  }

  /** What the shifted words stand for: n zero words, the shifted words, the word shifted out. */
  lemma Shifted(y: seq<word>, n: nat, w: nat, z: word, v: nat, k: nat)
    requires |y| == n + w + 1 && y[n + w] == z && (forall i :: 0 <= i < n ==> y[i] == 0)
    requires Val(y[n..n + w]) + z * Pow(B, w) == v * Pow(2, k)
    ensures Val(y) == v * Pow(2, 32 * n + k)
  {
    hide Val, Pow;
    LowZeros(y, n);
    RowTop(y, n, w);
    assert y[n..] == y[n..n + w + 1];
    PowOfPow(n);
    PowAdd(2, 32 * n, k);
    ShiftAlgebra(Pow(B, n), v, Pow(2, k), Pow(2, 32 * n + k));
  }

  lemma ShiftAlgebra(p: int, v: int, m: int, pm: int)
    requires pm == p * m
    ensures p * (v * m) == v * pm
  {
    MulAssoc(p, v, m);
    MulAssoc(v, p, m);
  }

  /** Smallest block with room for n1 words, found by doubling. */
  method RoomFor(k: nat, n1: nat) returns (k1: nat)
    ensures k <= k1 && n1 <= Pow(2, k1)
  {
    k1 := k;
    var i := Pow(2, k);
    while n1 > i
      invariant k <= k1 && i == Pow(2, k1) && 0 < i
      decreases n1 - i
    {
      PowTwo(k1);
      k1, i := k1 + 1, 2 * i;
    }
  }

  /** n zero words, then the w words of x shifted by kk bits, then what leaves the top. */
  method ShiftInto(x: array<word>, w: nat, y: array<word>, n: nat, kk: nat) returns (z: word)
    requires x != y && w <= x.Length && n + w + 1 <= y.Length && kk < 32
    modifies y
    ensures Val(y[..n + w + 1]) == Val(x[..w]) * Pow(2, 32 * n + kk) && y[n + w] == z
  {
    hide Val, Pow;
    ghost var a := x[..w];
    for i := 0 to n
      invariant forall j :: 0 <= j < i ==> y[j] == 0
    {
      y[i] := 0;
    }
    PowParts(kk);
    z := ShiftWords(x, w, y, n, Pow(2, kk), Pow(2, 32 - kk));
    ghost var seg := y[n..n + w];
    y[n + w] := z;
    assert x[..w] == a;
    assert y[..n + w + 1][n..n + w] == seg;
    Shifted(y[..n + w + 1], n, w, z, Val(a), kk);
  }

  /** b * 2^k in a new number.  b has at least one word. */
  method Lshift(b: Bigint, k: nat) returns (r: Bigint)
    requires b.Valid() && 0 < b.wds && b.x[b.wds - 1] != 0
    ensures fresh(r) && fresh(r.x) && r.Valid() && r.Normal() && 0 < r.wds && r.Value() == b.Value() * Pow(2, k)
  {
    hide Val, Pow;
    var n, w := k / 32, b.wds;
    ghost var a := b.x[..w];
    var k1 := RoomFor(b.k, n + w + 1);
    r := new Bigint(k1);
    var y := r.x;
    var z := ShiftInto(b.x, w, y, n, k % 32);
    assert b.x[..w] == a;
    r.wds := if z != 0 then n + w + 1 else n + w;
    if z == 0 {
      assert y[..n + w + 1][..n + w] == y[..n + w];
      DropTop(y[..n + w + 1], n + w);
      ShiftKeepsTop(y[..n + w], n, a, k);
    }
  }

  lemma DropTop(s: seq<word>, n: nat)
    requires |s| == n + 1 && s[n] == 0
    ensures Val(s) == Val(s[..n])
  {
    ValZeros(s, n);
  }

  lemma PowParts(kk: nat)
    requires kk < 32
    ensures 0 < Pow(2, kk) < 0x1_0000_0000 && 0 < Pow(2, 32 - kk) && Pow(2, kk) * Pow(2, 32 - kk) == 0x1_0000_0000
  {
    Pow32();
    PowAdd(2, kk, 32 - kk);
    PowMono(2, kk, 31);
    assert Pow(2, 32) == 2 * Pow(2, 31);
  }

  lemma ShiftKeepsTop(s: seq<word>, n: nat, a: seq<word>, k: nat)
    requires |a| > 0 && a[|a| - 1] != 0 && |s| == n + |a| && n == k / 32 && Val(s) == Val(a) * Pow(2, k)
    ensures s[|s| - 1] != 0
  {
    hide Val, Pow;
    TopWord(a);
    TopWord(s);
    PowOfPow(n);
    PowMono(2, 32 * n, k);
    PowAdd(B, |a| - 1, n);
    PowPositive(n);
    MulMono(Pow(B, |a| - 1), Val(a), Pow(B, n));
    MulMono2(Pow(B, n), Pow(2, k), Val(a));
  }

  lemma MulMono2(a: int, b: int, c: int)
    requires a <= b && 0 <= c
    ensures c * a <= c * b
  {
  }
}
