/** Little-endian numbers in base 2^32 and the algebra that the word loops of dtoa.c rest on. */
module BigVal {

  const B: nat := 0x1_0000_0000

  type word = w: int | 0 <= w < 0x1_0000_0000

  function Pow(b: nat, e: nat): (r: nat)
    ensures b > 0 ==> r > 0
  {
    if e == 0 then 1 else b * Pow(b, e - 1)
  }

  lemma {:induction false} PowAdd(b: nat, m: nat, n: nat)
    ensures Pow(b, m + n) == Pow(b, m) * Pow(b, n)
  {
    if m > 0 {
      PowAdd(b, m - 1, n);
      MulAssoc(b, Pow(b, m - 1), Pow(b, n));
    }
  }

  lemma MulAssoc(a: int, b: int, c: int)
    ensures a * (b * c) == (a * b) * c
  {
  }

  lemma MulMono(a: int, b: int, c: int)
    requires a <= b && 0 <= c
    ensures a * c <= b * c
  {
  }

  /** The number a word sequence stands for, least significant word first. */
  ghost function Val(s: seq<word>): nat {
    if s == [] then 0 else Val(s[..|s| - 1]) + s[|s| - 1] * Pow(B, |s| - 1)
  }

  lemma ValSnoc(s: seq<word>, i: nat)
    requires i < |s|
    ensures Val(s[..i + 1]) == Val(s[..i]) + s[i] * Pow(B, i)
  {
    assert s[..i + 1][..i] == s[..i];
  }

  lemma {:induction false} ValBound(s: seq<word>)
    ensures Val(s) < Pow(B, |s|)
  {
    if s != [] {
      var n := |s| - 1;
      ValBound(s[..n]);
      MulMono(s[n], B - 1, Pow(B, n));
    }
  }

  /** The top word bounds the value from both sides. */
  lemma ValTop(s: seq<word>)
    requires s != []
    ensures var t := s[|s| - 1]; t * Pow(B, |s| - 1) <= Val(s) < (t + 1) * Pow(B, |s| - 1)
  {
    ValBound(s[..|s| - 1]);
  }

  lemma {:induction false} ValSplit(s: seq<word>, i: nat)
    requires i <= |s|
    ensures Val(s) == Val(s[..i]) + Pow(B, i) * Val(s[i..])
  {
    var n := |s| - 1;
    if i == |s| {
      assert s[..i] == s;
    } else {
      var t := s[..n];
      ValSplit(t, i);
      assert t[..i] == s[..i];
      assert s[i..][..n - i] == t[i..];
      PowAdd(B, i, n - i);
      assert Val(s[i..]) == Val(t[i..]) + s[n] * Pow(B, n - i);
      SplitAlgebra(Pow(B, i), Val(t[i..]), s[n], Pow(B, n - i));
    }
  }

  lemma SplitAlgebra(p: int, v: int, d: int, q: int)
    ensures p * (v + d * q) == p * v + d * (p * q)
  {
    MulAssoc(p, d, q);
    MulAssoc(d, p, q);
  }

  /** The words from i on are zero. */
  ghost predicate Zero(x: seq<word>, i: nat) {
    forall k :: i <= k < |x| ==> x[k] == 0
  }

  /** Leading zero words do not matter. */
  lemma {:induction false} ValZeros(s: seq<word>, i: nat)
    requires i <= |s| && forall k :: i <= k < |s| ==> s[k] == 0
    ensures Val(s) == Val(s[..i])
  {
    if i == |s| {
      assert s[..i] == s;
    } else {
      ValZeros(s[..|s| - 1], i);
      assert s[..|s| - 1][..i] == s[..i];
    }
  }

  /** One word of multiply-and-add: v' words done with carry c, next word x, result digit d and carry c'. */
  lemma MulAddWord(v': int, c: int, p: int, v: int, m: int, a: int, x: int, d: int, c': int)
    requires v' + c * p == v * m + a && d + c' * B == x * m + c
    ensures (v' + d * p) + c' * (B * p) == (v + x * p) * m + a
  {
    MulAssoc(c', B, p);
    assert (d + c' * B) * p == d * p + c' * B * p;
    assert (x * m + c) * p == x * m * p + c * p;
    assert (v + x * p) * m == v * m + x * p * m;
    assert x * p * m == x * m * p;
  }

  /** A top word is nonzero exactly when the value needs all the words. */
  lemma TopWord(s: seq<word>)
    requires s != []
    ensures s[|s| - 1] != 0 <==> Val(s) >= Pow(B, |s| - 1)
  {
    ValTop(s);
    if s[|s| - 1] > 0 { MulMono(1, s[|s| - 1], Pow(B, |s| - 1)); }
  }

  lemma {:induction false} PowMono(b: nat, m: nat, n: nat)
    requires b > 0 && m <= n
    ensures Pow(b, m) <= Pow(b, n)
  {
    if m < n {
      PowMono(b, m, n - 1);
      MulMono(1, b, Pow(b, n - 1));
    }
  }

  /** One word of adding a row y * a to t: the carry moves up. */
  lemma RowWord(v': int, c: int, p: int, u: int, v: int, y: int, x: int, t: int, d: int, c': int)
    requires v' + c * p == u + v * y && d + c' * B == x * y + t + c
    ensures (v' + d * p) + c' * (B * p) == (u + t * p) + (v + x * p) * y
  {
    MulAssoc(c', B, p);
    assert (d + c' * B) * p == d * p + c' * B * p;
    assert (x * y + t + c) * p == x * y * p + t * p + c * p;
    assert (v + x * p) * y == v * y + x * p * y;
    assert x * p * y == x * y * p;
  }

  /** A row added at word k changes the number by B^k times the row. */
  lemma RowAdded(c: seq<word>, c': seq<word>, k: nat, wa: nat, row: nat)
    requires |c| == |c'| && k + wa < |c| && c[..k] == c'[..k]
    requires Zero(c, k + wa) && Zero(c', k + wa + 1)
    requires Val(c'[k..k + wa + 1]) == Val(c[k..k + wa]) + row
    ensures Val(c') == Val(c) + Pow(B, k) * row
  {
    hide Val, Pow, Zero;
    HighPart(c, k, wa);
    HighPart(c', k, wa + 1);
    RowFinal(Val(c[..k]), Pow(B, k), Val(c[k..k + wa]), row, Val(c'[k..k + wa + 1]));
  }

  lemma HighPart(c: seq<word>, k: nat, n: nat)
    requires k + n <= |c| && Zero(c, k + n)
    ensures Val(c) == Val(c[..k]) + Pow(B, k) * Val(c[k..k + n])
  {
    hide Val, Pow;
    ValSplit(c, k);
    ValZeros(c[k..], n);
    assert c[k..][..n] == c[k..k + n];
  }

  lemma RowFinal(low: int, p: int, u: int, row: int, u': int)
    requires u' == u + row
    ensures low + p * u' == (low + p * u) + p * row
  {
  }

  /** With equal words above i, word i decides. */
  lemma CompareAt(s: seq<word>, t: seq<word>, i: nat)
    requires i < |s| == |t| && s[i + 1..] == t[i + 1..] && s[i] < t[i]
    ensures Val(s) < Val(t)
  {
    hide Val, Pow;
    ValSplit(s, i + 1);
    ValSplit(t, i + 1);
    ValTop(s[..i + 1]);
    ValTop(t[..i + 1]);
    MulMono(s[i] + 1, t[i], Pow(B, i));
  }

  /** Normal numbers with fewer words are smaller. */
  lemma FewerWords(s: seq<word>, t: seq<word>)
    requires |s| < |t| && (|t| > 1 ==> t[|t| - 1] != 0) && 0 < Val(s) + Val(t)
    ensures Val(s) < Val(t)
  {
    if |t| > 1 {
      ValBound(s);
      TopWord(t);
      PowMono(B, |s|, |t| - 1);
    }
  }

  /** One word of subtracting q times a word: carry c and borrow r combined in e. */
  lemma MulSubWord(v': int, e: int, p: int, u: int, v: int, q: int, x: int, t: int, d: int, e': int)
    requires v' + q * v == u + e * p && d + q * x + e == t + e' * B
    ensures (v' + d * p) + q * (v + x * p) == (u + t * p) + e' * (B * p)
  {
    MulAssoc(e', B, p);
    assert (d + q * x + e) * p == d * p + q * x * p + e * p;
    assert (t + e' * B) * p == t * p + e' * B * p;
    assert q * (v + x * p) == q * v + q * (x * p);
    MulAssoc(q, x, p);
  }

  lemma NoBorrowLeft(v: int, m: int, u: int, e: nat, p: int)
    requires v + m == u + e * p && v < p && m <= u && 0 <= v
    ensures e == 0 && v == u - m
  {
    if e > 0 { MulMono(1, e, p); }
  }

  /** Dividing the top words, with the divisor's rounded up, gives the quotient or one less. */
  lemma QuotientEstimate(b: int, v: int, t: nat, s: nat, p: nat, q: nat)
    requires 0 < p && t * p <= b < (t + 1) * p && s * p <= v < (s + 1) * p
    requires 0 < s && q * (s + 1) <= t < (q + 1) * (s + 1) && q + 1 <= s
    ensures q * v <= b < (q + 2) * v
  {
    MulMono(v, (s + 1) * p, q);
    MulAssoc(q, s + 1, p);
    MulMono(q * (s + 1), t, p);
    assert (q + 1) * (s + 1) == (q + 1) * s + (q + 1) <= (q + 2) * s by { Spread(q, s); }
    MulMono(t + 1, (q + 2) * s, p);
    MulAssoc(q + 2, s, p);
    MulMono(s * p, v, q + 2);
  }

  lemma Spread(q: nat, s: nat)
    requires q + 1 <= s
    ensures (q + 1) * (s + 1) == (q + 1) * s + (q + 1) && (q + 2) * s == (q + 1) * s + s
  {
  }

  /** Unsigned division of the source. */
  function Quot(t: nat, d: nat): (q: nat)
    requires 0 < d
    ensures q * d <= t < (q + 1) * d
  {
    t / d
  }

  lemma SmallQuotient(t: nat, s: nat)
    requires t < 0x1_0000_0000 && 0x800_0000 <= s
    ensures Quot(t, s + 1) <= 31
  {
    hide Quot;
    var q := Quot(t, s + 1);
    if q >= 32 { MulMono(32, q, s + 1); }
  }

  lemma EstimateWords(u: seq<word>, v: seq<word>, q: nat)
    requires 0 < |u| == |v| && 0x800_0000 <= v[|v| - 1] && q == Quot(u[|u| - 1], v[|v| - 1] as nat + 1)
    ensures q <= 31 && q * Val(v) <= Val(u) && Val(u) < (q + 2) * Val(v)
  {
    hide Val, Pow, Quot;
    var n := |u| - 1;
    SmallQuotient(u[n], v[n]);
    ValTop(u);
    ValTop(v);
    PowPositive(n);
    QuotientEstimate(Val(u), Val(v), u[n], v[n], Pow(B, n), q);
  }

  lemma PowPositive(n: nat)
    ensures 0 < Pow(B, n)
  {
  }

  /** Shifting one word by a power m of two, with m * h = 2^32: the high part moves to the next word. */
  lemma ShiftWord(x: word, m: nat, h: nat, z: nat)
    requires 0 < m && 0 < h && m * h == 0x1_0000_0000 && z < m
    ensures var q := Quot(x, h);
            && q < m && (x * m) % 0x1_0000_0000 + z < 0x1_0000_0000
            && ((x * m) % 0x1_0000_0000 + z) + q * 0x1_0000_0000 == x * m + z
  {
    hide Quot;
    var q := Quot(x, h);
    var r := x - q * h;
    assert q * h + r == x && 0 <= r < h by { assert (q + 1) * h == q * h + h; }
    if q >= m { MulMono(m, q, h); }
    assert x * m == q * (h * m) + r * m by { assert (q * h + r) * m == q * h * m + r * m; MulAssoc(q, h, m); }
    MulMono(r, h - 1, m);
    assert (h - 1) * m == h * m - m;
    ModOf(x * m, q, r * m);
  }

  lemma ModOf(a: int, q: int, r: int)
    requires a == q * 0x1_0000_0000 + r && 0 <= r < 0x1_0000_0000
    ensures a % 0x1_0000_0000 == r
  {
  }

  /** Low zero words multiply by a power of the base. */
  lemma LowZeros(s: seq<word>, n: nat)
    requires n <= |s| && forall i :: 0 <= i < n ==> s[i] == 0
    ensures Val(s) == Pow(B, n) * Val(s[n..])
  {
    hide Val, Pow;
    ValSplit(s, n);
    ValZeros(s[..n], 0);
    ValEmpty(s[..n][..0]);
  }

  lemma ValEmpty(s: seq<word>)
    requires s == []
    ensures Val(s) == 0
  {
  }

  lemma {:induction false} PowOfPow(n: nat)
    ensures Pow(B, n) == Pow(2, 32 * n)
  {
    if n > 0 {
      PowOfPow(n - 1);
      PowAdd(2, 32, 32 * (n - 1));
      Pow32();
    }
  }

  lemma Pow32()
    ensures Pow(2, 32) == 0x1_0000_0000
  {
    assert Pow(2, 4) == 16;
    PowAdd(2, 4, 4);
    PowAdd(2, 8, 8);
    PowAdd(2, 16, 16);
  }
}
