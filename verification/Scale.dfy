/**
 How dtoa prepares b and S for the digit loop: powers of five, the alignment that gives S four
 leading zero bits, the check of the estimated exponent, and then the digits.
 */
module Scale {
  import opened BigVal
  import opened BigInt
  import D = Digits

  // ----- hi0bits and dshift --------------------------------------------------------------

  /** The leading zero bits of a word, found by halving. */
  method LeadingZeros(w: word) returns (k: nat)
    ensures if w == 0 then k == 32 else k < 32 && Pow(2, 31 - k) <= w < Pow(2, 32 - k)
  {
    hide Pow;
    Powers();
    var x: int := w;
    k := 0;
    if x < 0x1_0000 { k, x := 16, x * 0x1_0000; }
    if x < 0x100_0000 { Moved(w, k, x, 8, 0x100); k, x := k + 8, x * 0x100; }
    if x < 0x1000_0000 { Moved(w, k, x, 4, 0x10); k, x := k + 4, x * 0x10; }
    if x < 0x4000_0000 { Moved(w, k, x, 2, 4); k, x := k + 2, x * 4; }
    if x < 0x8000_0000 {
      Moved(w, k, x, 1, 2);
      k := k + 1;
      if x < 0x4000_0000 { return 32; }
      x := 2 * x;
    }
    Counted(w, k, x);
  }

  lemma Powers()
    ensures Pow(2, 0) == 1 && Pow(2, 1) == 2 && Pow(2, 2) == 4 && Pow(2, 4) == 16 && Pow(2, 8) == 0x100
    ensures Pow(2, 16) == 0x1_0000 && Pow(2, 27) == 0x800_0000 && Pow(2, 28) == 0x1000_0000 && Pow(2, 32) == B
  {
    assert Pow(2, 4) == 16;
    assert Pow(2, 3) == 8;
    PowAdd(2, 4, 4);
    PowAdd(2, 8, 8);
    PowAdd(2, 16, 8);
    PowAdd(2, 24, 4);
    PowAdd(2, 24, 3);
    Pow32();
  }

  lemma Moved(w: int, k: nat, x: int, j: nat, m: int)
    requires x == w * Pow(2, k) && m == Pow(2, j)
    ensures x * m == w * Pow(2, k + j)
  {
    hide Pow;
    PowAdd(2, k, j);
    MulAssoc(w, Pow(2, k), m);
  }

  lemma Counted(w: word, k: nat, x: int)
    requires x == w * Pow(2, k) && k < 32 && 0x8000_0000 <= x < B
    ensures Pow(2, 31 - k) <= w < Pow(2, 32 - k)
  {
    hide Pow;
    Pow32();
    PowAdd(2, k, 32 - k);
    PowAdd(2, 1, 31 - k);
    var a, p := Pow(2, 31 - k), Pow(2, k);
    assert Pow(2, 32 - k) == 2 * a by { D.PowOne(); }
    if w >= 2 * a { MulMono(2 * a, w, p); }
    if w < a { MulMono(w + 1, a, p); }
  }

  /** The shift that, added to p2, brings the top bit of b to bit 27 of its word. */
  method Dshift(b: Bigint, p2: nat) returns (s: nat, ghost lz: nat)
    requires b.Valid() && 0 < b.wds && b.x[b.wds - 1] != 0
    ensures s < 32 && lz < 32 && (s + p2 + 4 - lz) % 32 == 0
    ensures Pow(2, 31 - lz) <= b.x[b.wds - 1] < Pow(2, 32 - lz)
  {
    hide Pow;
    var k := LeadingZeros(b.x[b.wds - 1]);
    lz := k;
    s := (k - 4 - p2) % 32;
  }

  /** A value between 2^27 and 2^28 times a power of the base has its top bit at bit 27. */
  lemma TopBit27(v: seq<word>, m: nat)
    requires 0 < |v| && v[|v| - 1] != 0
    requires 0x800_0000 * Pow(B, m) <= Val(v) < 0x1000_0000 * Pow(B, m)
    ensures |v| == m + 1 && 0x800_0000 <= v[m] < 0x1000_0000
  {
    hide Val, Pow;
    WordCount(v, m);
    ValTop(v);
    if v[m] >= 0x1000_0000 { MulMono(0x1000_0000, v[m], Pow(B, m)); }
    if v[m] < 0x800_0000 { MulMono(v[m] + 1, 0x800_0000, Pow(B, m)); }
  }

  lemma WordCount(v: seq<word>, m: nat)
    requires 0 < |v| && v[|v| - 1] != 0
    requires Pow(B, m) <= Val(v) < B * Pow(B, m)
    ensures |v| == m + 1
  {
    hide Val, Pow;
    TopWord(v);
    ValBound(v);
    PowStep(m);
    if |v| <= m { PowMono(B, |v|, m); }
    if m + 1 < |v| { PowMono(B, m + 1, |v| - 1); }
  }

  /** The shifted value in terms of bit 27. */
  lemma Aligned(v: seq<word>, lz: nat, t: nat, m: nat)
    requires 0 < |v| && lz < 32 && Pow(2, 31 - lz) <= v[|v| - 1] < Pow(2, 32 - lz)
    requires 31 - lz + t == 27 + 32 * m
    ensures 0x800_0000 * Pow(B, |v| - 1 + m) <= Val(v) * Pow(2, t) < 0x1000_0000 * Pow(B, |v| - 1 + m)
  {
    hide Val, Pow;
    var p, w := Pow(B, |v| - 1), v[|v| - 1];
    ValTop(v);
    AlignedPower(31 - lz, t, 27, |v| - 1, m);
    AlignedPower(32 - lz, t, 28, |v| - 1, m);
    Powers();
    Scaled(Pow(2, 31 - lz), w, Pow(2, 32 - lz), p, Val(v), Pow(2, t));
  }

  lemma Scaled(a: int, w: int, c: int, p: int, v: int, t: int)
    requires a <= w < c && 0 < p && w * p <= v < (w + 1) * p && 0 < t
    ensures a * p * t <= v * t < c * p * t
  {
    MulMono(a, w, p);
    MulMono(w + 1, c, p);
    MulMono(a * p, v, t);
    MulMono(v + 1, c * p, t);
  }

  lemma AlignedPower(a: nat, t: nat, c: nat, n: nat, m: nat)
    requires a + t == c + 32 * m
    ensures Pow(2, a) * Pow(B, n) * Pow(2, t) == Pow(2, c) * Pow(B, n + m)
  {
    hide Pow;
    PowAdd(2, a, t);
    PowAdd(2, c, 32 * m);
    PowOfPow(m);
    PowAdd(B, n, m);
    Regroup(Pow(2, a), Pow(B, n), Pow(2, t), Pow(2, c), Pow(B, m));
  }

  lemma Regroup(a: int, n: int, t: int, c: int, m: int)
    requires a * t == c * m
    ensures a * n * t == c * (n * m)
  {
    assert a * n * t == (a * t) * n;
    assert c * (n * m) == (c * m) * n;
  }

  /** lshift when there is something to shift. */
  method ShiftBy(b: Bigint, k: nat) returns (r: Bigint)
    requires b.Valid() && b.Normal() && 0 < b.Value()
    ensures r == b || (fresh(r) && fresh(r.x))
    ensures r.Valid() && r.Normal() && 0 < r.wds && r.Value() == b.Value() * Pow(2, k)
  {
    hide Val, Pow;
    D.NonzeroTop(b);
    if k > 0 {
      r := Lshift(b, k);
    } else {
      r := b;
      PowZero(2);
    }
  }

  /** S is shifted so that its top word has exactly four leading zero bits. */
  method Align(S: Bigint, s2: nat) returns (R: Bigint, i: nat)
    requires S.Valid() && S.Normal() && 0 < S.Value()
    ensures R == S || (fresh(R) && fresh(R.x))
    ensures R.Valid() && R.Normal() && R.Value() == S.Value() * Pow(2, s2 + i)
    ensures 0 < R.wds && 0x800_0000 <= R.x[R.wds - 1] < 0x1000_0000
  {
    hide Val, Pow;
    D.NonzeroTop(S);
    ghost var lz;
    i, lz := Dshift(S, s2);
    R := ShiftBy(S, s2 + i);
    ghost var m := (s2 + i + 4 - lz) / 32;
    Aligned(S.x[..S.wds], lz, s2 + i, m);
    AlignedPositive(S.Value(), s2 + i);
    D.NonzeroTop(R);
    TopBit27(R.x[..R.wds], S.wds - 1 + m);
  }

  lemma AlignedPositive(v: int, t: nat)
    requires 0 < v
    ensures 0 < v * Pow(2, t)
  {
    MulMono(1, v, Pow(2, t));
  }

  // ----- the whole fixed-digit conversion -------------------------------------------------

  method One() returns (p: Bigint)
    ensures fresh(p) && fresh(p.x) && p.Valid() && p.Normal() && p.Value() == 1
  {
    hide Val, Pow;
    p := new Bigint(1);
    PowTwo(0);
    OneWord(1);
    p.x[0] := 1;
    p.wds := 1;
    assert p.x[..1] == [1];
  }

  /** The numerator and the denominator of the number whose digits are wanted. */
  ghost function Ratio(v: nat, twos: nat, fives: nat): nat {
    v * Pow(5, fives) * Pow(2, twos)
  }

  /** Scaling both sides changes neither the order nor the rounding. */
  lemma SameRounding(r: int, x: int, y: int, g: int)
    requires 0 < g && D.NearestEven(r, x * g, y * g)
    ensures D.NearestEven(r, x, y)
  {
    var d := 2 * (r * y - x);
    assert 2 * (r * (y * g) - x * g) == d * g by { Factor(r, x, y, g); }
    if d < -y { MulMono(d + 1, -y, g); }
    if y < d { MulMono(y + 1, d, g); }
  }

  lemma Factor(r: int, x: int, y: int, g: int)
    ensures 2 * (r * (y * g) - x * g) == 2 * (r * y - x) * g
  {
    MulAssoc(r, y, g);
    assert (r * y - x) * g == r * y * g - x * g;
  }

  lemma SameOrder(x: int, y: int, g: int)
    requires 0 < g
    ensures x < y <==> x * g < y * g
    ensures x <= y <==> x * g <= y * g
  {
    if x < y { MulMono(x + 1, y, g); } else { MulMono(y, x, g); }
  }

  lemma RatioShift(v: nat, v5: nat, twos: nat, fives: nat, i: nat)
    requires v5 == v * Pow(5, fives)
    ensures v5 * Pow(2, twos + i) == Ratio(v, twos, fives) * Pow(2, i)
  {
    hide Pow;
    PowAdd(2, twos, i);
    MulAssoc(v5, Pow(2, twos), Pow(2, i));
  }

  lemma Positive(v: nat, k: nat)
    requires 0 < v
    ensures 0 < v * Pow(5, k)
  {
    MulMono(1, v, Pow(5, k));
  }

  /** b * 5^b5 and 5^s5, by way of the cache. */
  method FivesOf(b0: Bigint, b5: nat, s5: nat, cache: Pow5Cache) returns (b: Bigint, t: Bigint)
    requires b0.Valid() && b0.Normal() && cache.Valid() && b0 !in cache.list && b0.x !in cache.Arrays()
    modifies b0, b0.x, cache
    ensures cache.Valid() && old(cache.list) <= cache.list && b !in cache.list && b.x !in cache.Arrays()
    ensures (b == b0 || (fresh(b) && fresh(b.x))) && b.Valid() && b.Normal() && fresh(t) && fresh(t.x)
    ensures t != b && t.x != b.x && t.Valid() && t.Normal() && t.Value() == Pow(5, s5)
    ensures b.Value() == old(b0.Value()) * Pow(5, b5)
  {
    hide Val, Pow, Holds, Fives;
    b := Pow5Mult(b0, b5, cache);
    t := One();
    t := Pow5Mult(t, s5, cache);
  }

  /** b and S scaled by the same power of two, S aligned for the division. */
  method Prepare(b0: Bigint, b2: nat, b5: nat, s2: nat, s5: nat, cache: Pow5Cache)
    returns (b: Bigint, S: Bigint, ghost g: nat)
    requires b0.Valid() && b0.Normal() && 0 < b0.Value()
    requires cache.Valid() && b0 !in cache.list && b0.x !in cache.Arrays()
    modifies b0, b0.x, cache
    ensures cache.Valid() && old(cache.list) <= cache.list && b !in cache.list && b.x !in cache.Arrays()
    ensures b == b0 || (fresh(b) && fresh(b.x))
    ensures S != b && S.x != b.x && b.Valid() && b.Normal() && 0 < b.wds && S.Valid() && S.Normal()
    ensures 0 < S.wds && 0x800_0000 <= S.x[S.wds - 1] < 0x1000_0000
    ensures 0 < g && b.Value() == old(Ratio(b0.Value(), b2, b5)) * g && S.Value() == Ratio(1, s2, s5) * g
  {
    hide Val, Pow, Holds, Fives, Ratio;
    ghost var v := b0.Value();
    var t;
    b, t := FivesOf(b0, b5, s5, cache);
    Positive(v, b5);
    Positive(1, s5);
    var i;
    S, i := Align(t, s2);
    RatioShift(v, b.Value(), b2, b5, i);
    RatioShift(1, t.Value(), s2, s5, i);
    b := ShiftBy(b, b2 + i);
    g := Pow(2, i);
  }

  /** The exponent estimate was one too large exactly when b < S; then b is multiplied by ten. */
  method CheckEstimate(b: Bigint, S: Bigint) returns (r: Bigint, low: bool)
    requires b.Valid() && b.Normal() && S.Valid() && S.Normal() && 0 < b.wds && 0 < S.Value() && b != S && b.x != S.x
    requires S.Value() <= 10 * b.Value() && b.Value() < 10 * S.Value()
    modifies b, b.x
    ensures r == b || (fresh(r) && fresh(r.x))
    ensures low <==> old(b.Value()) < S.Value()
    ensures r.Valid() && r.Normal() && r.Value() == (if low then 10 else 1) * old(b.Value())
    ensures S.Valid() && S.Value() == old(S.Value()) && S.wds == old(S.wds) && S.x[..] == old(S.x[..])
  {
    hide Val, Pow;
    var c := Cmp(b, S);
    low := c < 0;
    r := b;
    if low { r := MultAdd(b, 10, 0); }
  }

  /**
   b * 2^b2 * 5^b5 / (2^s2 * 5^s5) lies in [0.1, 10): the exponent estimate may be one too large.
   The estimate is corrected, and the digits are those of the ratio rounded to n places
   (n1 when the estimate was too large), half-way cases to even.
   */
  method FixedDigits(b0: Bigint, b2: nat, b5: nat, s2: nat, s5: nat, n: nat, n1: nat, cache: Pow5Cache, s: array<char>)
    returns (len: nat, bump: nat, low: bool)
    requires b0.Valid() && b0.Normal() && 0 < b0.Value()
    requires cache.Valid() && b0 !in cache.list && b0.x !in cache.Arrays()
    requires 0 < n <= s.Length && 0 < n1 <= s.Length
    requires Ratio(1, s2, s5) <= 10 * Ratio(b0.Value(), b2, b5) && Ratio(b0.Value(), b2, b5) < 10 * Ratio(1, s2, s5)
    modifies b0, b0.x, cache, s
    ensures cache.Valid() && old(cache.list) <= cache.list
    ensures low <==> old(Ratio(b0.Value(), b2, b5)) < Ratio(1, s2, s5)
    ensures var m := if low then n1 else n;
      && 0 < len <= m && bump <= 1 && D.IsDigits(s[..len]) && s[0] != '0' && s[len - 1] != '0'
      && D.NearestEven(D.Dec(s[..len]) * Pow(10, m + bump - len),
           (if low then 10 else 1) * old(Ratio(b0.Value(), b2, b5)) * Pow(10, m - 1), Ratio(1, s2, s5))
  {
    hide Val, Pow, Holds, Fives, Ratio, D.Dec, D.NearestEven;
    ghost var x, y := Ratio(b0.Value(), b2, b5), Ratio(1, s2, s5);
    var b, S;
    ghost var g;
    b, S, g := Prepare(b0, b2, b5, s2, s5, cache);
    SameOrder(x, y, g);
    Tenfold(x, y, g);
    b, low := CheckEstimate(b, S);
    var m := if low then n1 else n;
    len, bump := D.Digits(b, S, s, m);
    ghost var f := if low then 10 else 1;
    assert f * (x * g) * Pow(10, m - 1) == f * x * Pow(10, m - 1) * g by { Reorder(f, x, g, Pow(10, m - 1)); }
    SameRounding(D.Dec(s[..len]) * Pow(10, m + bump - len), f * x * Pow(10, m - 1), y, g);
  }

  lemma Tenfold(x: int, y: int, g: int)
    requires 0 < g && 0 < y <= 10 * x && x < 10 * y
    ensures 0 < y * g <= 10 * (x * g) && x * g < 10 * (y * g)
  {
    MulMono(1, y, g);
    MulMono(y, 10 * x, g);
    MulMono(x + 1, 10 * y, g);
  }

  lemma Reorder(f: int, x: int, g: int, p: int)
    ensures f * (x * g) * p == f * x * p * g
  {
    assert f * (x * g) == f * x * g by { MulAssoc(f, x, g); }
    assert f * x * g * p == f * x * (g * p) by { MulAssoc(f * x, g, p); }
    MulAssoc(f * x, p, g);
  }
}
