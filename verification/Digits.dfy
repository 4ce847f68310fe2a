/**
 The fixed-digit loop of dtoa and the rounding of its last digit.  The text produced is the
 decimal nearest to b/S, half-way cases to the even neighbour.
 */
module Digits {
  import opened BigVal
  import opened BigInt

  /** What the digit text stands for, read as a decimal integer. */
  ghost function Dec(s: seq<char>): int {
    if |s| == 0 then 0 else 10 * Dec(s[..|s| - 1]) + Digit(s[|s| - 1])
  }

  function Digit(c: char): int {
    c as int - '0' as int
  }

  ghost predicate IsDigits(s: seq<char>) {
    forall i :: 0 <= i < |s| ==> '0' <= s[i] <= '9'
  }

  /** r is the integer nearest to x/v, and the even one when two are equally near. */
  ghost predicate NearestEven(r: int, x: int, v: int) {
    && -v <= 2 * (r * v - x) <= v
    && (2 * (r * v - x) == v || 2 * (r * v - x) == -v ==> r % 2 == 0)
  }

  /** There is only one such integer. */
  lemma NearestIsUnique(r: int, s: int, x: int, v: int)
    requires 0 < v && NearestEven(r, x, v) && NearestEven(s, x, v)
    ensures r == s
  {
    Spacing(r, s, v);
    Spacing(s, r, v);
  }

  lemma Spacing(r: int, s: int, v: int)
    requires 0 < v
    ensures r >= s + 2 ==> r * v >= s * v + 2 * v
    ensures r == s + 1 ==> r * v == s * v + v
  {
    if r >= s + 2 { MulMono(s + 2, r, v); }
  }

  lemma DecSnoc(s: seq<char>, i: nat)
    requires i < |s|
    ensures Dec(s[..i + 1]) == 10 * Dec(s[..i]) + Digit(s[i])
  {
    assert s[..i + 1][..i] == s[..i];
  }

  lemma PowTen(e: nat)
    ensures Pow(10, e + 1) == 10 * Pow(10, e)
  {
  }

  lemma TenTimes(a: int, p: int, q: int)
    requires q == 10 * p
    ensures 10 * a * p == a * q
  {
  }

  // ----- rounding the last digit -------------------------------------------------------

  /** Add one in the last place: nines at the end go, and a text of nines becomes 1, one place up. */
  method RoundUp(s: array<char>, n: nat) returns (len: nat, bump: nat)
    requires 0 < n <= s.Length && IsDigits(s[..n]) && s[0] != '0'
    modifies s
    ensures 0 < len <= n && IsDigits(s[..len]) && s[0] != '0' && s[len - 1] != '0'
    ensures bump == (if forall i :: 0 <= i < n ==> old(s[i]) == '9' then 1 else 0)
    ensures Dec(s[..len]) * Pow(10, n + bump - len) == old(Dec(s[..n])) + 1
  {
    hide Pow, Dec;
    ghost var d := s[..n];
    len, bump := n - 1, 0;
    Whole(d, n);
    while s[len] == '9'
      invariant len < n && s[..n] == d && IsDigits(d)
      invariant forall i :: len < i < n ==> d[i] == '9'
      invariant Dec(d) + 1 == (Dec(d[..len + 1]) + 1) * Pow(10, n - 1 - len)
      decreases len
    {
      Carried(d, len);
      if len == 0 {
        s[0] := '1';
        One(s[..1]);
        return 1, 1;
      }
      len := len - 1;
    }
    assert s[len] == d[len];
    Bumped(d, len);
    s[len] := (s[len] as int + 1) as char;
    len := len + 1;
    assert forall j :: 0 <= j < len - 1 ==> s[j] == d[j];
    assert s[..len] == d[..len - 1] + [(d[len - 1] as int + 1) as char];
  }

  lemma One(s: seq<char>)
    requires |s| == 1 && s[0] == '1'
    ensures Dec(s) == 1
  {
    assert s[..0] == [];
  }

  lemma Whole(d: seq<char>, n: nat)
    requires |d| == n
    ensures d[..n] == d && Pow(10, 0) == 1
  {
  }

  lemma Carried(d: seq<char>, len: nat)
    requires len < |d| && d[len] == '9' && Dec(d) + 1 == (Dec(d[..len + 1]) + 1) * Pow(10, |d| - 1 - len)
    ensures Dec(d) + 1 == (Dec(d[..len]) + 1) * Pow(10, |d| - len)
    ensures len == 0 ==> Dec(d) + 1 == Pow(10, |d|)
  {
    DecSnoc(d, len);
    PowTen(|d| - 1 - len);
    TenTimes(Dec(d[..len]) + 1, Pow(10, |d| - 1 - len), Pow(10, |d| - len));
    if len == 0 { assert d[..0] == []; }
  }

  lemma Bumped(d: seq<char>, len: nat)
    requires len < |d| && '0' <= d[len] < '9'
    ensures Dec(d[..len] + [(d[len] as int + 1) as char]) == Dec(d[..len + 1]) + 1
  {
    var t := d[..len] + [(d[len] as int + 1) as char];
    assert t[..len] == d[..len];
    DecSnoc(d, len);
  }

  /** Drop the zeros at the end. */
  method TrimZeros(s: array<char>, n: nat) returns (len: nat)
    requires 0 < n <= s.Length && s[0] != '0'
    ensures 0 < len <= n && s[len - 1] != '0'
    ensures Dec(s[..len]) * Pow(10, n - len) == Dec(s[..n])
  {
    hide Pow, Dec;
    len := n;
    Whole(s[..n], n);
    while s[len - 1] == '0'
      invariant 0 < len <= n
      invariant Dec(s[..len]) * Pow(10, n - len) == Dec(s[..n])
      decreases len
    {
      Trimmed(s[..n], len);
      assert s[..n][..len] == s[..len] && s[..n][..len - 1] == s[..len - 1];
      len := len - 1;
    }
  }

  lemma Trimmed(d: seq<char>, len: nat)
    requires 0 < len <= |d| && d[len - 1] == '0'
    ensures Dec(d[..len - 1]) * Pow(10, |d| - len + 1) == Dec(d[..len]) * Pow(10, |d| - len)
  {
    DecSnoc(d, len - 1);
    PowTen(|d| - len);
    TenTimes(Dec(d[..len - 1]), Pow(10, |d| - len), Pow(10, |d| - len + 1));
  }

  // ----- the digit loop ----------------------------------------------------------------

  /** After the digits d, r is what is left of x, v being the unit of the last digit. */
  ghost predicate Emitted(d: seq<char>, x: int, r: int, v: int) {
    && 0 < |d| && IsDigits(d) && d[0] != '0'
    && x * Pow(10, |d| - 1) == Dec(d) * v + r && 0 <= r < v
  }

  lemma FirstDigit(c: char, x: int, q: nat, r: int, v: int)
    requires c as int == 48 + q && x == q * v + r && 0 <= r < v && v <= x < 10 * v
    ensures Emitted([c], x, r, v)
  {
    Below(q, r, v, 10);
    One0([c]);
  }

  lemma One0(s: seq<char>)
    requires |s| == 1
    ensures Dec(s) == Digit(s[0]) && Pow(10, 0) == 1
  {
    assert s[..0] == [];
  }

  lemma Below(q: int, r: int, v: int, m: int)
    requires q * v + r < m * v && 0 <= r && 0 < v
    ensures q < m
  {
    if m <= q { MulMono(m, q, v); }
  }

  lemma NextDigit(d: seq<char>, c: char, x: int, r: int, q: nat, r': int, v: int)
    requires Emitted(d, x, r, v) && c as int == 48 + q && 10 * r == q * v + r' && 0 <= r' < v
    ensures Emitted(d + [c], x, r', v) && (r > 0 && r' == 0 ==> c != '0')
  {
    Below(q, r', v, 10);
    var e := d + [c];
    assert e[..|d|] == d;
    PowTen(|d| - 1);
    NextAlgebra(x, Pow(10, |d| - 1), Dec(d), v, r, q, r');
    assert Dec(e) == 10 * Dec(d) + q;
  }

  lemma NextAlgebra(x: int, p: int, d: int, v: int, r: int, q: int, r': int)
    requires x * p == d * v + r && 10 * r == q * v + r'
    ensures x * (10 * p) == (10 * d + q) * v + r'
  {
    assert x * (10 * p) == 10 * (x * p);
    assert (10 * d + q) * v == 10 * (d * v) + q * v;
  }

  /** Rounding by the comparison of twice the remainder with v is rounding to nearest, ties to even. */
  lemma RoundedUp(d: int, r: int, v: int, x: int)
    requires x == d * v + r && 0 <= r < v && (2 * r > v || (2 * r == v && d % 2 == 1))
    ensures NearestEven(d + 1, x, v)
  {
    assert (d + 1) * v == d * v + v;
  }

  lemma RoundedDown(d: int, r: int, v: int, x: int)
    requires x == d * v + r && 0 <= r < v && (2 * r < v || (2 * r == v && d % 2 == 0))
    ensures NearestEven(d, x, v)
  {
  }

  /** The last character tells whether the number is odd. */
  lemma LastDigitParity(s: seq<char>)
    requires 0 < |s|
    ensures Dec(s) % 2 == Digit(s[|s| - 1]) % 2
  {
  }

  /** The remainder keeps to the words of the divisor. */
  lemma FitsDivisor(u: seq<word>, v: seq<word>)
    requires 0 < |v| && v[|v| - 1] < 0x1000_0000 && (|u| > 1 ==> u[|u| - 1] != 0)
    requires Val(u) < 10 * Val(v)
    ensures |u| <= |v|
  {
    hide Val, Pow;
    ValTop(v);
    if |u| > |v| {
      TopWord(u);
      PowMono(B, |v|, |u| - 1);
      PowStep(|v| - 1);
      MulMono(v[|v| - 1] + 1, 0x1000_0000, Pow(B, |v| - 1));
    }
  }

  /** One digit: the quotient is written and b keeps the remainder. */
  method PutDigit(b: Bigint, S: Bigint, s: array<char>, i: nat) returns (q: nat)
    requires b.Valid() && S.Valid() && b.Normal() && b.x != S.x && b != S && i < s.Length
    requires 0 < S.wds && 0x800_0000 <= S.x[S.wds - 1] < 0x1000_0000 && b.Value() < 10 * S.Value()
    modifies b, b.x, s
    ensures b.Valid() && b.Normal() && S.Valid()
    ensures old(b.Value()) == q * S.Value() + b.Value() && b.Value() < S.Value() == old(S.Value())
    ensures s[i] as int == 48 + q && q < 10 && s[..i] == old(s[..i])
  {
    hide Val, Pow;
    ghost var u, v := b.Value(), S.Value();
    FitsDivisor(b.x[..b.wds], S.x[..S.wds]);
    q := Quorem(b, S);
    Below(q, b.Value(), v, 10);
    s[i] := ('0' as int + q) as char;
  }

  /** The digits of b/S, at most n of them and fewer when the quotient is exact. */
  method Generate(b0: Bigint, S: Bigint, s: array<char>, n: nat) returns (i: nat, b: Bigint, exact: bool)
    requires b0.Valid() && S.Valid() && b0.Normal() && b0.x != S.x && b0 != S && 0 < n <= s.Length
    requires 0 < S.wds && 0x800_0000 <= S.x[S.wds - 1] < 0x1000_0000
    requires S.Value() <= b0.Value() < 10 * S.Value()
    modifies b0, b0.x, s
    ensures b.Valid() && b.Normal() && b != S && b.x != S.x && S.Valid() && S.Value() == old(S.Value())
    ensures 0 < i <= n && Emitted(s[..i], old(b0.Value()), b.Value(), S.Value())
    ensures exact <==> b.Value() == 0
    ensures if exact then s[i - 1] != '0' else i == n
  {
    hide Val, Pow, Dec, Emitted;
    ghost var x, v := b0.Value(), S.Value();
    b := b0;
    var q := PutDigit(b, S, s, 0);
    FirstDigit(s[0], x, q, b.Value(), v);
    assert s[..1] == [s[0]];
    i := 1;
    ZeroTest(b);
    exact := b.x[0] == 0 && b.wds <= 1;
    while !exact && i < n
      invariant b == b0 || (fresh(b) && fresh(b.x))
      invariant b.Valid() && b.Normal() && b != S && b.x != S.x && S.Valid() && S.Value() == v
      invariant 0x800_0000 <= S.x[S.wds - 1] < 0x1000_0000
      invariant 0 < i <= n && Emitted(s[..i], x, b.Value(), v)
      invariant exact <==> b.Value() == 0
      invariant exact ==> s[i - 1] != '0'
      decreases n - i
    {
      b, exact := OneMore(b, S, s, i, x);
      i := i + 1;
    }
  }

  /** One turn of the loop. */
  method OneMore(b0: Bigint, S: Bigint, s: array<char>, i: nat, ghost x: int) returns (b: Bigint, exact: bool)
    requires b0.Valid() && b0.Normal() && b0 != S && b0.x != S.x && S.Valid() && 0 < i < s.Length
    requires 0 < S.wds && 0x800_0000 <= S.x[S.wds - 1] < 0x1000_0000 && b0.Value() > 0
    requires Emitted(s[..i], x, b0.Value(), S.Value())
    modifies b0, b0.x, s
    ensures b == b0 || (fresh(b) && fresh(b.x))
    ensures b.Valid() && b.Normal() && b != S && b.x != S.x && Emitted(s[..i + 1], x, b.Value(), S.Value())
    ensures (exact <==> b.Value() == 0) && (exact ==> s[i] != '0')
  {
    hide Val, Pow, Dec, Emitted;
    ghost var r, d, v := b0.Value(), s[..i], S.Value();
    EmittedRest(d, x, r, v);
    b := MultAdd(b0, 10, 0);
    var q := PutDigit(b, S, s, i);
    NextDigit(d, s[i], x, r, q, b.Value(), v);
    assert s[..i + 1] == d + [s[i]];
    ZeroTest(b);
    exact := b.x[0] == 0 && b.wds <= 1;
  }

  /** Whether what is left is more than half, or half behind an odd digit. */
  method RoundsUp(b0: Bigint, S: Bigint, s: array<char>, n: nat) returns (up: bool)
    requires b0.Valid() && b0.Normal() && b0 != S && b0.x != S.x && S.Valid() && 0 < S.wds && S.x[S.wds - 1] != 0
    requires 0 < n <= s.Length && IsDigits(s[..n]) && b0.Value() > 0
    ensures up <==> 2 * b0.Value() > S.Value() || (2 * b0.Value() == S.Value() && Dec(s[..n]) % 2 == 1)
  {
    hide Val, Pow, Dec;
    NonzeroTop(b0);
    var b := Lshift(b0, 1);
    assert Pow(2, 1) == 2 by { PowOne(); }
    var j := Cmp(b, S);
    LastDigitParity(s[..n]);
    up := j > 0 || (j == 0 && Digit(s[n - 1]) % 2 == 1);
  }

  lemma EmittedRest(d: seq<char>, x: int, r: int, v: int)
    requires Emitted(d, x, r, v)
    ensures r < v
  {
  }

  lemma ZeroTest(b: Bigint)
    requires b.Valid() && b.Normal()
    ensures b.x.Length > 0 && (b.x[0] == 0 && b.wds <= 1 <==> b.Value() == 0)
  {
    var s := b.x[..b.wds];
    if b.wds == 1 {
      assert Val(s) == s[0] + B * Val(s[1..]);
    } else if b.wds > 1 {
      TopWord(s);
      PowPositive(|s| - 1);
      MulMono(1, s[|s| - 1], Pow(B, |s| - 1));
    }
  }

  lemma NonzeroTop(b: Bigint)
    requires b.Valid() && b.Normal() && b.Value() > 0
    ensures 0 < b.wds && b.x[b.wds - 1] != 0
  {
    if b.wds == 1 { assert Val(b.x[..1]) == b.x[..1][0] + B * Val(b.x[..1][1..]); }
  }

  lemma PowOne()
    ensures Pow(2, 1) == 2
  {
    assert Pow(2, 1) == 2 * Pow(2, 0);
  }

  /** With nothing left over, the digits padded with zeros are the quotient itself. */
  lemma Exact(d: seq<char>, x: int, v: int, n: nat)
    requires Emitted(d, x, 0, v) && |d| <= n
    ensures NearestEven(Dec(d) * Pow(10, n - |d|), x * Pow(10, n - 1), v)
  {
    hide Pow;
    PowAdd(10, |d| - 1, n - |d|);
    ExactAlgebra(x, Pow(10, |d| - 1), Pow(10, n - |d|), Dec(d), v);
  }

  lemma ExactAlgebra(x: int, p: int, q: int, d: int, v: int)
    requires x * p == d * v
    ensures x * (p * q) == (d * q) * v
  {
    MulAssoc(x, p, q);
    assert (d * v) * q == (d * q) * v;
  }

  /** Digits and rounding together: the correctly rounded decimal, without zeros at the end. */
  method Digits(b0: Bigint, S: Bigint, s: array<char>, n: nat) returns (len: nat, bump: nat)
    requires b0.Valid() && S.Valid() && b0.Normal() && b0.x != S.x && b0 != S && 0 < n <= s.Length
    requires 0 < S.wds && 0x800_0000 <= S.x[S.wds - 1] < 0x1000_0000
    requires S.Value() <= b0.Value() < 10 * S.Value()
    modifies b0, b0.x, s
    ensures 0 < len <= n && bump <= 1 && IsDigits(s[..len]) && s[0] != '0' && s[len - 1] != '0'
    ensures NearestEven(Dec(s[..len]) * Pow(10, n + bump - len), old(b0.Value()) * Pow(10, n - 1), old(S.Value()))
  {
    hide Val, Pow, Dec, NearestEven;
    ghost var x, v := b0.Value(), S.Value();
    var i, b, exact := Generate(b0, S, s, n);
    ghost var d, r := s[..i], b.Value();
    if exact {
      Exact(d, x, v, n);
      return i, 0;
    }
    var up := RoundsUp(b, S, s, n);
    if up {
      RoundedUp(Dec(d), r, v, x * Pow(10, n - 1));
      len, bump := RoundUp(s, n);
    } else {
      RoundedDown(Dec(d), r, v, x * Pow(10, n - 1));
      bump := 0;
      len := TrimZeros(s, n);
    }
  }
}
