/**
 JSON texts as sections 2 to 7 of RFC 8259 lay them down, independently of how they are written and read here.  What is
 encoded is such a text for its value; and a text is decoded, to the value it stands for, exactly when it is such a
 text nested no deeper than allowed.  The code is more lenient than the RFC in three ways, and so is this grammar:
 control characters may stand in strings, numbers may start with zeros, and a zero byte ends a text.
 */
module JsonGrammar {
  import opened Octets
  import opened Json

  function Ascii(s: string): seq<byte>
    requires forall i :: 0 <= i < |s| ==> s[i] as int < 128
  {
    seq(|s|, i requires 0 <= i < |s| => s[i] as int)
  }

  // ----- characters -----------------------------------------------------------------------------------------

  predicate Trail(b: byte) {
    0x80 <= b <= 0xbf
  }

  predicate Surrogate(c: int) {
    0xd800 <= c <= 0xdfff
  }

  /** Section 3 of RFC 3629: the first byte says how many follow, each of them adds six bits, and the form is the
      shortest; surrogates have none. */
  ghost predicate IsUtf8(s: seq<byte>, c: int) {
    !Surrogate(c) &&
    match |s| {
      case 1 => s[0] <= 0x7f && c == s[0]
      case 2 => 0xc0 <= s[0] <= 0xdf && Trail(s[1]) && c == Bits(s[0], 0xc0) * 0x40 + Bits(s[1], 0x80) && 0x80 <= c
      case 3 =>
        && 0xe0 <= s[0] <= 0xef && Trail(s[1]) && Trail(s[2]) && 0x800 <= c
        && c == Bits(s[0], 0xe0) * 0x1000 + Bits(s[1], 0x80) * 0x40 + Bits(s[2], 0x80)
      case 4 =>
        && 0xf0 <= s[0] <= 0xf7 && Trail(s[1]) && Trail(s[2]) && Trail(s[3]) && 0x1_0000 <= c <= 0x10_ffff
        && c == Bits(s[0], 0xf0) * 0x4_0000 + Bits(s[1], 0x80) * 0x1000 + Bits(s[2], 0x80) * 0x40 + Bits(s[3], 0x80)
      case _ => false
    }
  }

  function Bits(b: byte, mark: int): int {
    b - mark
  }

  /** The bytes written for a code point are its encoding, and it has no other. */
  lemma Utf8Exact(s: seq<byte>, c: int)
    requires 0 <= c < 0x11_0000
    ensures IsUtf8(s, c) <==> s == Utf8(c) && !Surrogate(c)
  {
    hide Utf8;
    if !Surrogate(c) { Utf8Good(c); }
    if IsUtf8(s, c) { Utf8Only(s, c); }
  }

  lemma Utf8Good(c: int)
    requires 0 <= c < 0x11_0000 && !Surrogate(c)
    ensures IsUtf8(Utf8(c), c)
  {
    if 0x1_0000 <= c {
      FourParts(c);
    } else if 0x800 <= c {
      ThreeParts(c);
    }
  }

  lemma ThreeParts(c: int)
    requires 0 <= c
    ensures c == c / 0x1000 * 0x1000 + c / 0x40 % 0x40 * 0x40 + c % 0x40
  {
    assert c / 0x40 / 0x40 == c / 0x1000;
  }

  lemma FourParts(c: int)
    requires 0 <= c
    ensures c == c / 0x4_0000 * 0x4_0000 + c / 0x1000 % 0x40 * 0x1000 + c / 0x40 % 0x40 * 0x40 + c % 0x40
  {
    ThreeParts(c);
    assert c / 0x1000 / 0x40 == c / 0x4_0000;
  }

  lemma Utf8Only(s: seq<byte>, c: int)
    requires 0 <= c < 0x11_0000 && IsUtf8(s, c)
    ensures s == Utf8(c)
  {
    hide Utf8;
    if |s| == 1 {
      OneOnly(s, c);
    } else if |s| == 2 {
      TwoOnly(s, c);
    } else if |s| == 3 {
      ThreeOnly(s, c);
    } else {
      FourOnly(s, c);
    }
  }

  lemma OneOnly(s: seq<byte>, c: int)
    requires IsUtf8(s, c) && |s| == 1
    ensures 0 <= c < 0x80 && s == Utf8(c)
  {
  }

  lemma TwoOnly(s: seq<byte>, c: int)
    requires IsUtf8(s, c) && |s| == 2
    ensures 0x80 <= c < 0x800 && s == Utf8(c)
  {
    assert c / 0x40 == Bits(s[0], 0xc0);
  }

  lemma ThreeOnly(s: seq<byte>, c: int)
    requires IsUtf8(s, c) && |s| == 3
    ensures 0x800 <= c < 0x1_0000 && s == Utf8(c)
  {
    assert c / 0x40 == Bits(s[0], 0xe0) * 0x40 + Bits(s[1], 0x80);
    assert c / 0x1000 == Bits(s[0], 0xe0);
  }

  lemma FourOnly(s: seq<byte>, c: int)
    requires IsUtf8(s, c) && |s| == 4
    ensures 0x1_0000 <= c < 0x11_0000 && s == Utf8(c)
  {
    assert c / 0x40 == Bits(s[0], 0xf0) * 0x1000 + Bits(s[1], 0x80) * 0x40 + Bits(s[2], 0x80);
    assert c / 0x1000 == Bits(s[0], 0xf0) * 0x40 + Bits(s[1], 0x80);
    assert c / 0x4_0000 == Bits(s[0], 0xf0);
  }

  predicate IsHex(c: byte) {
    '0' as int <= c <= '9' as int || 'a' as int <= c <= 'f' as int || 'A' as int <= c <= 'F' as int
  }

  function HexValue(c: byte): int
    requires IsHex(c)
  {
    if c <= '9' as int then c - '0' as int
    else if c <= 'F' as int then c - 'A' as int + 10
    else c - 'a' as int + 10
  }

  /** A backslash, u and four hexadecimal digits, for the number c. */
  ghost predicate UEscape(u: seq<byte>, c: int) {
    && |u| == 6 && u[..2] == Ascii("\\u") && (forall i :: 2 <= i < 6 ==> IsHex(u[i]))
    && c == 0x1000 * HexValue(u[2]) + 0x100 * HexValue(u[3]) + 0x10 * HexValue(u[4]) + HexValue(u[5])
  }

  /** The escapes of two characters. */
  predicate Short(c: byte, d: byte) {
    || (c == '"' as int && d == 0x22) || (c == '\\' as int && d == 0x5c) || (c == '/' as int && d == 0x2f)
    || (c == 'b' as int && d == 0x08) || (c == 'f' as int && d == 0x0c) || (c == 'n' as int && d == 0x0a)
    || (c == 'r' as int && d == 0x0d) || (c == 't' as int && d == 0x09)
  }

  /** One character of a string, u, stands for the bytes b: itself, an escape, or two escapes for a code point above
      the first plane (section 2.2 of RFC 2781). */
  ghost predicate Letter(u: seq<byte>, b: seq<byte>) {
    || (|u| == 1 && b == u && u[0] != '"' as int && u[0] != '\\' as int && u[0] != 0)
    || (|u| == 2 && |b| == 1 && u[0] == '\\' as int && Short(u[1], b[0]))
    || (exists c :: UEscape(u, c) && IsUtf8(b, c))
    || (exists hi, lo :: Surrogates(u, hi, lo) && IsUtf8(b, 0x1_0000 + 0x400 * (hi - 0xd800) + (lo - 0xdc00)))
  }

  ghost predicate Surrogates(u: seq<byte>, hi: int, lo: int) {
    && |u| == 12 && UEscape(u[..6], hi) && UEscape(u[6..], lo)
    && 0xd800 <= hi <= 0xdbff && 0xdc00 <= lo <= 0xdfff
  }

  lemma HexIs(c: byte)
    ensures IsHex(c) <==> Hex(c) >= 0
    ensures IsHex(c) ==> Hex(c) == HexValue(c)
  {
  }

  lemma UEscapeRead(s: seq<byte>, k: nat, c: int)
    requires k + 6 <= |s|
    ensures UEscape(s[k..k + 6], c) <==>
      s[k] == BACKSLASH && s[k + 1] == 117 && Hex4(s, k + 2) >= 0 && c == Hex4(s, k + 2)
  {
    var u := s[k..k + 6];
    assert u[..2] == [s[k], s[k + 1]];
    assert Ascii("\\u") == [92, 117];
    HexIs(s[k + 2]);
    HexIs(s[k + 3]);
    HexIs(s[k + 4]);
    HexIs(s[k + 5]);
    assert u[2] == s[k + 2] && u[3] == s[k + 3] && u[4] == s[k + 4] && u[5] == s[k + 5];
  }

  /** One character, with whatever follows it, is read as what it stands for. */
  lemma LetterRead(u: seq<byte>, b: seq<byte>, rest: seq<byte>)
    requires Letter(u, b)
    ensures u != [] && u[0] != 0 && u[0] != QUOTE && Char(u + rest) == Piece(b, |u|)
  {
    hide UEscape, IsUtf8, Hex4, Utf8;
    var s := u + rest;
    assert |u| >= 1 ==> s[0] == u[0];
    if c :| UEscape(u, c) && IsUtf8(b, c) {
      assert |u| == 6 by { UEscapeLong(u, c); }
      assert s[0..6] == u;
      UEscapeRead(s, 0, c);
      Utf8Exact(b, c);
    } else if |u| == 12 {
      var hi, lo :| Surrogates(u, hi, lo) && IsUtf8(b, 0x1_0000 + 0x400 * (hi - 0xd800) + (lo - 0xdc00));
      assert s[0..6] == u[..6] && s[6..12] == u[6..];
      UEscapeRead(s, 0, hi);
      UEscapeRead(s, 6, lo);
      Utf8Exact(b, 0x1_0000 + 0x400 * (hi - 0xd800) + (lo - 0xdc00));
    } else if |u| == 2 {
      ShortRead(u[1], b[0]);
    }
  }

  lemma UEscapeLong(u: seq<byte>, c: int)
    requires UEscape(u, c)
    ensures |u| == 6
  {
  }

  lemma ShortRead(c: byte, d: byte)
    ensures Short(c, d) <==> d != 0 && Unescape(c) == d
    ensures Short(c, d) ==> c != 117
  {
  }

  /** What is read as one character is one. */
  lemma CharIsLetter(s: seq<byte>)
    requires s != [] && s[0] != 0 && s[0] != QUOTE && Char(s).Piece?
    ensures var r := Char(s); r.n <= |s| && Letter(s[..r.n], r.bytes)
  {
    hide UEscape, IsUtf8, Hex4, Utf8;
    var r := Char(s);
    var u := s[..r.n];
    if s[0] == BACKSLASH && At(s, 1) == 117 {
      var c := Hex4(s, 2);
      assert s[0..6] == s[..6];
      UEscapeRead(s, 0, c);
      if r.n == 6 {
        Utf8Exact(r.bytes, c);
      } else {
        var lo := Hex4(s, 8);
        assert u[..6] == s[..6] && u[6..] == s[6..12];
        UEscapeRead(s, 6, lo);
        Utf8Exact(r.bytes, 0x1_0000 + 0x400 * (c - 0xd800) + (lo - 0xdc00));
        assert Surrogates(u, c, lo);
      }
    } else if s[0] == BACKSLASH {
      ShortRead(s[1], r.bytes[0]);
    }
  }

  // ----- strings --------------------------------------------------------------------------------------------

  ghost predicate Letters(u: seq<byte>, b: seq<byte>)
    decreases |u|, 1
  {
    if u == [] then b == [] else exists n: nat, m: nat :: OneLetter(u, b, n, m)
  }

  ghost predicate OneLetter(u: seq<byte>, b: seq<byte>, n: nat, m: nat)
    decreases |u|, 0
  {
    1 <= n <= |u| && m <= |b| && Letter(u[..n], b[..m]) && Letters(u[n..], b[m..])
  }

  lemma {:induction false} LettersRead(u: seq<byte>, b: seq<byte>, rest: seq<byte>)
    requires Letters(u, b)
    ensures StrBody(u + [QUOTE] + rest) == StrOk(b, rest)
    decreases |u|
  {
    hide Letter, Char;
    var s := u + [QUOTE] + rest;
    if u == [] {
      assert s == [QUOTE] + rest && s[1..] == rest;
    } else {
      var n: nat, m: nat :| OneLetter(u, b, n, m);
      var v := u[n..] + [QUOTE] + rest;
      assert u[..n] + v == s && s[n..] == v;
      LetterRead(u[..n], b[..m], v);
      LettersRead(u[n..], b[m..], rest);
      assert b[..m] + b[m..] == b;
      BodyStep(s, b[..m], n);
    }
  }

  lemma BodyStep(s: seq<byte>, b: seq<byte>, n: nat)
    requires s != [] && s[0] != 0 && s[0] != QUOTE && Char(s) == Piece(b, n)
    ensures StrBody(s) == match StrBody(s[n..]) case StrBad => StrBad case StrOk(t, rest) => StrOk(b + t, rest)
  {
    hide Char;
  }

  lemma {:induction false} BodyIsLetters(s: seq<byte>)
    requires StrBody(s).StrOk?
    ensures var r := StrBody(s); var n := |s| - |r.rest| - 1;
      && 0 <= n < |s| && s[n] == QUOTE && s[n + 1..] == r.rest && Letters(s[..n], r.s)
    decreases |s|
  {
    hide Letter, Char;
    var r := StrBody(s);
    var n := |s| - |r.rest| - 1;
    if s[0] == QUOTE {
      assert s[..0] == [];
    } else {
      var k, b := Char(s).n, Char(s).bytes;
      CharIsLetter(s);
      BodyIsLetters(s[k..]);
      var t := StrBody(s[k..]).s;
      assert s[k..][n - k + 1..] == s[n + 1..] && s[k..][..n - k] == s[k..n];
      assert s[..n][..k] == s[..k] && s[..n][k..] == s[k..n] && (b + t)[..|b|] == b && (b + t)[|b|..] == t;
      assert OneLetter(s[..n], r.s, k, |b|);
    }
  }

  /** The escape of a number of four hexadecimal digits. */
  function UText(n: int): seq<byte>
    requires 0 <= n < 0x1_0000
  {
    [92, 117, HexDigit(n / 0x1000), HexDigit(n / 0x100 % 0x10), HexDigit(n / 0x10 % 0x10), HexDigit(n % 0x10)]
  }

  /** Every code point can be written as an escape or, above the first plane, as two. */
  function EscapeOf(c: int): seq<byte>
    requires 0 <= c < 0x11_0000
  {
    if c < 0x1_0000 then UText(c)
    else UText(0xd800 + (c - 0x1_0000) / 0x400) + UText(0xdc00 + (c - 0x1_0000) % 0x400)
  }

  lemma UTextIs(n: int)
    requires 0 <= n < 0x1_0000
    ensures UEscape(UText(n), n)
  {
    var u := UText(n);
    assert u[..2] == [92, 117] == Ascii("\\u");
    HexBoth(n / 0x1000);
    HexBoth(n / 0x100 % 0x10);
    HexBoth(n / 0x10 % 0x10);
    HexBoth(n % 0x10);
    FourDigits(n);
  }

  lemma FourDigits(n: int)
    requires 0 <= n < 0x1_0000
    ensures n == 0x1000 * (n / 0x1000) + 0x100 * (n / 0x100 % 0x10) + 0x10 * (n / 0x10 % 0x10) + n % 0x10
  {
    assert n / 0x10 / 0x10 == n / 0x100 && n / 0x100 / 0x10 == n / 0x1000;
  }

  lemma HexBoth(d: int)
    requires 0 <= d < 16
    ensures IsHex(HexDigit(d)) && HexValue(HexDigit(d)) == d
  {
  }

  /** The escape of a code point, in a string, becomes its encoding. */
  lemma CodePointRead(c: int, rest: seq<byte>)
    requires 0 <= c < 0x11_0000 && !Surrogate(c)
    ensures IsUtf8(Utf8(c), c) && StrBody(EscapeOf(c) + [QUOTE] + rest) == StrOk(Utf8(c), rest)
  {
    hide UEscape, IsUtf8, Utf8, UText;
    var u := EscapeOf(c);
    Utf8Exact(Utf8(c), c);
    if c < 0x1_0000 {
      UTextIs(c);
    } else {
      var hi, lo := 0xd800 + (c - 0x1_0000) / 0x400, 0xdc00 + (c - 0x1_0000) % 0x400;
      UTextIs(hi);
      UTextIs(lo);
      UEscapeLong(UText(hi), hi);
      UEscapeLong(UText(lo), lo);
      assert u[..6] == UText(hi) && u[6..] == UText(lo);
      assert Surrogates(u, hi, lo) && c == 0x1_0000 + 0x400 * (hi - 0xd800) + (lo - 0xdc00);
    }
    assert u != [] by { LetterRead(u, Utf8(c), []); }
    OnlyLetter(u, Utf8(c));
    LettersRead(u, Utf8(c), rest);
  }

  lemma OnlyLetter(u: seq<byte>, b: seq<byte>)
    requires Letter(u, b) && u != []
    ensures Letters(u, b)
  {
    hide Letter;
    assert u[..|u|] == u && b[..|b|] == b && u[|u|..] == [] && b[|b|..] == [];
    assert OneLetter(u, b, |u|, |b|);
  }

  // ----- tokens ---------------------------------------------------------------------------------------------

  predicate IsWhite(c: byte) {
    c == ' ' as int || c == '\t' as int || c == '\n' as int || c == '\r' as int
  }

  ghost predicate White(w: seq<byte>) {
    forall i :: 0 <= i < |w| ==> IsWhite(w[i])
  }

  predicate IsFigure(c: byte) {
    '0' as int <= c <= '9' as int
  }

  ghost predicate Figures(d: seq<byte>) {
    1 <= |d| <= 15 && forall i :: 0 <= i < |d| ==> IsFigure(d[i])
  }

  /** The number that decimal digits stand for. */
  function Worth(d: seq<byte>): int {
    if d == [] then 0 else 10 * Worth(d[..|d| - 1]) + (d[|d| - 1] - '0' as int)
  }

  /** How a token is written. */
  ghost predicate Lexeme(u: seq<byte>, t: Token) {
    match t
    case TBegin => u == Ascii("{")
    case TEnd => u == Ascii("}")
    case TOpen => u == Ascii("[")
    case TClose => u == Ascii("]")
    case TColon => u == Ascii(":")
    case TComma => u == Ascii(",")
    case TNull => u == Ascii("null")
    case TBool(b) => u == Ascii(if b then "true" else "false")
    case TNum(n) =>
      || (Figures(u) && n == Worth(u))
      || (|u| >= 2 && u[0] == '-' as int && Figures(u[1..]) && n == -Worth(u[1..]))
    case TStr(b) => |u| >= 2 && u[..1] == Ascii("\"") && u[|u| - 1..] == Ascii("\"") && Letters(u[1..|u| - 1], b)
    case _ => false
  }

  /** What may stand behind a number: white space, a comma, a closing bracket, or the end. */
  predicate Stop(s: seq<byte>) {
    s == [] || IsWhite(s[0]) || s[0] == ',' as int || s[0] == ']' as int || s[0] == '}' as int || s[0] == 0
  }

  lemma {:induction false} SkipWhite(w: seq<byte>, s: seq<byte>)
    requires White(w) && (s == [] || !IsWhite(s[0]))
    ensures Skip(w + s) == s
  {
    if w == [] {
      assert w + s == s;
    } else {
      assert IsWhite(w[0]) && (w + s)[0] == w[0] && (w + s)[1..] == w[1..] + s;
      SkipWhite(w[1..], s);
    }
  }

  lemma {:induction false} SkipIs(s: seq<byte>)
    ensures var r := Skip(s); var n := |s| - |r|;
      0 <= n && White(s[..n]) && s[n..] == r && (r == [] || !IsWhite(r[0]))
  {
    if s != [] && IsWhite(s[0]) {
      SkipIs(s[1..]);
      var n := |s| - |Skip(s)|;
      assert s[..n][1..] == s[1..][..n - 1];
      forall i | 0 <= i < n ensures IsWhite(s[..n][i]) { if i > 0 { assert s[..n][i] == s[1..][..n - 1][i - 1]; } }
    }
  }

  lemma {:induction false} WorthIs(d: seq<byte>)
    ensures Worth(d) == Decimal(d)
  {
    if d != [] { WorthIs(d[..|d| - 1]); }
  }

  lemma RunOf(d: seq<byte>, rest: seq<byte>)
    requires Figures(d) && Stop(rest)
    ensures DigitRun(d + rest) == |d|
  {
    var s := d + rest;
    forall i | 0 <= i < |d| ensures IsDigit(s[i]) { assert IsFigure(d[i]); }
    assert rest != [] ==> s[|d|] == rest[0];
  }

  lemma NumberRead(d: seq<byte>, neg: bool, rest: seq<byte>)
    requires Figures(d) && Stop(rest)
    ensures NumBody(d + rest, neg) == (TNum(if neg then -Worth(d) else Worth(d)), rest)
  {
    hide DigitRun;
    RunOf(d, rest);
    WorthIs(d);
    assert (d + rest)[..|d|] == d && (d + rest)[|d|..] == rest;
  }

  lemma Marks()
    ensures Ascii("{") == [BEGIN] && Ascii("}") == [END] && Ascii("[") == [OPEN] && Ascii("]") == [CLOSE]
    ensures Ascii(":") == [COLON] && Ascii(",") == [COMMA] && Ascii("\"") == [QUOTE]
    ensures Ascii("true") == TRUE && Ascii("false") == FALSE && Ascii("null") == NULL
  {
  }

  /** A token, with whatever may follow it, is read. */
  lemma TokenRead(u: seq<byte>, t: Token, rest: seq<byte>)
    requires Lexeme(u, t) && (t.TNum? ==> Stop(rest))
    ensures u != [] && !IsWhite(u[0]) && Tok(u + rest) == (t, rest)
  {
    hide Tok, Lexeme, Stop;
    if t.TNum? {
      FiguresRead(u, t.n, rest);
    } else if t.TStr? {
      QuotesRead(u, t.s, rest);
    } else {
      MarkRead(u, t, rest);
    }
  }

  lemma FiguresRead(u: seq<byte>, n: int, rest: seq<byte>)
    requires Lexeme(u, TNum(n)) && Stop(rest)
    ensures u != [] && !IsWhite(u[0]) && Tok(u + rest) == (TNum(n), rest)
  {
    hide Tok, Worth, NumBody, Stop;
    if Figures(u) {
      NumberRead(u, false, rest);
      TokDigit(u + rest);
    } else {
      NumberRead(u[1..], true, rest);
      assert u == [MINUS] + u[1..] && u + rest == [MINUS] + (u[1..] + rest);
      TokMinus(u[1..] + rest, u + rest);
    }
  }

  lemma QuotesRead(u: seq<byte>, b: seq<byte>, rest: seq<byte>)
    requires Lexeme(u, TStr(b))
    ensures u != [] && !IsWhite(u[0]) && Tok(u + rest) == (TStr(b), rest)
  {
    hide Tok, Letters, StrBody;
    Marks();
    var v := u[1..|u| - 1];
    assert u == [QUOTE] + v + [QUOTE];
    LettersRead(v, b, rest);
    StringRead(v, b, rest);
    assert u + rest == [QUOTE] + (v + [QUOTE] + rest);
  }

  lemma MarkRead(u: seq<byte>, t: Token, rest: seq<byte>)
    requires Lexeme(u, t) && !t.TNum? && !t.TStr?
    ensures u != [] && !IsWhite(u[0]) && Tok(u + rest) == (t, rest)
  {
    hide Tok, Letters, Worth, Figures;
    Marks();
    match t
    case TBool(_) => TokWords(rest);
    case TNull => TokWords(rest);
    case TBegin => TokMark(BEGIN, rest);
    case TEnd => TokMark(END, rest);
    case TOpen => TokMark(OPEN, rest);
    case TClose => TokMark(CLOSE, rest);
    case TColon => TokMark(COLON, rest);
    case TComma => TokMark(COMMA, rest);
    case TEof =>
    case TErr(_) =>
  }

  lemma StringRead(v: seq<byte>, b: seq<byte>, rest: seq<byte>)
    requires StrBody(v + [QUOTE] + rest) == StrOk(b, rest)
    ensures Tok([QUOTE] + (v + [QUOTE] + rest)) == (TStr(b), rest)
  {
    hide StrBody, NumTok;
    assert ([QUOTE] + (v + [QUOTE] + rest))[1..] == v + [QUOTE] + rest;
  }

  lemma TokSkips(s: seq<byte>)
    ensures Tok(s) == Tok(Skip(s))
  {
    hide StrBody, NumTok;
    SkipIs(s);
    SkipWhite([], Skip(s));
    assert [] + Skip(s) == Skip(s);
  }

  /** White space before a token is passed over. */
  lemma SpacedRead(w: seq<byte>, u: seq<byte>, t: Token, rest: seq<byte>)
    requires White(w) && Lexeme(u, t) && (t.TNum? ==> Stop(rest))
    ensures Tok(w + u + rest) == (t, rest)
  {
    hide Tok, Lexeme, White, Skip;
    TokenRead(u, t, rest);
    SkipWhite(w, u + rest);
    assert w + u + rest == w + (u + rest);
    TokSkips(w + (u + rest));
  }

  /** What is read as a token is white space and a token. */
  lemma TokenIs(s: seq<byte>) returns (i: nat, j: nat)
    requires !Stops(Tok(s).0)
    ensures i <= j <= |s| && White(s[..i]) && Lexeme(s[i..j], Tok(s).0) && s[j..] == Tok(s).1
  {
    hide Tok, Lexeme, White, Skip;
    SkipIs(s);
    TokSkips(s);
    var r := Skip(s);
    i := |s| - |r|;
    NoWhite();
    SkipWhite([], r);
    assert [] + r == r;
    var k := BareTokenIs(r);
    j := i + k;
    assert s[i..j] == r[..k] && s[j..] == r[k..];
  }

  lemma NoWhite()
    ensures White([])
  {
  }

  lemma BareTokenIs(s: seq<byte>) returns (k: nat)
    requires !Stops(Tok(s).0) && Skip(s) == s
    ensures k <= |s| && Lexeme(s[..k], Tok(s).0) && s[k..] == Tok(s).1
  {
    hide Tok, Lexeme, NumTok, Skip;
    SomeToken(s);
    if s[0] == QUOTE {
      k := StringIsLexeme(s);
    } else if s[0] == MINUS || IsDigit(s[0]) {
      NumberToken(s);
      NumberIsLexeme(s);
      k := |s| - |NumTok(s).1|;
    } else {
      k := OtherIsLexeme(s);
    }
  }

  lemma SomeToken(s: seq<byte>)
    requires !Stops(Tok(s).0) && Skip(s) == s
    ensures s != [] && s[0] != 0
  {
    hide StrBody, NumTok;
  }

  lemma NumberToken(s: seq<byte>)
    requires Skip(s) == s && s != [] && (s[0] == MINUS || IsDigit(s[0]))
    ensures Tok(s) == NumTok(s) && (!Stops(Tok(s).0) ==> NumTok(s).0.TNum?)
  {
    hide StrBody, Skip;
  }

  lemma StringIsLexeme(s: seq<byte>) returns (k: nat)
    requires !Stops(Tok(s).0) && Skip(s) == s && s != [] && s[0] == QUOTE
    ensures k <= |s| && Lexeme(s[..k], Tok(s).0) && s[k..] == Tok(s).1
  {
    hide StrBody, NumTok, Letters, Skip;
    Marks();
    BodyIsLetters(s[1..]);
    k := |s| - |Tok(s).1|;
    var n := k - 2;
    assert s[..k][1..k - 1] == s[1..][..n] && s[1..][n + 1..] == s[k..];
    assert s[..k][..1] == [QUOTE] && s[..k][k - 1..] == [QUOTE];
  }

  lemma OtherIsLexeme(s: seq<byte>) returns (k: nat)
    requires !Stops(Tok(s).0) && Skip(s) == s && s != [] && s[0] != QUOTE && s[0] != MINUS && !IsDigit(s[0])
    ensures k <= |s| && Lexeme(s[..k], Tok(s).0) && s[k..] == Tok(s).1
  {
    hide StrBody, NumTok, Letters, Skip, Worth, Figures;
    Marks();
    k := |s| - |Tok(s).1|;
    assert s[..1] == [s[0]];
    assert TRUE <= s ==> s[..4] == TRUE;
    assert FALSE <= s ==> s[..5] == FALSE;
    assert NULL <= s ==> s[..4] == NULL;
  }

  lemma NumberIsLexeme(s: seq<byte>)
    requires s != [] && (s[0] == MINUS || IsDigit(s[0])) && NumTok(s).0.TNum?
    ensures var r := NumTok(s); var k := |s| - |r.1|; 0 <= k <= |s| && Lexeme(s[..k], r.0) && s[k..] == r.1
  {
    var r := NumTok(s);
    var k := |s| - |r.1|;
    var d := if s[0] == MINUS then s[1..] else s;
    var n := DigitRun(d);
    WorthIs(d[..n]);
    if s[0] == MINUS { assert s[..k][1..] == d[..n] && d[n..] == s[k..]; }
  }

  // ----- texts ----------------------------------------------------------------------------------------------

  /** Nothing but white space up to the end; a zero byte ends a text. */
  ghost predicate Ended(s: seq<byte>) {
    exists n: nat :: n <= |s| && White(s[..n]) && (n == |s| || s[n] == 0)
  }

  /** The text is those tokens, with white space between them as one likes. */
  ghost predicate Spelled(s: seq<byte>, ts: seq<Token>)
    decreases |ts|, 1
  {
    if ts == [] then Ended(s) else exists i: nat, j: nat :: OneToken(s, ts, i, j)
  }

  ghost predicate OneToken(s: seq<byte>, ts: seq<Token>, i: nat, j: nat)
    requires ts != []
    decreases |ts|, 0
  {
    && i <= j <= |s| && White(s[..i]) && Lexeme(s[i..j], ts[0]) && (ts[0].TNum? ==> Stop(s[j..]))
    && Spelled(s[j..], ts[1..])
  }

  /** The first token of a text is read, and the rest is the text of the others. */
  lemma FirstToken(s: seq<byte>, t: Token, ts: seq<Token>)
    requires Spelled(s, [t] + ts)
    ensures Tok(s).0 == t && !Stops(t) && Spelled(Tok(s).1, ts)
  {
    hide Tok, Lexeme, White, Stop;
    var all := [t] + ts;
    var i: nat, j: nat :| OneToken(s, all, i, j);
    assert all[1..] == ts;
    assert s == s[..i] + s[i..j] + s[j..];
    SpacedRead(s[..i], s[i..j], t, s[j..]);
    LexemeGoesOn(s[i..j], t);
  }

  lemma LexemeGoesOn(u: seq<byte>, t: Token)
    requires Lexeme(u, t)
    ensures !Stops(t)
  {
    hide Letters, Worth, Figures;
  }

  /** Read as a token and then a text. */
  lemma TokenFirst(s: seq<byte>, ts: seq<Token>)
    requires var (t, r) := Tok(s); !Stops(t) && (t.TNum? ==> Stop(r)) && Spelled(r, ts)
    ensures Spelled(s, [Tok(s).0] + ts)
  {
    hide Tok, Lexeme, White, Stop;
    var (t, r) := Tok(s);
    var i, j := TokenIs(s);
    var all := [t] + ts;
    assert all[1..] == ts;
    assert OneToken(s, all, i, j);
  }

  lemma NoTokens(s: seq<byte>)
    ensures Spelled(s, []) <==> Tok(s).0 == TEof
  {
    hide Tok, White, Skip;
    SkipIs(s);
    TokSkips(s);
    EofIs(s);
    var r := Skip(s);
    var k := |s| - |r|;
    if Ended(s) {
      var n: nat :| n <= |s| && White(s[..n]) && (n == |s| || s[n] == 0);
      WhiteEnds(s, n, k);
    }
    if r == [] || r[0] == 0 { assert k <= |s| && White(s[..k]) && (k == |s| || s[k] == 0); }
  }

  lemma WhiteEnds(s: seq<byte>, n: nat, k: nat)
    requires n <= |s| && k <= |s| && White(s[..n]) && White(s[..k])
    requires (n == |s| || s[n] == 0) && (k == |s| || !IsWhite(s[k]))
    ensures n == k
  {
    forall i | 0 <= i < n ensures IsWhite(s[i]) { assert s[..n][i] == s[i]; }
    forall i | 0 <= i < k ensures IsWhite(s[i]) { assert s[..k][i] == s[i]; }
  }

  lemma EofIs(s: seq<byte>)
    ensures Tok(s).0 == TEof <==> Skip(s) == [] || Skip(s)[0] == 0
  {
    hide StrBody, NumTok, Skip;
  }

  // ----- values ---------------------------------------------------------------------------------------------

  ghost function Tokens(v: Value): seq<Token>
    decreases v, 0
  {
    match v
    case Null => [TNull]
    case Bool(b) => [TBool(b)]
    case Num(n) => [TNum(n)]
    case Str(s) => [TStr(s)]
    case Arr(items) => [TOpen] + ItemTokens(items) + [TClose]
    case Obj(ps) => [TBegin] + PairTokens(ps) + [TEnd]
  }

  ghost function ItemTokens(vs: seq<Value>): seq<Token>
    decreases vs, |vs|
  {
    if vs == [] then [] else Tokens(vs[0]) + if |vs| == 1 then [] else [TComma] + ItemTokens(vs[1..])
  }

  ghost function OnePair(p: Pair): seq<Token>
    decreases p, 0
  {
    [TStr(p.key), TColon] + Tokens(p.val)
  }

  ghost function PairTokens(ps: seq<Pair>): seq<Token>
    decreases ps, |ps|
  {
    if ps == [] then [] else OnePair(ps[0]) + if |ps| == 1 then [] else [TComma] + PairTokens(ps[1..])
  }

  /** The value as Lua holds it: an empty array is an empty table, and later members replace earlier ones. */
  ghost function Held(v: Value): Value
    decreases v, 0
  {
    match v
    case Arr(items) => if items == [] then Obj([]) else Arr(HeldItems(items))
    case Obj(ps) => Obj(HeldPairs(ps, []))
    case _ => v
  }

  ghost function HeldItems(vs: seq<Value>): seq<Value>
    decreases vs, |vs|
  {
    if vs == [] then [] else [Held(vs[0])] + HeldItems(vs[1..])
  }

  ghost function HeldPair(p: Pair): Pair
    decreases p, 0
  {
    Pair(p.key, Held(p.val))
  }

  ghost function HeldPairs(ps: seq<Pair>, acc: seq<Pair>): seq<Pair>
    decreases ps, |ps|
  {
    if ps == [] then acc else
      var p := HeldPair(ps[0]);
      HeldPairs(ps[1..], RawSet(acc, p.key, p.val))
  }

  // ----- a text is decoded ----------------------------------------------------------------------------------

  /** What reading a value gives: the value and a text of the tokens behind it, or that it is too deep. */
  ghost predicate Gives(r: Result, v: Value, ts: seq<Token>, depth: nat, max: nat) {
    if Depth(v) + depth <= max then r.Ok? && r.v == Held(v) && Spelled(r.rest, ts) else r == Err(TooDeep)
  }

  lemma {:induction false} ValueRead(s: seq<byte>, v: Value, ts: seq<Token>, depth: nat, max: nat)
    requires Spelled(s, Tokens(v) + ts) && depth <= max
    ensures var (t, r) := Tok(s);
      !Stops(t) && t != TClose && t != TEnd && Gives(Process(t, r, depth, max), v, ts, depth, max)
    decreases v, 0
  {
    hide Tok, Spelled;
    match v
    case Null => FirstToken(s, TNull, ts);
    case Bool(b) => FirstToken(s, TBool(b), ts);
    case Num(n) => FirstToken(s, TNum(n), ts);
    case Str(b) => FirstToken(s, TStr(b), ts);
    case Arr(items) => ArrayRead(s, items, ts, depth, max);
    case Obj(ps) => TableRead(s, ps, ts, depth, max);
  }

  lemma {:induction false} ArrayRead(s: seq<byte>, items: seq<Value>, ts: seq<Token>, depth: nat, max: nat)
    requires Spelled(s, [TOpen] + ItemTokens(items) + [TClose] + ts) && depth <= max
    ensures var (t, r) := Tok(s); t == TOpen && Gives(Process(t, r, depth, max), Arr(items), ts, depth, max)
    decreases items, |items| + 1
  {
    hide Tok, Spelled, ParseItems, HeldItems, DepthItems;
    var more := ItemTokens(items) + [TClose] + ts;
    assert [TOpen] + ItemTokens(items) + [TClose] + ts == [TOpen] + more;
    FirstToken(s, TOpen, more);
    var r := Tok(s).1;
    if items == [] {
      NoItems();
      assert more == [TClose] + ts;
      FirstToken(r, TClose, ts);
    } else if depth + 1 <= max {
      ItemsSpelled(r, items, ts, depth + 1, max);
    }
  }

  lemma NoItems()
    ensures ItemTokens([]) == [] && DepthItems([]) == 0 && PairTokens([]) == [] && DepthPairs([]) == 0
  {
  }

  lemma {:induction false} ItemsSpelled(s: seq<byte>, vs: seq<Value>, ts: seq<Token>, depth: nat, max: nat)
    requires vs != [] && Spelled(s, ItemTokens(vs) + [TClose] + ts) && depth <= max
    ensures var (t, r) := Tok(s);
      && !Stops(t) && t != TClose
      && var res := ParseItems(t, r, depth, max);
      if DepthItems(vs) + depth <= max then res.ItemsOk? && res.vs == HeldItems(vs) && Spelled(res.rest, ts)
      else res == ItemsErr(TooDeep)
    decreases vs, |vs|
  {
    hide Tok, Spelled, Process, Depth, Held, Tokens;
    DepthFirst(vs);
    if |vs| == 1 {
      assert vs[1..] == [];
      assert ItemTokens(vs) + [TClose] + ts == Tokens(vs[0]) + ([TClose] + ts);
      ValueRead(s, vs[0], [TClose] + ts, depth, max);
      var (t, r) := Tok(s);
      var p := Process(t, r, depth, max);
      if p.Ok? { FirstToken(p.rest, TClose, ts); }
    } else {
      var more := ItemTokens(vs[1..]) + [TClose] + ts;
      assert ItemTokens(vs) + [TClose] + ts == Tokens(vs[0]) + ([TComma] + more);
      ValueRead(s, vs[0], [TComma] + more, depth, max);
      var (t, r) := Tok(s);
      var p := Process(t, r, depth, max);
      if p.Ok? {
        FirstToken(p.rest, TComma, more);
        ItemsSpelled(Tok(p.rest).1, vs[1..], ts, depth, max);
      }
    }
  }

  lemma {:induction false} TableRead(s: seq<byte>, ps: seq<Pair>, ts: seq<Token>, depth: nat, max: nat)
    requires Spelled(s, [TBegin] + PairTokens(ps) + [TEnd] + ts) && depth <= max
    ensures var (t, r) := Tok(s); t == TBegin && Gives(Process(t, r, depth, max), Obj(ps), ts, depth, max)
    decreases ps, |ps| + 1
  {
    hide Tok, Spelled, ParsePairs, HeldPairs, DepthPairs;
    var more := PairTokens(ps) + [TEnd] + ts;
    assert [TBegin] + PairTokens(ps) + [TEnd] + ts == [TBegin] + more;
    FirstToken(s, TBegin, more);
    var r := Tok(s).1;
    if ps == [] {
      NoItems();
      NoPairs();
      assert more == [TEnd] + ts;
      FirstToken(r, TEnd, ts);
    } else if depth + 1 <= max {
      PairsSpelled(r, ps, ts, depth + 1, max, []);
    }
  }

  lemma NoPairs()
    ensures HeldPairs([], []) == []
  {
  }

  lemma {:induction false} PairsSpelled(s: seq<byte>, ps: seq<Pair>, ts: seq<Token>, depth: nat, max: nat,
                                        acc: seq<Pair>)
    requires ps != [] && Spelled(s, PairTokens(ps) + [TEnd] + ts) && depth <= max
    ensures var (t, r) := Tok(s);
      && !Stops(t) && t != TEnd
      && var res := ParsePairs(t, r, depth, max, acc);
      if DepthPairs(ps) + depth <= max then res.PairsOk? && res.ps == HeldPairs(ps, acc) && Spelled(res.rest, ts)
      else res == PairsErr(TooDeep)
    decreases ps, |ps|
  {
    hide Tok, Spelled, ParseMember, HeldPair, OnePair, RawSet, DepthPair;
    var q := HeldPair(ps[0]);
    var more := if |ps| == 1 then [TEnd] + ts else [TComma] + (PairTokens(ps[1..]) + [TEnd] + ts);
    if |ps| == 1 { assert ps[1..] == []; }
    assert PairTokens(ps) + [TEnd] + ts == OnePair(ps[0]) + more;
    MemberSpelled(s, ps[0], more, depth, max);
    var (t, r) := Tok(s);
    var p := ParseMember(r, depth, max);
    if p.Ok? {
      if |ps| == 1 {
        FirstToken(p.rest, TEnd, ts);
      } else {
        FirstToken(p.rest, TComma, PairTokens(ps[1..]) + [TEnd] + ts);
        PairsSpelled(Tok(p.rest).1, ps[1..], ts, depth, max, RawSet(acc, q.key, q.val));
      }
    }
  }

  lemma {:induction false} MemberSpelled(s: seq<byte>, p: Pair, ts: seq<Token>, depth: nat, max: nat)
    requires Spelled(s, OnePair(p) + ts) && depth <= max
    ensures var (t, r) := Tok(s);
      && t == TStr(p.key) && HeldPair(p).key == p.key
      && var res := ParseMember(r, depth, max);
      if DepthPair(p) + depth <= max then res.Ok? && res.v == HeldPair(p).val && Spelled(res.rest, ts)
      else res == Err(TooDeep)
    decreases p, 0
  {
    hide Tok, Spelled, Process, Depth, Held, Tokens;
    var more := [TColon] + (Tokens(p.val) + ts);
    assert OnePair(p) + ts == [TStr(p.key)] + more;
    FirstToken(s, TStr(p.key), more);
    var r := Tok(s).1;
    FirstToken(r, TColon, Tokens(p.val) + ts);
    ValueRead(Tok(r).1, p.val, ts, depth, max);
  }

  // ----- what is decoded is a text --------------------------------------------------------------------------

  lemma TokStops(s: seq<byte>)
    requires var t := Tok(s).0; t == TComma || t == TClose || t == TEnd || t == TEof
    ensures Stop(s)
  {
    hide StrBody, NumTok, Skip;
    SkipIs(s);
    if Skip(s) != s {
      var n := |s| - |Skip(s)|;
      assert s[..n][0] == s[0];
    }
  }

  /** A value that was read, and a text behind it: there was a text of its tokens and those. */
  lemma {:induction false} ValueIs(s: seq<byte>, depth: nat, max: nat, ts: seq<Token>) returns (v: Value)
    requires depth <= max && Process(Tok(s).0, Tok(s).1, depth, max).Ok?
    requires var rest := Process(Tok(s).0, Tok(s).1, depth, max).rest; Stop(rest) && Spelled(rest, ts)
    ensures Spelled(s, Tokens(v) + ts) && Depth(v) + depth <= max
    ensures Held(v) == Process(Tok(s).0, Tok(s).1, depth, max).v
    decreases |s|, 1
  {
    hide Tok, Spelled, Stop, ParseItems, ParsePairs;
    var (t, r) := Tok(s);
    match t
    case TStr(b) => v := Str(b); TokenFirst(s, ts);
    case TNum(n) => v := Num(n); TokenFirst(s, ts);
    case TBool(b) => v := Bool(b); TokenFirst(s, ts);
    case TNull => v := Null; TokenFirst(s, ts);
    case TOpen => v := ArrayIs(s, depth, max, ts);
    case TBegin => v := TableIs(s, depth, max, ts);
    case _ => v := Null;
  }

  lemma {:induction false} ArrayIs(s: seq<byte>, depth: nat, max: nat, ts: seq<Token>) returns (v: Value)
    requires depth <= max && Tok(s).0 == TOpen && Process(TOpen, Tok(s).1, depth, max).Ok?
    requires Spelled(Process(TOpen, Tok(s).1, depth, max).rest, ts)
    ensures Spelled(s, Tokens(v) + ts) && Depth(v) + depth <= max && Held(v) == Process(TOpen, Tok(s).1, depth, max).v
    decreases |s|, 0
  {
    hide Tok, Spelled, ParseItems, HeldItems, DepthItems, ItemTokens;
    var r := Tok(s).1;
    TokShorter(s);
    var vs := [];
    if Tok(r).0 == TClose {
      TokenFirst(r, ts);
      NoItems();
      assert ItemTokens(vs) + [TClose] + ts == [TClose] + ts;
    } else {
      vs := ItemsAre(r, depth + 1, max, ts);
    }
    v := Arr(vs);
    TokenFirst(s, ItemTokens(vs) + [TClose] + ts);
    assert [TOpen] + (ItemTokens(vs) + [TClose] + ts) == Tokens(v) + ts;
  }

  lemma TokShorter(s: seq<byte>)
    requires !Stops(Tok(s).0)
    ensures |Tok(s).1| < |s|
  {
    hide Tok;
  }

  lemma {:induction false} ItemsAre(s: seq<byte>, depth: nat, max: nat, ts: seq<Token>) returns (vs: seq<Value>)
    requires depth <= max && ParseItems(Tok(s).0, Tok(s).1, depth, max).ItemsOk?
    requires Spelled(ParseItems(Tok(s).0, Tok(s).1, depth, max).rest, ts)
    ensures vs != [] && Spelled(s, ItemTokens(vs) + [TClose] + ts) && DepthItems(vs) + depth <= max
    ensures HeldItems(vs) == ParseItems(Tok(s).0, Tok(s).1, depth, max).vs
    decreases |s|, 2
  {
    hide Tok, Spelled, Process, Stop, Depth, Held, Tokens;
    var (t, r) := Tok(s);
    var p := Process(t, r, depth, max);
    TokStops(p.rest);
    SomeTokenRead(t, r, depth, max);
    TokShorter(s);
    var (u, r1) := Tok(p.rest);
    if u == TClose {
      TokenFirst(p.rest, ts);
      var v := ValueIs(s, depth, max, [TClose] + ts);
      vs := [v];
      DepthFirst(vs);
      assert vs[1..] == [];
      assert ItemTokens(vs) + [TClose] + ts == Tokens(v) + ([TClose] + ts);
    } else {
      TokShorter(p.rest);
      var more := ItemsAre(r1, depth, max, ts);
      var tail := ItemTokens(more) + [TClose] + ts;
      TokenFirst(p.rest, tail);
      var v := ValueIs(s, depth, max, [TComma] + tail);
      vs := [v] + more;
      DepthFirst(vs);
      assert vs[1..] == more;
      assert ItemTokens(vs) + [TClose] + ts == Tokens(v) + ([TComma] + tail);
    }
  }

  lemma SomeTokenRead(t: Token, r: seq<byte>, depth: nat, max: nat)
    requires Process(t, r, depth, max).Ok?
    ensures !Stops(t) && |Process(t, r, depth, max).rest| <= |r|
  {
    hide Tok, ParseItems, ParsePairs;
  }

  lemma {:induction false} TableIs(s: seq<byte>, depth: nat, max: nat, ts: seq<Token>) returns (v: Value)
    requires depth <= max && Tok(s).0 == TBegin && Process(TBegin, Tok(s).1, depth, max).Ok?
    requires Spelled(Process(TBegin, Tok(s).1, depth, max).rest, ts)
    ensures Spelled(s, Tokens(v) + ts) && Depth(v) + depth <= max && Held(v) == Process(TBegin, Tok(s).1, depth, max).v
    decreases |s|, 0
  {
    hide Tok, Spelled, ParsePairs, HeldPairs, DepthPairs, PairTokens;
    var r := Tok(s).1;
    TokShorter(s);
    var ps := [];
    if Tok(r).0 == TEnd {
      TokenFirst(r, ts);
      NoItems();
      NoPairs();
      assert PairTokens(ps) + [TEnd] + ts == [TEnd] + ts;
    } else {
      ps := PairsAre(r, depth + 1, max, ts, []);
    }
    v := Obj(ps);
    TokenFirst(s, PairTokens(ps) + [TEnd] + ts);
    assert [TBegin] + (PairTokens(ps) + [TEnd] + ts) == Tokens(v) + ts;
  }

  lemma {:induction false} PairsAre(s: seq<byte>, depth: nat, max: nat, ts: seq<Token>, acc: seq<Pair>)
    returns (ps: seq<Pair>)
    requires depth <= max && ParsePairs(Tok(s).0, Tok(s).1, depth, max, acc).PairsOk?
    requires Spelled(ParsePairs(Tok(s).0, Tok(s).1, depth, max, acc).rest, ts)
    ensures ps != [] && Spelled(s, PairTokens(ps) + [TEnd] + ts) && DepthPairs(ps) + depth <= max
    ensures HeldPairs(ps, acc) == ParsePairs(Tok(s).0, Tok(s).1, depth, max, acc).ps
    decreases |s|, 2
  {
    hide Tok, Spelled, ParseMember, Stop, DepthPair, HeldPair, OnePair, RawSet;
    var (t, r) := Tok(s);
    var p := ParseMember(r, depth, max);
    TokStops(p.rest);
    TokShorter(s);
    var (u, r1) := Tok(p.rest);
    if u == TEnd {
      TokenFirst(p.rest, ts);
      var q := MemberIs(s, depth, max, [TEnd] + ts);
      ps := [q];
      assert ps[1..] == [];
      assert PairTokens(ps) + [TEnd] + ts == OnePair(q) + ([TEnd] + ts);
    } else {
      TokShorter(p.rest);
      var more := PairsAre(r1, depth, max, ts, RawSet(acc, t.s, p.v));
      var tail := PairTokens(more) + [TEnd] + ts;
      TokenFirst(p.rest, tail);
      var q := MemberIs(s, depth, max, [TComma] + tail);
      ps := [q] + more;
      assert ps[1..] == more;
      assert PairTokens(ps) + [TEnd] + ts == OnePair(q) + ([TComma] + tail);
    }
  }

  lemma {:induction false} MemberIs(s: seq<byte>, depth: nat, max: nat, ts: seq<Token>) returns (q: Pair)
    requires depth <= max && Tok(s).0.TStr? && ParseMember(Tok(s).1, depth, max).Ok?
    requires var rest := ParseMember(Tok(s).1, depth, max).rest; Stop(rest) && Spelled(rest, ts)
    ensures Spelled(s, OnePair(q) + ts) && DepthPair(q) + depth <= max
    ensures HeldPair(q) == Pair(Tok(s).0.s, ParseMember(Tok(s).1, depth, max).v)
    decreases |s|, 0
  {
    hide Tok, Spelled, Stop, Process, Depth, Held, Tokens;
    var (t, r) := Tok(s);
    TokShorter(s);
    TokShorter(r);
    var (c, r0) := Tok(r);
    var v := ValueIs(r0, depth, max, ts);
    q := Pair(t.s, v);
    TokenFirst(r, Tokens(v) + ts);
    TokenFirst(s, [TColon] + (Tokens(v) + ts));
    assert [t] + ([TColon] + (Tokens(v) + ts)) == OnePair(q) + ts;
  }

  // ----- exactly --------------------------------------------------------------------------------------------

  /** The text of a value. */
  ghost predicate IsText(s: seq<byte>, v: Value) {
    Spelled(s, Tokens(v))
  }

  /** Decoding succeeds exactly on the texts of values nested no deeper than allowed, unless one of the first two
      bytes is zero, and gives that value. */
  lemma DecodeExact(s: seq<byte>, max: nat)
    ensures Decode(s, max).Ok? <==>
      !(|s| >= 2 && (s[0] == 0 || s[1] == 0)) && exists v :: IsText(s, v) && Depth(v) <= max
    ensures forall v :: IsText(s, v) && Depth(v) <= max && Decode(s, max).Ok? ==> Decode(s, max).v == Held(v)
    ensures forall v :: IsText(s, v) && Depth(v) > max ==> !Decode(s, max).Ok?
  {
    hide Tok, Process, IsText, Depth, Held;
    if Decode(s, max).Ok? { var v := DecodedIsText(s, max); }
    forall v | IsText(s, v) && !(|s| >= 2 && (s[0] == 0 || s[1] == 0))
      ensures if Depth(v) <= max then Decode(s, max).Ok? && Decode(s, max).v == Held(v)
        else Decode(s, max) == Err(TooDeep)
    {
      TextDecoded(s, v, max);
    }
  }

  lemma DecodedIsText(s: seq<byte>, max: nat) returns (v: Value)
    requires Decode(s, max).Ok?
    ensures IsText(s, v) && Depth(v) <= max && Held(v) == Decode(s, max).v
  {
    hide Tok, Process, Depth, Held, Spelled, Stop, Tokens;
    var (t, r) := Tok(s);
    var p := Process(t, r, 0, max);
    NoTokens(p.rest);
    TokStops(p.rest);
    v := ValueIs(s, 0, max, []);
    assert Tokens(v) + [] == Tokens(v);
  }

  lemma TextDecoded(s: seq<byte>, v: Value, max: nat)
    requires IsText(s, v) && !(|s| >= 2 && (s[0] == 0 || s[1] == 0))
    ensures if Depth(v) <= max then Decode(s, max).Ok? && Decode(s, max).v == Held(v)
      else Decode(s, max) == Err(TooDeep)
  {
    hide Tok, Process, Depth, Held, Spelled, Tokens;
    assert Tokens(v) + [] == Tokens(v);
    ValueRead(s, v, [], 0, max);
    var (t, r) := Tok(s);
    var p := Process(t, r, 0, max);
    if p.Ok? { NoTokens(p.rest); }
  }

  // ----- what is encoded is a text --------------------------------------------------------------------------

  /** Read as one token and nothing else: it is that token. */
  lemma AllOfIt(u: seq<byte>, t: Token)
    requires u != [] && !IsWhite(u[0]) && Tok(u) == (t, []) && !Stops(t)
    ensures Lexeme(u, t)
  {
    hide Tok, Lexeme;
    var i, j := TokenIs(u);
    assert i < |u| ==> u[i..][0] == u[i];
    assert u[i..j] == u;
  }

  /** A token before a text. */
  lemma Prepend(u: seq<byte>, t: Token, rest: seq<byte>, ts: seq<Token>)
    requires Lexeme(u, t) && (t.TNum? ==> Stop(rest)) && Spelled(rest, ts)
    ensures Spelled(u + rest, [t] + ts)
  {
    hide Tok, Lexeme, Stop;
    TokenRead(u, t, rest);
    LexemeGoesOn(u, t);
    TokenFirst(u + rest, ts);
  }

  lemma NumberWritten(n: int)
    requires -LIMIT < n < LIMIT
    ensures Lexeme(NumberText(n), TNum(n))
  {
    hide Tok, Lexeme;
    TokNumber(n, []);
    var u := NumberText(n);
    assert u + [] == u;
    NumberStarts(n);
    AllOfIt(u, TNum(n));
  }

  lemma NumberStarts(n: int)
    ensures NumberText(n) != [] && !IsWhite(NumberText(n)[0])
  {
    DigitsStart(if n < 0 then -n else n);
  }

  lemma {:induction false} DigitsStart(n: nat)
    ensures Digits(n) != [] && IsDigit(Digits(n)[0])
  {
    if n >= 10 { DigitsStart(n / 10); }
  }

  lemma StringWritten(s: seq<byte>)
    ensures Lexeme(Quoted(s), TStr(s))
  {
    hide Tok, Lexeme, Escapes;
    TokQuoted(s, []);
    var u := Quoted(s);
    assert u + [] == u && u[0] == QUOTE;
    AllOfIt(u, TStr(s));
  }

  lemma {:induction false} WrittenIsText(v: Value, rest: seq<byte>, ts: seq<Token>)
    requires Plain(v) && Follows(rest) && Spelled(rest, ts)
    ensures Spelled(Text(v) + rest, Tokens(v) + ts)
    decreases v, 0
  {
    hide Spelled, Quoted, NumberText, Items, Members, ItemTokens, PairTokens, Letters, Worth;
    Marks();
    match v
    case Null => Prepend(NULL, TNull, rest, ts);
    case Bool(b) => Prepend(if b then TRUE else FALSE, TBool(b), rest, ts);
    case Num(n) =>
      NumberWritten(n);
      Prepend(NumberText(n), TNum(n), rest, ts);
    case Str(b) =>
      StringWritten(b);
      Prepend(Quoted(b), TStr(b), rest, ts);
    case Arr(items) =>
      Prepend([CLOSE], TClose, rest, ts);
      ItemsWritten(items, [CLOSE] + rest, [TClose] + ts);
      Bracketed(OPEN, TOpen, Items(items), ItemTokens(items), CLOSE, TClose, rest, ts);
    case Obj(ps) =>
      Prepend([END], TEnd, rest, ts);
      if ps == [] {
        NoMembers([]);
        NoItems();
        assert [] + ([END] + rest) == [END] + rest && [] + ([TEnd] + ts) == [TEnd] + ts;
      } else {
        PairsWritten(ps, [END] + rest, [TEnd] + ts);
      }
      Bracketed(BEGIN, TBegin, Members(ps), PairTokens(ps), END, TEnd, rest, ts);
  }

  /** Brackets around a text. */
  lemma Bracketed(b: byte, t: Token, m: seq<byte>, ms: seq<Token>, e: byte, u: Token, rest: seq<byte>, ts: seq<Token>)
    requires Lexeme([b], t) && !t.TNum? && Spelled(m + ([e] + rest), ms + ([u] + ts))
    ensures Spelled([b] + m + [e] + rest, [t] + ms + [u] + ts)
  {
    hide Spelled, Lexeme;
    Prepend([b], t, m + ([e] + rest), ms + ([u] + ts));
    assert [b] + (m + ([e] + rest)) == [b] + m + [e] + rest;
    assert [t] + (ms + ([u] + ts)) == [t] + ms + [u] + ts;
  }

  lemma Separators()
    ensures Lexeme([COMMA], TComma) && Lexeme([COLON], TColon)
  {
    Marks();
  }

  lemma ItemsParts(vs: seq<Value>)
    requires vs != []
    ensures Items(vs) == Text(vs[0]) + if |vs| == 1 then [] else [COMMA] + Items(vs[1..])
    ensures ItemTokens(vs) == Tokens(vs[0]) + if |vs| == 1 then [] else [TComma] + ItemTokens(vs[1..])
  {
    hide Text, Tokens;
  }

  lemma PairsParts(ps: seq<Pair>)
    requires ps != []
    ensures Members(ps) == Member(ps[0]) + if |ps| == 1 then [] else [COMMA] + Members(ps[1..])
    ensures PairTokens(ps) == OnePair(ps[0]) + if |ps| == 1 then [] else [TComma] + PairTokens(ps[1..])
  {
    hide Member, OnePair;
  }

  lemma Ties<T>(a: seq<T>, b: seq<T>, c: seq<T>, d: seq<T>)
    ensures a + [] + d == a + d && a + (b + c) + d == a + (b + (c + d))
  {
  }

  lemma {:induction false} ItemsWritten(vs: seq<Value>, rest: seq<byte>, ts: seq<Token>)
    requires vs != [] && (forall i :: 0 <= i < |vs| ==> Plain(vs[i])) && Follows(rest) && Spelled(rest, ts)
    ensures Spelled(Items(vs) + rest, ItemTokens(vs) + ts)
    decreases vs, |vs|
  {
    hide Spelled, Text, Tokens, Plain, Items, ItemTokens, Lexeme;
    ItemsParts(vs);
    Ties(Text(vs[0]), [COMMA], Items(vs[1..]), rest);
    Ties(Tokens(vs[0]), [TComma], ItemTokens(vs[1..]), ts);
    if |vs| == 1 {
      WrittenIsText(vs[0], rest, ts);
    } else {
      ItemsWritten(vs[1..], rest, ts);
      var more, toks := Items(vs[1..]) + rest, ItemTokens(vs[1..]) + ts;
      Separators();
      Prepend([COMMA], TComma, more, toks);
      WrittenIsText(vs[0], [COMMA] + more, [TComma] + toks);
    }
  }

  lemma {:induction false} PairsWritten(ps: seq<Pair>, rest: seq<byte>, ts: seq<Token>)
    requires ps != [] && (forall i :: 0 <= i < |ps| ==> PlainPair(ps[i])) && Follows(rest) && Spelled(rest, ts)
    ensures Spelled(Members(ps) + rest, PairTokens(ps) + ts)
    decreases ps, |ps|
  {
    hide Spelled, Member, OnePair, PlainPair, Members, PairTokens, Lexeme;
    PairsParts(ps);
    Ties(Member(ps[0]), [COMMA], Members(ps[1..]), rest);
    Ties(OnePair(ps[0]), [TComma], PairTokens(ps[1..]), ts);
    if |ps| == 1 {
      PairWritten(ps[0], rest, ts);
    } else {
      PairsWritten(ps[1..], rest, ts);
      var more, toks := Members(ps[1..]) + rest, PairTokens(ps[1..]) + ts;
      Separators();
      Prepend([COMMA], TComma, more, toks);
      PairWritten(ps[0], [COMMA] + more, [TComma] + toks);
    }
  }

  lemma {:induction false} PairWritten(p: Pair, rest: seq<byte>, ts: seq<Token>)
    requires PlainPair(p) && Follows(rest) && Spelled(rest, ts)
    ensures Spelled(Member(p) + rest, OnePair(p) + ts)
    decreases p, 0
  {
    hide Spelled, Text, Tokens, Quoted, Plain;
    Marks();
    WrittenIsText(p.val, rest, ts);
    var more, toks := Text(p.val) + rest, Tokens(p.val) + ts;
    Prepend([COLON], TColon, more, toks);
    StringWritten(p.key);
    Prepend(Quoted(p.key), TStr(p.key), [COLON] + more, [TColon] + toks);
    assert Quoted(p.key) + ([COLON] + more) == Member(p) + rest;
    assert [TStr(p.key)] + ([TColon] + toks) == OnePair(p) + ts;
  }

  /** What is encoded is a text of the value, and has no control characters in it. */
  lemma EncodedIsText(v: Value)
    requires Plain(v)
    ensures IsText(Text(v), v) && forall i :: 0 <= i < |Text(v)| ==> 0x20 <= Text(v)[i] != 0x7f
  {
    hide Text, Tokens, Plain;
    NothingLeft();
    WrittenIsText(v, [], []);
    assert Text(v) + [] == Text(v) && Tokens(v) + [] == Tokens(v);
    TextPrints(v);
  }

  lemma NothingLeft()
    ensures Spelled([], []) && Follows([])
  {
    assert White([][..0]);
  }

  ghost predicate Prints(s: seq<byte>) {
    forall i :: 0 <= i < |s| ==> 0x20 <= s[i] != 0x7f
  }

  lemma {:induction false} EscapesPrint(s: seq<byte>)
    ensures Prints(Escapes(s)) && Prints(Quoted(s))
  {
    hide Escape;
    if s != [] {
      EscapesPrint(s[..|s| - 1]);
      EscapePrints(s[|s| - 1]);
    }
  }

  lemma EscapePrints(c: byte)
    ensures Prints(Escape(c))
  {
  }

  lemma {:induction false} DigitsPrint(n: nat)
    ensures Prints(Digits(n))
  {
    if n >= 10 { DigitsPrint(n / 10); }
  }

  lemma {:induction false} TextPrints(v: Value)
    ensures Prints(Text(v))
    decreases v, 0
  {
    hide Quoted, Digits;
    match v
    case Num(n) => DigitsPrint(if n < 0 then -n else n);
    case Str(s) => EscapesPrint(s);
    case Arr(items) => ItemsPrint(items);
    case Obj(ps) => PairsPrint(ps);
    case _ =>
  }

  lemma {:induction false} ItemsPrint(vs: seq<Value>)
    ensures Prints(Items(vs))
    decreases vs, |vs|
  {
    hide Text;
    if vs != [] {
      TextPrints(vs[0]);
      ItemsPrint(vs[1..]);
    }
  }

  lemma {:induction false} PairsPrint(ps: seq<Pair>)
    ensures Prints(Members(ps))
    decreases ps, |ps|
  {
    hide Member;
    if ps != [] {
      PairPrints(ps[0]);
      PairsPrint(ps[1..]);
    }
  }

  lemma {:induction false} PairPrints(p: Pair)
    ensures Prints(Member(p))
    decreases p, 0
  {
    hide Text, Quoted;
    EscapesPrint(p.key);
    TextPrints(p.val);
  }

  // ----- members --------------------------------------------------------------------------------------------

  ghost predicate OneOfEach(ps: seq<Pair>) {
    forall i, j :: 0 <= i < j < |ps| ==> ps[i].key != ps[j].key
  }

  /** Setting a key: its old member goes, the new one comes. */
  lemma {:induction false} SetIs(ps: seq<Pair>, k: seq<byte>, v: Value)
    requires OneOfEach(ps)
    ensures var r := RawSet(ps, k, v);
      OneOfEach(r) && forall p :: p in r <==> (p in ps && p.key != k) || p == Pair(k, v)
  {
    if ps != [] {
      assert ps == [ps[0]] + ps[1..];
      if ps[0].key == k {
        forall p | p in ps[1..] ensures p.key != k { }
      } else {
        SetIs(ps[1..], k, v);
        var r := RawSet(ps[1..], k, v);
        forall j | 0 <= j < |r| ensures r[j].key != ps[0].key { assert r[j] in r; }
      }
    }
  }

  /** The member is among ps, and no later one has its key. */
  ghost predicate LastOfKey(ps: seq<Pair>, p: Pair) {
    exists i :: 0 <= i < |ps| && HeldPair(ps[i]) == p && NotAfter(ps, i + 1, p.key)
  }

  ghost predicate NotAfter(ps: seq<Pair>, i: nat, k: seq<byte>) {
    forall j :: i <= j < |ps| ==> ps[j].key != k
  }

  /** A decoded object has, for every key, the value that came last. */
  lemma {:induction false} LaterWins(ps: seq<Pair>, acc: seq<Pair>, p: Pair)
    requires OneOfEach(acc)
    ensures var r := HeldPairs(ps, acc);
      OneOfEach(r) && (p in r <==> LastOfKey(ps, p) || (p in acc && NotAfter(ps, 0, p.key)))
    decreases |ps|
  {
    hide RawSet, OneOfEach, NotAfter, LastOfKey, Held;
    if ps == [] {
      NoneLast(ps, p);
    } else {
      var q := HeldPair(ps[0]);
      SetIs(acc, q.key, q.val);
      LaterWins(ps[1..], RawSet(acc, q.key, q.val), p);
      LastStep(ps, p);
    }
  }

  lemma NoneLast(ps: seq<Pair>, p: Pair)
    requires ps == []
    ensures !LastOfKey(ps, p) && NotAfter(ps, 0, p.key)
  {
  }

  lemma LastStep(ps: seq<Pair>, p: Pair)
    requires ps != []
    ensures LastOfKey(ps, p) <==> LastOfKey(ps[1..], p) || (HeldPair(ps[0]) == p && NotAfter(ps[1..], 0, p.key))
    ensures NotAfter(ps, 0, p.key) <==> NotAfter(ps[1..], 0, p.key) && ps[0].key != p.key
  {
    hide HeldPair;
    var r := ps[1..];
    forall i: nat ensures NotAfter(ps, i + 1, p.key) <==> NotAfter(r, i, p.key) { Shifted(ps, i, p.key); }
    if LastOfKey(ps, p) {
      var i :| 0 <= i < |ps| && HeldPair(ps[i]) == p && NotAfter(ps, i + 1, p.key);
      if i > 0 { assert HeldPair(r[i - 1]) == p && NotAfter(r, i - 1 + 1, p.key); }
    }
    if LastOfKey(r, p) {
      var i :| 0 <= i < |r| && HeldPair(r[i]) == p && NotAfter(r, i + 1, p.key);
      assert HeldPair(ps[i + 1]) == p && NotAfter(ps, i + 1 + 1, p.key);
    }
  }

  lemma Shifted(ps: seq<Pair>, i: nat, k: seq<byte>)
    requires ps != []
    ensures NotAfter(ps, i + 1, k) <==> NotAfter(ps[1..], i, k)
  {
    forall j | i <= j < |ps| - 1 ensures ps[1..][j] == ps[j + 1] { }
    if NotAfter(ps[1..], i, k) {
      forall j | i + 1 <= j < |ps| ensures ps[j].key != k { assert ps[j] == ps[1..][j - 1]; }
    }
  }
}
