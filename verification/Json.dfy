/**
 JSON as lua_cjson.c writes and reads it, with its default settings.  Text and Decode say what
 text a value becomes and what value a text becomes; the round trip is proved for every value of
 strings of any bytes, booleans, null, integers, arrays and objects, with its exact depth limits.
 */
module Json {
  import opened Octets

  /** Lua values as far as JSON has them; the empty table is the empty object. */
  datatype Value =
    | Null | Bool(b: bool) | Num(n: int) | Str(s: seq<byte>) | Arr(items: seq<Value>) | Obj(pairs: seq<Pair>)

  datatype Pair = Pair(key: seq<byte>, val: Value)

  const QUOTE: byte := 34
  const COMMA: byte := 44
  const MINUS: byte := 45
  const SLASH: byte := 47
  const COLON: byte := 58
  const OPEN: byte := 91
  const BACKSLASH: byte := 92
  const CLOSE: byte := 93
  const BEGIN: byte := 123
  const END: byte := 125

  // ----- encoding ------------------------------------------------------------------------------

  function HexDigit(d: int): byte
    requires 0 <= d < 16
  {
    if d < 10 then 48 + d else 87 + d
  }

  /** char2escape: quotes, both slashes, control characters and DEL. */
  function Escape(c: byte): seq<byte> {
    if c == 8 then [BACKSLASH, 98]
    else if c == 9 then [BACKSLASH, 116]
    else if c == 10 then [BACKSLASH, 110]
    else if c == 12 then [BACKSLASH, 102]
    else if c == 13 then [BACKSLASH, 114]
    else if c < 32 || c == 127 then [BACKSLASH, 117, 48, 48, HexDigit(c / 16), HexDigit(c % 16)]
    else if c == QUOTE || c == SLASH || c == BACKSLASH then [BACKSLASH, c]
    else [c]
  }

  function Escapes(s: seq<byte>): seq<byte> {
    if s == [] then [] else Escapes(s[..|s| - 1]) + Escape(s[|s| - 1])
  }

  function Quoted(s: seq<byte>): seq<byte> {
    [QUOTE] + Escapes(s) + [QUOTE]
  }

  function Digits(n: nat): seq<byte> {
    (if n < 10 then [] else Digits(n / 10)) + [48 + n % 10]
  }

  function NumberText(n: int): seq<byte> {
    if n < 0 then [MINUS] + Digits(-n) else Digits(n)
  }

  const LIMIT: int := 100_000_000_000_000

  const TRUE: seq<byte> := [116, 114, 117, 101]
  const FALSE: seq<byte> := [102, 97, 108, 115, 101]
  const NULL: seq<byte> := [110, 117, 108, 108]

  /** Values with a text of their own: integers of at most 14 digits, arrays that are not empty,
      each key once. */
  ghost predicate Plain(v: Value) {
    match v
    case Num(n) => -LIMIT < n < LIMIT
    case Arr(items) => items != [] && forall i :: 0 <= i < |items| ==> Plain(items[i])
    case Obj(ps) =>
      && (forall i :: 0 <= i < |ps| ==> PlainPair(ps[i]))
      && (forall i, j :: 0 <= i < j < |ps| ==> ps[i].key != ps[j].key)
    case _ => true
  }

  ghost predicate PlainPair(p: Pair) {
    Plain(p.val)
  }

  ghost function Text(v: Value): seq<byte>
    decreases v, 0
  {
    match v
    case Null => NULL
    case Bool(b) => if b then TRUE else FALSE
    case Num(n) => NumberText(n)
    case Str(s) => Quoted(s)
    case Arr(items) => [OPEN] + Items(items) + [CLOSE]
    case Obj(ps) => [BEGIN] + Members(ps) + [END]
  }

  ghost function Items(vs: seq<Value>): seq<byte>
    decreases vs, |vs|
  {
    if vs == [] then [] else
      Text(vs[0]) + if |vs| == 1 then [] else [COMMA] + Items(vs[1..])
  }

  ghost function Member(p: Pair): seq<byte>
    decreases p, 0
  {
    Quoted(p.key) + [COLON] + Text(p.val)
  }

  ghost function Members(ps: seq<Pair>): seq<byte>
    decreases ps, |ps|
  {
    if ps == [] then [] else
      Member(ps[0]) + if |ps| == 1 then [] else [COMMA] + Members(ps[1..])
  }

  /** Tables within tables. */
  ghost function Depth(v: Value): nat
    decreases v, 0
  {
    match v
    case Arr(items) => 1 + DepthItems(items)
    case Obj(ps) => 1 + DepthPairs(ps)
    case _ => 0
  }

  ghost function Max(a: nat, b: nat): nat {
    if a < b then b else a
  }

  ghost function DepthItems(vs: seq<Value>): nat
    decreases vs, |vs|
  {
    if vs == [] then 0 else Max(Depth(vs[0]), DepthItems(vs[1..]))
  }

  ghost function DepthPair(p: Pair): nat
    decreases p, 0
  {
    Depth(p.val)
  }

  ghost function DepthPairs(ps: seq<Pair>): nat
    decreases ps, |ps|
  {
    if ps == [] then 0 else Max(DepthPair(ps[0]), DepthPairs(ps[1..]))
  }

  // ----- tokens --------------------------------------------------------------------------------

  datatype Error = BadToken | BadString | TooDeep | Unexpected | WideText | OtherNumber

  datatype Token =
    | TBegin | TEnd | TOpen | TClose | TColon | TComma | TEof
    | TStr(s: seq<byte>) | TNum(n: int) | TBool(b: bool) | TNull | TErr(e: Error)

  /** The byte at k; text ends with a zero byte. */
  function At(s: seq<byte>, k: nat): byte {
    if k < |s| then s[k] else 0
  }

  function Hex(c: byte): (r: int)
    ensures -1 <= r < 16
  {
    if 48 <= c <= 57 then c - 48
    else if 97 <= c <= 102 then c - 87
    else if 65 <= c <= 70 then c - 55
    else -1
  }

  function Hex4(s: seq<byte>, k: nat): (r: int)
    ensures -1 <= r < 0x1_0000
    ensures r >= 0 ==> k + 4 <= |s|
  {
    var a, b, c, d := Hex(At(s, k)), Hex(At(s, k + 1)), Hex(At(s, k + 2)), Hex(At(s, k + 3));
    if a < 0 || b < 0 || c < 0 || d < 0 then -1 else 0x1000 * a + 0x100 * b + 0x10 * c + d
  }

  /** codepoint_to_utf8: section 3 of RFC 3629. */
  function Utf8(u: int): (r: seq<byte>)
    requires 0 <= u < 0x11_0000
    ensures 1 <= |r| <= 4
    ensures u < 0x1_0000 ==> |r| <= 3
  {
    if u <= 0x7f then [u]
    else if u <= 0x7ff then [0xc0 + u / 0x40, 0x80 + u % 0x40]
    else if u <= 0xffff then [0xe0 + u / 0x1000, 0x80 + u / 0x40 % 0x40, 0x80 + u % 0x40]
    else [0xf0 + u / 0x4_0000, 0x80 + u / 0x1000 % 0x40, 0x80 + u / 0x40 % 0x40, 0x80 + u % 0x40]
  }

  datatype Piece = Piece(bytes: seq<byte>, n: nat) | NoPiece

  /** A \\u escape, or two of them for a surrogate pair (section 2.2 of RFC 2781). */
  function Unicode(s: seq<byte>): (r: Piece)
    requires |s| >= 2
    ensures r.Piece? ==> 6 <= r.n <= |s| && 1 <= |r.bytes| <= 4
  {
    var u := Hex4(s, 2);
    if u < 0 then NoPiece
    else if 0xd800 <= u < 0xe000 then
      if u >= 0xdc00 || At(s, 6) != BACKSLASH || At(s, 7) != 117 then NoPiece else
      var l := Hex4(s, 8);
      if l < 0xdc00 || l >= 0xe000 then NoPiece
      else Piece(Utf8((u - 0xd800) * 0x400 + (l - 0xdc00) + 0x1_0000), 12)
    else Piece(Utf8(u), 6)
  }

  /** escape2char; 0 for a wrong escape. */
  function Unescape(c: byte): byte {
    if c == QUOTE || c == BACKSLASH || c == SLASH then c
    else if c == 98 then 8 else if c == 116 then 9 else if c == 110 then 10
    else if c == 102 then 12 else if c == 114 then 13
    else 0
  }

  /** One character of a string: its bytes and how much text it took. */
  function Char(s: seq<byte>): (r: Piece)
    requires s != []
    ensures r.Piece? ==> 1 <= r.n <= |s| && 1 <= |r.bytes| <= r.n
  {
    if s[0] != BACKSLASH then Piece([s[0]], 1)
    else if At(s, 1) == 117 then Unicode(s)
    else if Unescape(At(s, 1)) == 0 then NoPiece
    else Piece([Unescape(At(s, 1))], 2)
  }

  datatype StrResult = StrOk(s: seq<byte>, rest: seq<byte>) | StrBad

  /** The string after its opening quote, up to and with the closing one. */
  ghost function StrBody(s: seq<byte>): (r: StrResult)
    ensures r.StrOk? ==> |r.rest| < |s| && |r.s| + |r.rest| < |s|
    decreases |s|
  {
    if s == [] || s[0] == 0 then StrBad
    else if s[0] == QUOTE then StrOk([], s[1..])
    else match Char(s)
      case NoPiece => StrBad
      case Piece(b, n) =>
        match StrBody(s[n..])
        case StrBad => StrBad
        case StrOk(t, rest) => StrOk(b + t, rest)
  }

  predicate IsDigit(c: byte) {
    48 <= c <= 57
  }

  function DigitRun(s: seq<byte>): (n: nat)
    ensures n <= |s| && (forall i :: 0 <= i < n ==> IsDigit(s[i])) && (n < |s| ==> !IsDigit(s[n]))
  {
    if s == [] || !IsDigit(s[0]) then 0 else
      var m := DigitRun(s[1..]);
      assert forall i :: 0 < i < m + 1 ==> s[i] == s[1..][i - 1];
      m + 1
  }

  function Decimal(s: seq<byte>): int {
    if s == [] then 0 else 10 * Decimal(s[..|s| - 1]) + s[|s| - 1] - 48
  }

  /** Integer literals of at most 15 digits; other forms of numbers are not modelled. */
  function NumBody(d: seq<byte>, neg: bool): (r: (Token, seq<byte>))
    ensures r.0.TErr? || (r.0.TNum? && |r.1| < |d|)
    ensures r.0.TNum? ==> r.1 == d[DigitRun(d)..]
  {
    var n := DigitRun(d);
    var c := At(d, n);
    if n == 0 then (TErr(BadToken), d)
    else if n > 15 || c == 46 || c == 101 || c == 69 || (n == 1 && d[0] == 48 && (c == 120 || c == 88))
    then (TErr(OtherNumber), d)
    else (TNum(if neg then -Decimal(d[..n]) else Decimal(d[..n])), d[n..])
  }

  function NumTok(s: seq<byte>): (r: (Token, seq<byte>))
    requires s != []
    ensures r.0.TErr? || (r.0.TNum? && |r.1| < |s|)
  {
    if s[0] == MINUS then NumBody(s[1..], true) else NumBody(s, false)
  }

  function Skip(s: seq<byte>): (r: seq<byte>)
    ensures |r| <= |s|
  {
    if s != [] && (s[0] == 32 || s[0] == 9 || s[0] == 10 || s[0] == 13) then Skip(s[1..]) else s
  }

  ghost function Tok(s0: seq<byte>): (r: (Token, seq<byte>))
    ensures r.0.TErr? || r.0.TEof? || |r.1| < |s0|
  {
    var s := Skip(s0);
    if s == [] || s[0] == 0 then (TEof, s)
    else if s[0] == BEGIN then (TBegin, s[1..])
    else if s[0] == END then (TEnd, s[1..])
    else if s[0] == OPEN then (TOpen, s[1..])
    else if s[0] == CLOSE then (TClose, s[1..])
    else if s[0] == COMMA then (TComma, s[1..])
    else if s[0] == COLON then (TColon, s[1..])
    else if s[0] == QUOTE then
      (match StrBody(s[1..]) case StrOk(t, rest) => (TStr(t), rest) case StrBad => (TErr(BadString), s))
    else if s[0] == MINUS || IsDigit(s[0]) then NumTok(s)
    else if TRUE <= s then (TBool(true), s[4..])
    else if FALSE <= s then (TBool(false), s[5..])
    else if NULL <= s then (TNull, s[4..])
    else if s[0] == 43 || s[0] == 105 || s[0] == 73 || s[0] == 110 || s[0] == 78 then (TErr(OtherNumber), s)
    else (TErr(BadToken), s)
  }

  // ----- values --------------------------------------------------------------------------------

  datatype Result = Ok(v: Value, rest: seq<byte>) | Err(e: Error)
  datatype ItemsResult = ItemsOk(vs: seq<Value>, rest: seq<byte>) | ItemsErr(e: Error)
  datatype PairsResult = PairsOk(ps: seq<Pair>, rest: seq<byte>) | PairsErr(e: Error)

  predicate Stops(t: Token) {
    t.TErr? || t.TEof?
  }

  function Fault(t: Token): Error {
    if t.TErr? then t.e else Unexpected
  }

  /** json_process_value: t has been read and s follows it, depth tables are open, max are allowed. */
  ghost function Process(t: Token, s: seq<byte>, depth: nat, max: nat): (r: Result)
    ensures r.Ok? ==> |r.rest| <= |s|
    decreases |s|, 0
  {
    match t
    case TStr(b) => Ok(Str(b), s)
    case TNum(n) => Ok(Num(n), s)
    case TBool(b) => Ok(Bool(b), s)
    case TNull => Ok(Null, s)
    case TOpen =>
      if depth + 1 > max then Err(TooDeep) else
      var (u, r) := Tok(s);
      if u == TClose then Ok(Obj([]), r)
      else if Stops(u) then Err(Fault(u))
      else (match ParseItems(u, r, depth + 1, max)
            case ItemsOk(vs, rest) => Ok(Arr(vs), rest)
            case ItemsErr(e) => Err(e))
    case TBegin =>
      if depth + 1 > max then Err(TooDeep) else
      var (u, r) := Tok(s);
      if u == TEnd then Ok(Obj([]), r)
      else if Stops(u) then Err(Fault(u))
      else (match ParsePairs(u, r, depth + 1, max, [])
            case PairsOk(ps, rest) => Ok(Obj(ps), rest)
            case PairsErr(e) => Err(e))
    case _ => Err(Fault(t))
  }

  ghost function ParseItems(t: Token, s: seq<byte>, depth: nat, max: nat): (r: ItemsResult)
    ensures r.ItemsOk? ==> |r.rest| <= |s|
    decreases |s|, 1
  {
    match Process(t, s, depth, max)
    case Err(e) => ItemsErr(e)
    case Ok(v, r) =>
      var (u, r1) := Tok(r);
      if u == TClose then ItemsOk([v], r1)
      else if u != TComma then ItemsErr(Fault(u))
      else
        var (w, r2) := Tok(r1);
        match ParseItems(w, r2, depth, max)
        case ItemsErr(e) => ItemsErr(e)
        case ItemsOk(vs, rest) => ItemsOk([v] + vs, rest)
  }

  /** lua_rawset with a string key and a value that is not nil. */
  function RawSet(ps: seq<Pair>, k: seq<byte>, v: Value): seq<Pair> {
    if ps == [] then [Pair(k, v)]
    else if ps[0].key == k then [Pair(k, v)] + ps[1..]
    else [ps[0]] + RawSet(ps[1..], k, v)
  }

  /** The colon and the value after a key. */
  ghost function ParseMember(s: seq<byte>, depth: nat, max: nat): (r: Result)
    ensures r.Ok? ==> |r.rest| < |s|
    decreases |s|, 1
  {
    var (c, r0) := Tok(s);
    if c != TColon then Err(Fault(c)) else
    var (w, r1) := Tok(r0);
    if Stops(w) then Err(Fault(w)) else Process(w, r1, depth, max)
  }

  ghost function ParsePairs(t: Token, s: seq<byte>, depth: nat, max: nat, acc: seq<Pair>): (r: PairsResult)
    ensures r.PairsOk? ==> |r.rest| <= |s|
    decreases |s|, 2
  {
    if !t.TStr? then PairsErr(Fault(t)) else
    match ParseMember(s, depth, max)
    case Err(e) => PairsErr(e)
    case Ok(v, r) =>
      var acc' := RawSet(acc, t.s, v);
      var (u, r1) := Tok(r);
      if u == TEnd then PairsOk(acc', r1)
      else if u != TComma then PairsErr(Fault(u))
      else
        var (x, r2) := Tok(r1);
        if Stops(x) then PairsErr(Fault(x)) else ParsePairs(x, r2, depth, max, acc')
  }

  /** json_decode: one value and nothing but white space after it. */
  ghost function Decode(s: seq<byte>, max: nat): Result {
    if |s| >= 2 && (s[0] == 0 || s[1] == 0) then Err(WideText) else
    var (t, r) := Tok(s);
    match Process(t, r, 0, max)
    case Err(e) => Err(e)
    case Ok(v, r1) =>
      var (u, r2) := Tok(r1);
      if u == TEof then Ok(v, r2) else Err(Fault(u))
  }

  // ----- reading back tokens --------------------------------------------------------------------

  /** A byte comes back from its escape. */
  lemma CharOfEscape(c: byte, rest: seq<byte>)
    ensures var s := Escape(c) + rest; s[0] != 0 && s[0] != QUOTE && Char(s) == Piece([c], |Escape(c)|)
  {
    var s := Escape(c) + rest;
    if c != 8 && c != 9 && c != 10 && c != 12 && c != 13 && (c < 32 || c == 127) {
      HexBack(c / 16);
      HexBack(c % 16);
      assert At(s, 1) == 117 && At(s, 2) == 48 && At(s, 3) == 48;
      assert Hex4(s, 2) == 16 * (c / 16) + c % 16 == c;
    }
  }

  lemma HexBack(d: int)
    requires 0 <= d < 16
    ensures Hex(HexDigit(d)) == d
  {
  }

  lemma {:induction false} EscapesCons(s: seq<byte>)
    requires s != []
    ensures Escapes(s) == Escape(s[0]) + Escapes(s[1..])
    decreases |s|
  {
    hide Escape;
    if |s| == 1 {
      assert s[..0] == [] && s[1..] == [];
    } else {
      var n := |s| - 1;
      EscapesCons(s[..n]);
      assert s[..n][1..] == s[1..][..n - 1];
      assert Escape(s[0]) + Escapes(s[1..][..n - 1]) + Escape(s[n]) ==
        Escape(s[0]) + (Escapes(s[1..][..n - 1]) + Escape(s[n]));
    }
  }

  lemma {:induction false} StrBack(s: seq<byte>, rest: seq<byte>)
    ensures StrBody(Escapes(s) + [QUOTE] + rest) == StrOk(s, rest)
    decreases |s|
  {
    hide Escape, Char;
    if s == [] {
      assert ([QUOTE] + rest)[1..] == rest;
      assert Escapes(s) + [QUOTE] + rest == [QUOTE] + rest;
    } else {
      EscapesCons(s);
      var e, tail := Escape(s[0]), Escapes(s[1..]) + [QUOTE] + rest;
      var t := Escapes(s) + [QUOTE] + rest;
      assert t == e + tail;
      CharOfEscape(s[0], tail);
      assert t[|e|..] == tail;
      StrBack(s[1..], rest);
      assert [s[0]] + s[1..] == s;
    }
  }

  lemma TokQuoted(s: seq<byte>, rest: seq<byte>)
    ensures Tok(Quoted(s) + rest) == (TStr(s), rest)
  {
    hide StrBody, Escapes, NumTok;
    var t := Quoted(s) + rest;
    assert t[1..] == Escapes(s) + [QUOTE] + rest;
    StrBack(s, rest);
  }

  /** What may follow a value inside a text. */
  predicate Follows(rest: seq<byte>) {
    rest == [] || rest[0] == COMMA || rest[0] == CLOSE || rest[0] == END
  }

  lemma {:induction false} DigitsShape(n: nat, k: nat)
    requires n < Ten(k) && k > 0
    ensures 1 <= |Digits(n)| <= k && (n < 10 <==> |Digits(n)| == 1)
    ensures forall i :: 0 <= i < |Digits(n)| ==> IsDigit(Digits(n)[i])
    decreases n
  {
    if n >= 10 {
      assert k > 1 by { assert Ten(1) == 10 * Ten(0); }
      assert n / 10 < Ten(k - 1);
      DigitsShape(n / 10, k - 1);
    }
  }

  lemma {:induction false} DigitsValue(n: nat)
    ensures Decimal(Digits(n)) == n
    decreases n
  {
    var d := Digits(n);
    var m := |d| - 1;
    if n < 10 {
      assert d[..m] == [];
    } else {
      assert d[..m] == Digits(n / 10);
      DigitsValue(n / 10);
    }
  }

  function Ten(k: nat): (r: nat)
    ensures r > 0
  {
    if k == 0 then 1 else 10 * Ten(k - 1)
  }

  lemma TenLimit()
    ensures Ten(14) == LIMIT
  {
    assert Ten(4) == 10000;
    assert Ten(8) == 100000000 by { assert Ten(6) == 1000000; }
    assert Ten(12) == 1000000000000 by { assert Ten(10) == 10000000000; }
  }

  lemma {:induction false} RunOf(d: seq<byte>, rest: seq<byte>)
    requires (forall i :: 0 <= i < |d| ==> IsDigit(d[i])) && (rest != [] ==> !IsDigit(rest[0]))
    ensures DigitRun(d + rest) == |d|
  {
    if d != [] {
      RunOf(d[1..], rest);
      assert (d + rest)[1..] == d[1..] + rest;
    } else {
      assert d + rest == rest;
    }
  }

  lemma NumBodyBack(d: seq<byte>, neg: bool, rest: seq<byte>)
    requires 1 <= |d| <= 14 && (forall i :: 0 <= i < |d| ==> IsDigit(d[i])) && Follows(rest)
    ensures NumBody(d + rest, neg) == (TNum(if neg then -Decimal(d) else Decimal(d)), rest)
  {
    hide DigitRun, Decimal;
    var e := d + rest;
    RunOf(d, rest);
    assert e[..|d|] == d && e[|d|..] == rest;
    assert At(e, |d|) == if rest == [] then 0 else rest[0];
  }

  lemma TokNumber(n: int, rest: seq<byte>)
    requires -LIMIT < n < LIMIT && Follows(rest)
    ensures Tok(NumberText(n) + rest) == (TNum(n), rest)
  {
    hide Digits, Decimal, StrBody, Ten, NumBody;
    var m := if n < 0 then -n else n;
    TenLimit();
    DigitsShape(m, 14);
    DigitsValue(m);
    var d := Digits(m);
    NumBodyBack(d, n < 0, rest);
    assert IsDigit(d[0]);
    if n < 0 { TokMinus(d + rest, [MINUS] + d + rest); } else { TokDigit(d + rest); }
  }

  lemma TokMinus(e: seq<byte>, t: seq<byte>)
    requires t == [MINUS] + e
    ensures Tok(t) == NumBody(e, true)
  {
    hide StrBody, NumBody;
    assert t[1..] == e;
  }

  lemma TokDigit(e: seq<byte>)
    requires e != [] && IsDigit(e[0])
    ensures Tok(e) == NumBody(e, false)
  {
    hide StrBody, NumBody;
  }

  lemma TokWords(rest: seq<byte>)
    ensures Tok(TRUE + rest) == (TBool(true), rest) && Tok(FALSE + rest) == (TBool(false), rest)
    ensures Tok(NULL + rest) == (TNull, rest)
  {
    hide StrBody, NumTok;
    assert (TRUE + rest)[4..] == rest && (FALSE + rest)[5..] == rest && (NULL + rest)[4..] == rest;
  }

  lemma TokMark(c: byte, rest: seq<byte>)
    ensures c == BEGIN ==> Tok([c] + rest) == (TBegin, rest)
    ensures c == END ==> Tok([c] + rest) == (TEnd, rest)
    ensures c == OPEN ==> Tok([c] + rest) == (TOpen, rest)
    ensures c == CLOSE ==> Tok([c] + rest) == (TClose, rest)
    ensures c == COMMA ==> Tok([c] + rest) == (TComma, rest)
    ensures c == COLON ==> Tok([c] + rest) == (TColon, rest)
  {
    hide StrBody, NumTok;
    assert ([c] + rest)[1..] == rest;
  }

  // ----- reading back values ----------------------------------------------------------------------

  /** What processing gives for a value of that depth. */
  ghost function Back(v: Value, rest: seq<byte>, depth: nat, max: nat): Result {
    if Depth(v) + depth <= max then Ok(v, rest) else Err(TooDeep)
  }

  /** A value's text, then other text: its first token, and the value from there. */
  lemma {:induction false} Reads(v: Value, rest: seq<byte>, depth: nat, max: nat)
    requires Plain(v) && Follows(rest) && depth <= max
    ensures var (t, r) := Tok(Text(v) + rest);
      !Stops(t) && t != TClose && t != TEnd && Process(t, r, depth, max) == Back(v, rest, depth, max)
    decreases v, 0
  {
    hide Tok, Quoted, NumberText;
    match v {
      case Null => TokWords(rest);
      case Bool(b) => TokWords(rest);
      case Num(n) => TokNumber(n, rest);
      case Str(s) => TokQuoted(s, rest);
      case Arr(items) => ReadsArray(items, rest, depth, max);
      case Obj(ps) => ReadsObject(ps, rest, depth, max);
    }
  }

  lemma {:induction false} ReadsArray(items: seq<Value>, rest: seq<byte>, depth: nat, max: nat)
    requires items != [] && (forall i :: 0 <= i < |items| ==> Plain(items[i])) && Follows(rest) && depth <= max
    ensures Tok(Text(Arr(items)) + rest) == (TOpen, Items(items) + [CLOSE] + rest)
    ensures Process(TOpen, Items(items) + [CLOSE] + rest, depth, max) == Back(Arr(items), rest, depth, max)
    decreases items, |items| + 1
  {
    hide Tok, Text, Items, Plain;
    var r := Items(items) + [CLOSE] + rest;
    ArrayText(items, rest);
    TokMark(OPEN, r);
    if depth + 1 <= max { ItemsRead(items, rest, depth + 1, max); }
  }

  lemma ArrayText(items: seq<Value>, rest: seq<byte>)
    ensures Text(Arr(items)) + rest == [OPEN] + (Items(items) + [CLOSE] + rest)
  {
    hide Items;
  }

  lemma {:induction false} ItemsRead(vs: seq<Value>, rest: seq<byte>, depth: nat, max: nat)
    requires vs != [] && (forall i :: 0 <= i < |vs| ==> Plain(vs[i])) && depth <= max
    ensures var (t, r) := Tok(Items(vs) + [CLOSE] + rest);
      && !Stops(t) && t != TClose
      && ParseItems(t, r, depth, max) == if DepthItems(vs) + depth <= max then ItemsOk(vs, rest) else ItemsErr(TooDeep)
    decreases vs, |vs|
  {
    hide Tok, Text, Plain, Process, Depth, Items, DepthItems, Follows, ParseItems;
    var more := Items(vs[1..]) + [CLOSE] + rest;
    var tail := if |vs| == 1 then [CLOSE] + rest else [COMMA] + more;
    ItemsText(vs, rest);
    DepthFirst(vs);
    assert Follows(tail) by { ItemFollows(vs, rest); }
    Reads(vs[0], tail, depth, max);
    var (t, r) := Tok(Items(vs) + [CLOSE] + rest);
    ItemsUnfolded(t, r, depth, max);
    if |vs| == 1 {
      assert [vs[0]] == vs;
      TokMark(CLOSE, rest);
    } else {
      TokMark(COMMA, more);
      ItemsRead(vs[1..], rest, depth, max);
      assert [vs[0]] + vs[1..] == vs;
    }
  }

  lemma ItemsUnfolded(t: Token, s: seq<byte>, depth: nat, max: nat)
    ensures ParseItems(t, s, depth, max) == match Process(t, s, depth, max)
      case Err(e) => ItemsErr(e)
      case Ok(v, r) =>
        var (u, r1) := Tok(r);
        if u == TClose then ItemsOk([v], r1) else if u != TComma then ItemsErr(Fault(u)) else
        match ParseItems(Tok(r1).0, Tok(r1).1, depth, max)
        case ItemsErr(e) => ItemsErr(e)
        case ItemsOk(vs, rest) => ItemsOk([v] + vs, rest)
  {
    hide Tok, Process;
  }

  lemma DepthFirst(vs: seq<Value>)
    requires vs != []
    ensures DepthItems(vs) == if |vs| == 1 then Depth(vs[0]) else Max(Depth(vs[0]), DepthItems(vs[1..]))
  {
    hide Depth;
    assert |vs| == 1 ==> vs[1..] == [];
  }

  lemma ItemFollows(vs: seq<Value>, rest: seq<byte>)
    requires vs != []
    ensures Follows(if |vs| == 1 then [CLOSE] + rest else [COMMA] + (Items(vs[1..]) + [CLOSE] + rest))
  {
    hide Items;
  }

  lemma ItemsText(vs: seq<Value>, rest: seq<byte>)
    requires vs != []
    ensures Items(vs) + [CLOSE] + rest ==
      Text(vs[0]) + if |vs| == 1 then [CLOSE] + rest else [COMMA] + (Items(vs[1..]) + [CLOSE] + rest)
  {
    hide Text, Items;
    ItemsUnfold(vs);
    var t := Text(vs[0]);
    if |vs| == 1 {
      Tie(t, [CLOSE], rest);
    } else {
      var m := Items(vs[1..]);
      Flatten(t, [COMMA], m, [CLOSE], rest);
      Tie(t, [COMMA], m + [CLOSE] + rest);
    }
  }

  lemma Tie(a: seq<byte>, b: seq<byte>, c: seq<byte>)
    ensures a + b + c == a + (b + c)
  {
  }

  lemma ItemsUnfold(vs: seq<Value>)
    requires vs != []
    ensures if |vs| == 1 then Items(vs) == Text(vs[0]) else Items(vs) == Text(vs[0]) + ([COMMA] + Items(vs[1..]))
  {
    hide Text;
  }

  lemma {:induction false} ReadsObject(ps: seq<Pair>, rest: seq<byte>, depth: nat, max: nat)
    requires (forall i :: 0 <= i < |ps| ==> PlainPair(ps[i])) && DistinctKeys(ps) && Follows(rest) && depth <= max
    ensures Tok(Text(Obj(ps)) + rest) == (TBegin, Members(ps) + [END] + rest)
    ensures Process(TBegin, Members(ps) + [END] + rest, depth, max) == Back(Obj(ps), rest, depth, max)
    decreases ps, |ps| + 1
  {
    hide Tok, Text, Plain, Members, DistinctKeys, NewKeys, Follows, Process;
    var r := Members(ps) + [END] + rest;
    ObjectText(ps, rest);
    TokMark(BEGIN, r);
    if ps == [] {
      NoMembers(rest);
      TokMark(END, rest);
      EmptyObject(r, depth, max);
    } else {
      if depth + 1 <= max {
        NothingYet(ps);
        MembersRead(ps, rest, depth + 1, max, []);
        assert [] + ps == ps;
      }
      ObjectRead(r, depth, max);
    }
  }

  lemma NoMembers(rest: seq<byte>)
    ensures Members([]) + [END] + rest == [END] + rest
  {
  }

  lemma NothingYet(ps: seq<Pair>)
    ensures NewKeys([], ps)
  {
  }

  lemma EmptyObject(s: seq<byte>, depth: nat, max: nat)
    requires Tok(s).0 == TEnd
    ensures Process(TBegin, s, depth, max) == Back(Obj([]), Tok(s).1, depth, max)
  {
    hide Tok;
  }

  lemma ObjectRead(s: seq<byte>, depth: nat, max: nat)
    ensures var (t, r) := Tok(s);
      Process(TBegin, s, depth, max) == if depth + 1 > max then Err(TooDeep) else
        if t == TEnd then Ok(Obj([]), r) else if Stops(t) then Err(Fault(t)) else
        match ParsePairs(t, r, depth + 1, max, [])
        case PairsOk(ps, rest) => Ok(Obj(ps), rest)
        case PairsErr(e) => Err(e)
  {
    hide Tok, ParsePairs;
  }

  lemma ObjectText(ps: seq<Pair>, rest: seq<byte>)
    ensures Text(Obj(ps)) + rest == [BEGIN] + (Members(ps) + [END] + rest)
  {
    hide Members;
  }

  ghost predicate DistinctKeys(ps: seq<Pair>) {
    forall i, j :: 0 <= i < j < |ps| ==> ps[i].key != ps[j].key
  }

  ghost predicate NewKeys(acc: seq<Pair>, ps: seq<Pair>) {
    forall i, j :: 0 <= i < |acc| && 0 <= j < |ps| ==> acc[i].key != ps[j].key
  }

  lemma {:induction false} SetNew(acc: seq<Pair>, k: seq<byte>, v: Value)
    requires forall i :: 0 <= i < |acc| ==> acc[i].key != k
    ensures RawSet(acc, k, v) == acc + [Pair(k, v)]
  {
    if acc != [] {
      SetNew(acc[1..], k, v);
      assert [acc[0]] + acc[1..] == acc;
    }
  }

  lemma {:induction false} MembersRead(ps: seq<Pair>, rest: seq<byte>, depth: nat, max: nat, acc: seq<Pair>)
    requires ps != [] && (forall i :: 0 <= i < |ps| ==> PlainPair(ps[i])) && DistinctKeys(ps) && NewKeys(acc, ps)
    requires depth <= max
    ensures var (t, r) := Tok(Members(ps) + [END] + rest);
      && !Stops(t) && t != TEnd
      && ParsePairs(t, r, depth, max, acc) == if DepthPairs(ps) + depth <= max then PairsOk(acc + ps, rest)
        else PairsErr(TooDeep)
    decreases ps, |ps|
  {
    hide Tok, Text, Plain, Process, Depth, ParseMember, RawSet, Quoted;
    var p := ps[0];
    var more := Members(ps[1..]) + [END] + rest;
    var tail := if |ps| == 1 then [END] + rest else [COMMA] + more;
    MembersText(ps, rest);
    TokQuoted(p.key, [COLON] + Text(p.val) + tail);
    MemberRead(p, tail, depth, max);
    SetNew(acc, p.key, p.val);
    if |ps| == 1 {
      assert ps[1..] == [] && [Pair(p.key, p.val)] == ps;
      TokMark(END, rest);
    } else {
      TokMark(COMMA, more);
      MembersRead(ps[1..], rest, depth, max, acc + [Pair(p.key, p.val)]);
      assert acc + [Pair(p.key, p.val)] + ps[1..] == acc + ps;
    }
  }

  lemma {:induction false} MemberRead(p: Pair, tail: seq<byte>, depth: nat, max: nat)
    requires PlainPair(p) && Follows(tail) && depth <= max
    ensures ParseMember([COLON] + Text(p.val) + tail, depth, max) == Back(p.val, tail, depth, max)
    decreases p, 0
  {
    hide Tok, Text, Plain, Process;
    var s := Text(p.val) + tail;
    assert [COLON] + Text(p.val) + tail == [COLON] + s;
    TokMark(COLON, s);
    Reads(p.val, tail, depth, max);
  }

  /** The text of the members up to the first value's end, and what comes after. */
  lemma MembersText(ps: seq<Pair>, rest: seq<byte>)
    requires ps != []
    ensures Members(ps) + [END] + rest ==
      Quoted(ps[0].key) + ([COLON] + Text(ps[0].val) +
        if |ps| == 1 then [END] + rest else [COMMA] + (Members(ps[1..]) + [END] + rest))
  {
    hide Text, Quoted, Members;
    var q, t := Quoted(ps[0].key), Text(ps[0].val);
    MembersUnfold(ps);
    if |ps| == 1 {
      Regroup(q, [COLON], t, [END], rest);
    } else {
      var m := Members(ps[1..]);
      Regroup(q, [COLON], t, [COMMA], m + [END] + rest);
      Flatten(q + [COLON] + t, [COMMA], m, [END], rest);
    }
  }

  lemma MembersUnfold(ps: seq<Pair>)
    requires ps != []
    ensures var h := Quoted(ps[0].key) + [COLON] + Text(ps[0].val);
      if |ps| == 1 then Members(ps) == h else Members(ps) == h + ([COMMA] + Members(ps[1..]))
  {
    hide Text, Quoted;
  }

  lemma Regroup(q: seq<byte>, c: seq<byte>, t: seq<byte>, e: seq<byte>, r: seq<byte>)
    ensures q + c + t + e + r == q + (c + t + (e + r))
  {
  }

  lemma Flatten(h: seq<byte>, k: seq<byte>, m: seq<byte>, e: seq<byte>, r: seq<byte>)
    ensures h + (k + m) + e + r == h + k + (m + e + r)
  {
  }

  // ----- round trip -----------------------------------------------------------------------------------

  ghost predicate NoZero(s: seq<byte>) {
    forall i :: 0 <= i < |s| ==> s[i] != 0
  }

  lemma {:induction false} QuotedNoZero(s: seq<byte>)
    ensures NoZero(Escapes(s)) && NoZero(Quoted(s))
  {
    hide Escape;
    if s != [] {
      QuotedNoZero(s[..|s| - 1]);
      EscapeNoZero(s[|s| - 1]);
    }
  }

  lemma EscapeNoZero(c: byte)
    ensures NoZero(Escape(c))
  {
  }

  lemma {:induction false} DigitsNoZero(n: nat)
    ensures NoZero(Digits(n))
    decreases n
  {
    if n >= 10 { DigitsNoZero(n / 10); }
  }

  lemma {:induction false} TextNoZero(v: Value)
    ensures NoZero(Text(v))
    decreases v, 0
  {
    hide Quoted, Digits;
    match v
    case Num(n) => DigitsNoZero(if n < 0 then -n else n);
    case Str(s) => QuotedNoZero(s);
    case Arr(items) => ItemsNoZero(items);
    case Obj(ps) => MembersNoZero(ps);
    case _ =>
  }

  lemma {:induction false} ItemsNoZero(vs: seq<Value>)
    ensures NoZero(Items(vs))
    decreases vs, |vs|
  {
    hide Text;
    if vs != [] {
      TextNoZero(vs[0]);
      ItemsNoZero(vs[1..]);
    }
  }

  lemma {:induction false} MemberNoZero(p: Pair)
    ensures NoZero(Member(p))
    decreases p, 0
  {
    hide Text, Quoted;
    QuotedNoZero(p.key);
    TextNoZero(p.val);
  }

  lemma {:induction false} MembersNoZero(ps: seq<Pair>)
    ensures NoZero(Members(ps))
    decreases ps, |ps|
  {
    hide Member;
    if ps != [] {
      MemberNoZero(ps[0]);
      MembersNoZero(ps[1..]);
    }
  }

  /** Decoding the text of a value gives the value and uses up the text, exactly when its depth is
      within the limit of the decoder. */
  lemma RoundTrip(v: Value, max: nat)
    requires Plain(v)
    ensures Decode(Text(v), max) == if Depth(v) <= max then Ok(v, []) else Err(TooDeep)
  {
    hide Tok, Text, Process, Plain;
    TextNoZero(v);
    Reads(v, [], 0, max);
    assert Text(v) + [] == Text(v);
    TokEnd();
  }

  lemma TokEnd()
    ensures Tok([]) == (TEof, [])
  {
  }
}
