/**
 MessagePack as lua_cmsgpack.c writes and reads it.  Enc and Dec say what bytes a value becomes
 and what value bytes become; the round trip is proved for every value, with its exact limits.
 */
module MsgPack {
  import opened Common
  import opened Octets

  const MAX_NESTING: nat := 16

  /** Lua values.  A table whose keys are exactly 1..n is Arr, any other table is Map with its
      pairs in enumeration order.  Floats are the bytes of their IEEE format. */
  datatype Value =
    | Nil | Bool(b: bool) | Int(n: int) | Single(bits: seq<byte>) | Double(bits: seq<byte>)
    | Str(s: seq<byte>) | Arr(items: seq<Value>) | Map(pairs: seq<Pair>)

  datatype Pair = Pair(key: Value, val: Value)

  // ----- encoding ---------------------------------------------------------------------------

  function EncInt(n: int): seq<byte>
    requires -0x8000_0000_0000_0000 <= n < 0x8000_0000_0000_0000
  {
    if n >= 0 then
      if n <= 127 then [n]
      else if n <= 0xff then [0xcc] + BigEndian(n, 1)
      else if n <= 0xffff then [0xcd] + BigEndian(n, 2)
      else if n <= 0xffff_ffff then [0xce] + BigEndian(n, 4)
      else [0xcf] + BigEndian(n, 8)
    else
      if n >= -32 then [n + 256]
      else if n >= -128 then [0xd0] + BigEndian(n + 0x100, 1)
      else if n >= -32768 then [0xd1] + BigEndian(n + 0x1_0000, 2)
      else if n >= -0x8000_0000 then [0xd2] + BigEndian(n + 0x1_0000_0000, 4)
      else [0xd3] + BigEndian(n + 0x1_0000_0000_0000_0000, 8)
  }

  datatype Kind = Raw | List | Hash

  /** First byte of the short form, its limit, and the tag of the 16-bit form. */
  function Fix(k: Kind): byte {
    match k case Raw => 0xa0 case List => 0x90 case Hash => 0x80
  }

  function FixLimit(k: Kind): nat {
    if k.Raw? then 32 else 16
  }

  function Tag(k: Kind): byte {
    match k case Raw => 0xda case List => 0xdc case Hash => 0xde
  }

  /** A length: short, 16 bits, or the low 32 bits. */
  function Header(k: Kind, n: nat): seq<byte> {
    if n < FixLimit(k) then [Fix(k) + n]
    else if n <= 0xffff then [Tag(k)] + BigEndian(n, 2)
    else [Tag(k) + 1] + BigEndian(n % 0x1_0000_0000, 4)
  }

  /** The keys are 1 to n: the table is an array. */
  ghost predicate ArrayKeys(ps: seq<Pair>) {
    forall i :: 0 <= i < |ps| ==> ps[i].key.Int? && 1 <= ps[i].key.n <= |ps|
  }

  /** What Lua can hold: floats of the right width, integers of 64 bits, no nil inside a table, scalar keys,
      each once; a table counts its entries with an int, and one whose keys are 1 to n is an array. */
  ghost predicate Lua(v: Value) {
    match v
    case Nil => true
    case Bool(_) => true
    case Int(n) => -0x8000_0000_0000_0000 <= n < 0x8000_0000_0000_0000
    case Single(bits) => |bits| == 4
    case Double(bits) => |bits| == 8
    case Str(_) => true
    case Arr(items) => |items| < INT_MAX && forall i :: 0 <= i < |items| ==> Lua(items[i]) && items[i] != Nil
    case Map(ps) =>
      && (forall i :: 0 <= i < |ps| ==> LuaPair(ps[i]))
      && (forall i, j :: 0 <= i < j < |ps| ==> ps[i].key != ps[j].key)
      && |ps| < INT_MAX && !ArrayKeys(ps)
  }

  ghost predicate LuaPair(p: Pair) {
    Lua(p.key) && !p.key.Nil? && !p.key.Arr? && !p.key.Map? && Lua(p.val) && p.val != Nil
  }

  /** The bytes of v; tables at the nesting limit become nil. */
  ghost function Enc(v: Value, level: nat): seq<byte>
    requires Lua(v)
    decreases v, 0
  {
    match v
    case Nil => [0xc0]
    case Bool(b) => [if b then 0xc3 else 0xc2]
    case Int(n) => EncInt(n)
    case Single(bits) => [0xca] + bits
    case Double(bits) => [0xcb] + bits
    case Str(s) => Header(Raw, |s|) + s
    case Arr(items) => if level == MAX_NESTING then [0xc0] else Header(List, |items|) + EncItems(items, level + 1)
    case Map(ps) => if level == MAX_NESTING then [0xc0] else Header(Hash, |ps|) + EncPairs(ps, level + 1)
  }

  ghost function EncItems(vs: seq<Value>, level: nat): seq<byte>
    requires forall i :: 0 <= i < |vs| ==> Lua(vs[i])
    decreases vs, |vs|
  {
    if vs == [] then [] else Enc(vs[0], level) + EncItems(vs[1..], level)
  }

  ghost function EncPairs(ps: seq<Pair>, level: nat): seq<byte>
    requires forall i :: 0 <= i < |ps| ==> LuaPair(ps[i])
    decreases ps, |ps|
  {
    if ps == [] then [] else EncPair(ps[0], level) + EncPairs(ps[1..], level)
  }

  ghost function EncPair(p: Pair, level: nat): seq<byte>
    requires LuaPair(p)
    decreases p, 0
  {
    Enc(p.key, level) + Enc(p.val, level)
  }

  // ----- decoding ---------------------------------------------------------------------------

  datatype Error = Eof | BadFormat | NilKey

  datatype Result = Ok(v: Value, n: nat) | Err(e: Error)

  /** What the first bytes announce: a whole scalar, or n bytes of header and a length. */
  datatype Front = Scalar(v: Value, n: nat) | Sized(k: Kind, n: nat, len: nat) | Short | Unknown

  function Unsigned(s: seq<byte>, k: nat): (r: Front)
    ensures r.Scalar? ==> 1 <= r.n <= |s|
  {
    if |s| < 1 + k then Short else Scalar(Int(Number(s[1..1 + k])), 1 + k)
  }

  function Signed(s: seq<byte>, k: nat, half: nat): (r: Front)
    ensures r.Scalar? ==> 1 <= r.n <= |s|
  {
    if |s| < 1 + k then Short else
      var u := Number(s[1..1 + k]);
      Scalar(Int(if u < half then u else u - 2 * half), 1 + k)
  }

  function Length(s: seq<byte>, k: Kind, w: nat): (r: Front)
    ensures r.Sized? ==> 1 <= r.n <= |s|
  {
    if |s| < 1 + w then Short else Sized(k, 1 + w, Number(s[1..1 + w]))
  }

  function Open(s: seq<byte>): (r: Front)
    ensures r.Scalar? ==> 1 <= r.n <= |s|
    ensures r.Sized? ==> 1 <= r.n <= |s|
  {
    if s == [] then Short else
    var t: int := s[0];
    if t < 0x80 then Scalar(Int(t), 1)
    else if t < 0x90 then Sized(Hash, 1, t - 0x80)
    else if t < 0xa0 then Sized(List, 1, t - 0x90)
    else if t < 0xc0 then Sized(Raw, 1, t - 0xa0)
    else if t >= 0xe0 then Scalar(Int(t - 256), 1)
    else if t == 0xc0 then Scalar(Nil, 1)
    else if t == 0xc2 then Scalar(Bool(false), 1)
    else if t == 0xc3 then Scalar(Bool(true), 1)
    else if t == 0xca then if |s| < 5 then Short else Scalar(Single(s[1..5]), 5)
    else if t == 0xcb then if |s| < 9 then Short else Scalar(Double(s[1..9]), 9)
    else if t == 0xcc then Unsigned(s, 1)
    else if t == 0xcd then Unsigned(s, 2)
    else if t == 0xce then Unsigned(s, 4)
    else if t == 0xcf then Unsigned(s, 8)
    else if t == 0xd0 then Signed(s, 1, 0x80)
    else if t == 0xd1 then Signed(s, 2, 0x8000)
    else if t == 0xd2 then Signed(s, 4, 0x8000_0000)
    else if t == 0xd3 then Signed(s, 8, 0x8000_0000_0000_0000)
    else if t == 0xda then Length(s, Raw, 2)
    else if t == 0xdb then Length(s, Raw, 4)
    else if t == 0xdc then Length(s, List, 2)
    else if t == 0xdd then Length(s, List, 4)
    else if t == 0xde then Length(s, Hash, 2)
    else if t == 0xdf then Length(s, Hash, 4)
    else Unknown
  }

  ghost function Dec(s: seq<byte>): (r: Result)
    ensures r.Ok? ==> 1 <= r.n <= |s|
    decreases |s|, 0
  {
    match Open(s)
    case Short => Err(Eof)
    case Unknown => Err(BadFormat)
    case Scalar(v, n) => Ok(v, n)
    case Sized(k, n, l) =>
      match k
      case Raw => if |s| < n + l then Err(Eof) else Ok(Str(s[n..n + l]), n + l)
      case List => (match DecItems(s[n..], l) case Items(vs, m) => Ok(Arr(vs), n + m) case Bad(e) => Err(e))
      case Hash => (match DecPairs(s[n..], l, []) case Pairs(ps, m) => Ok(Map(ps), n + m) case Wrong(e) => Err(e))
  }

  datatype ItemsResult = Items(vs: seq<Value>, n: nat) | Bad(e: Error)
  datatype PairsResult = Pairs(ps: seq<Pair>, n: nat) | Wrong(e: Error)

  ghost function DecItems(s: seq<byte>, l: nat): (r: ItemsResult)
    ensures r.Items? ==> r.n <= |s| && |r.vs| == l
    decreases |s|, 1
  {
    if l == 0 then Items([], 0) else
      match Dec(s)
      case Err(e) => Bad(e)
      case Ok(v, n) =>
        match DecItems(s[n..], l - 1)
        case Bad(e) => Bad(e)
        case Items(vs, m) => Items([v] + vs, n + m)
  }

  /** lua_settable: a nil value removes, a present key is overwritten, a new key is added. */
  function SetTable(ps: seq<Pair>, k: Value, v: Value): (r: seq<Pair>)
    ensures |r| <= |ps| + 1
  {
    if ps == [] then (if v == Nil then [] else [Pair(k, v)])
    else if ps[0].key == k then (if v == Nil then ps[1..] else [Pair(k, v)] + ps[1..])
    else [ps[0]] + SetTable(ps[1..], k, v)
  }

  ghost function DecPairs(s: seq<byte>, l: nat, acc: seq<Pair>): (r: PairsResult)
    ensures r.Pairs? ==> r.n <= |s| && |r.ps| <= |acc| + l
    decreases |s|, 1
  {
    if l == 0 then Pairs(acc, 0) else
      match Dec(s)
      case Err(e) => Wrong(e)
      case Ok(k, n) =>
        match Dec(s[n..])
        case Err(e) => Wrong(e)
        case Ok(v, m) =>
          if k == Nil then Wrong(NilKey) else
          match DecPairs(s[n + m..], l - 1, SetTable(acc, k, v))
          case Wrong(e) => Wrong(e)
          case Pairs(ps, j) => Pairs(ps, n + m + j)
  }

  // ----- what the decoder sees at the front ---------------------------------------------------

  lemma AfterTag(t: byte, n: nat, k: nat, rest: seq<byte>)
    requires n < Limit(k)
    ensures var s := [t] + BigEndian(n, k) + rest; s[0] == t && |s| >= 1 + k && Number(s[1..1 + k]) == n
  {
    var s := [t] + BigEndian(n, k) + rest;
    assert s[1..1 + k] == BigEndian(n, k);
    NumberOf(n, k);
  }

  lemma IntOpens(n: int, rest: seq<byte>)
    requires -0x8000_0000_0000_0000 <= n < 0x8000_0000_0000_0000
    ensures Open(EncInt(n) + rest) == Scalar(Int(n), |EncInt(n)|)
  {
    hide Number, BigEndian, Limit;
    Limits();
    if 127 < n {
      if n <= 0xff { AfterTag(0xcc, n, 1, rest); }
      else if n <= 0xffff { AfterTag(0xcd, n, 2, rest); }
      else if n <= 0xffff_ffff { AfterTag(0xce, n, 4, rest); }
      else { AfterTag(0xcf, n, 8, rest); }
    } else if n < -32 {
      if n >= -128 { AfterTag(0xd0, n + 0x100, 1, rest); }
      else if n >= -32768 { AfterTag(0xd1, n + 0x1_0000, 2, rest); }
      else if n >= -0x8000_0000 { AfterTag(0xd2, n + 0x1_0000_0000, 4, rest); }
      else { AfterTag(0xd3, n + 0x1_0000_0000_0000_0000, 8, rest); }
    }
  }

  lemma HeaderOpens(k: Kind, n: nat, rest: seq<byte>)
    requires n < 0x1_0000_0000
    ensures Open(Header(k, n) + rest) == Sized(k, |Header(k, n)|, n)
  {
    hide Number, BigEndian, Limit;
    Limits();
    if FixLimit(k) <= n {
      if n <= 0xffff { AfterTag(Tag(k), n, 2, rest); } else { AfterTag(Tag(k) + 1, n, 4, rest); }
    }
  }

  lemma BitsOpen(bits: seq<byte>, rest: seq<byte>)
    ensures |bits| == 4 ==> Open([0xca] + bits + rest) == Scalar(Single(bits), 5)
    ensures |bits| == 8 ==> Open([0xcb] + bits + rest) == Scalar(Double(bits), 9)
  {
    assert |bits| == 4 ==> ([0xca] + bits + rest)[1..5] == bits;
    assert |bits| == 8 ==> ([0xcb] + bits + rest)[1..9] == bits;
  }

  // ----- round trip -----------------------------------------------------------------------------

  /** Lengths that fit the 32-bit headers. */
  ghost predicate SizesFit(v: Value) {
    match v
    case Str(s) => |s| < 0x1_0000_0000
    case Arr(items) => |items| < 0x1_0000_0000 && forall i :: 0 <= i < |items| ==> SizesFit(items[i])
    case Map(ps) => |ps| < 0x1_0000_0000 && forall i :: 0 <= i < |ps| ==> PairFits(ps[i])
    case _ => true
  }

  ghost predicate PairFits(p: Pair) {
    SizesFit(p.key) && SizesFit(p.val)
  }

  /** v as it comes back: tables at the nesting limit are nil, and nil leaves no pair. */
  ghost function Cut(v: Value, level: nat): Value
    decreases v, 0
  {
    match v
    case Arr(items) => if level == MAX_NESTING then Nil else Arr(CutItems(items, level + 1))
    case Map(ps) => if level == MAX_NESTING then Nil else Map(CutPairs(ps, level + 1, []))
    case _ => v
  }

  ghost function CutItems(vs: seq<Value>, level: nat): seq<Value>
    decreases vs, |vs|
  {
    if vs == [] then [] else [Cut(vs[0], level)] + CutItems(vs[1..], level)
  }

  ghost function CutPair(p: Pair, level: nat): Pair
    decreases p, 0
  {
    Pair(Cut(p.key, level), Cut(p.val, level))
  }

  ghost function CutPairs(ps: seq<Pair>, level: nat, acc: seq<Pair>): seq<Pair>
    decreases ps, |ps|
  {
    if ps == [] then acc else
      var p := CutPair(ps[0], level);
      CutPairs(ps[1..], level, SetTable(acc, p.key, p.val))
  }

  /** Decoding reads back exactly what was written and stops at its end. */
  lemma {:induction false} Decodes(v: Value, level: nat, rest: seq<byte>)
    requires Lua(v) && SizesFit(v)
    ensures Dec(Enc(v, level) + rest) == Ok(Cut(v, level), |Enc(v, level)|)
    decreases v, 0
  {
    hide Open, Header, EncInt;
    match v {
      case Int(n) => IntOpens(n, rest);
      case Single(bits) => BitsOpen(bits, rest);
      case Double(bits) => BitsOpen(bits, rest);
      case Str(s) => StrDecodes(s, rest);
      case Arr(items) => if level != MAX_NESTING { ListDecodes(items, level, rest); } else { NilOpens(rest); }
      case Map(ps) => if level != MAX_NESTING { HashDecodes(ps, level, rest); } else { NilOpens(rest); }
      case Nil => NilOpens(rest);
      case Bool(b) => BoolOpens(b, rest);
    }
  }

  lemma NilOpens(rest: seq<byte>)
    ensures Open([0xc0] + rest) == Scalar(Nil, 1)
  {
  }

  lemma BoolOpens(b: bool, rest: seq<byte>)
    ensures Open([if b then 0xc3 else 0xc2] + rest) == Scalar(Bool(b), 1)
  {
  }

  lemma StrDecodes(s: seq<byte>, rest: seq<byte>)
    requires |s| < 0x1_0000_0000
    ensures Dec(Header(Raw, |s|) + s + rest) == Ok(Str(s), |Header(Raw, |s|)| + |s|)
  {
    hide Open, Header;
    var h := Header(Raw, |s|);
    HeaderOpens(Raw, |s|, s + rest);
    assert h + (s + rest) == h + s + rest;
    assert (h + s + rest)[|h|..|h| + |s|] == s;
  }

  lemma {:induction false} ListDecodes(items: seq<Value>, level: nat, rest: seq<byte>)
    requires |items| < 0x1_0000_0000 && (forall i :: 0 <= i < |items| ==> Lua(items[i]) && SizesFit(items[i]))
    ensures var e := Header(List, |items|) + EncItems(items, level + 1);
      Dec(e + rest) == Ok(Arr(CutItems(items, level + 1)), |e|)
    decreases items, |items| + 1
  {
    hide Open, Header;
    var h, b := Header(List, |items|), EncItems(items, level + 1);
    HeaderOpens(List, |items|, b + rest);
    assert h + (b + rest) == h + b + rest;
    assert (h + b + rest)[|h|..] == b + rest;
    ItemsDecode(items, level + 1, rest);
  }

  lemma {:induction false} ItemsDecode(vs: seq<Value>, level: nat, rest: seq<byte>)
    requires forall i :: 0 <= i < |vs| ==> Lua(vs[i]) && SizesFit(vs[i])
    ensures DecItems(EncItems(vs, level) + rest, |vs|) == Items(CutItems(vs, level), |EncItems(vs, level)|)
    decreases vs, |vs|
  {
    if vs != [] {
      var a, b := Enc(vs[0], level), EncItems(vs[1..], level);
      Decodes(vs[0], level, b + rest);
      ItemsDecode(vs[1..], level, rest);
      assert a + b + rest == a + (b + rest);
      assert (a + b + rest)[|a|..] == b + rest;
    }
  }

  lemma {:induction false} HashDecodes(ps: seq<Pair>, level: nat, rest: seq<byte>)
    requires |ps| < 0x1_0000_0000 && (forall i :: 0 <= i < |ps| ==> LuaPair(ps[i]) && PairFits(ps[i]))
    ensures var e := Header(Hash, |ps|) + EncPairs(ps, level + 1);
      Dec(e + rest) == Ok(Map(CutPairs(ps, level + 1, [])), |e|)
    decreases ps, |ps| + 1
  {
    hide Open, Header;
    var h, b := Header(Hash, |ps|), EncPairs(ps, level + 1);
    HeaderOpens(Hash, |ps|, b + rest);
    assert h + (b + rest) == h + b + rest;
    assert (h + b + rest)[|h|..] == b + rest;
    PairsDecode(ps, level + 1, rest, []);
  }

  lemma {:induction false} PairsDecode(ps: seq<Pair>, level: nat, rest: seq<byte>, acc: seq<Pair>)
    requires forall i :: 0 <= i < |ps| ==> LuaPair(ps[i]) && PairFits(ps[i])
    ensures DecPairs(EncPairs(ps, level) + rest, |ps|, acc) == Pairs(CutPairs(ps, level, acc), |EncPairs(ps, level)|)
    decreases ps, |ps|
  {
    hide Dec, SetTable, Enc;
    if ps != [] {
      var p := CutPair(ps[0], level);
      var a, b := EncPair(ps[0], level), EncPairs(ps[1..], level);
      PairDecodes(ps[0], level, b + rest);
      PairsDecode(ps[1..], level, rest, SetTable(acc, p.key, p.val));
      assert a + b + rest == a + (b + rest);
      assert (a + b + rest)[|a|..] == b + rest;
    }
  }

  lemma {:induction false} PairDecodes(p: Pair, level: nat, rest: seq<byte>)
    requires LuaPair(p) && PairFits(p)
    ensures var a, b, s := Enc(p.key, level), Enc(p.val, level), EncPair(p, level) + rest;
      && Dec(s) == Ok(Cut(p.key, level), |a|) && Cut(p.key, level) != Nil
      && |a| <= |s| && Dec(s[|a|..]) == Ok(Cut(p.val, level), |b|)
    decreases p, 0
  {
    var a, b := Enc(p.key, level), Enc(p.val, level);
    Decodes(p.key, level, b + rest);
    Decodes(p.val, level, rest);
    assert a + b + rest == a + (b + rest);
    assert (a + b + rest)[|a|..] == b + rest;
  }

  // ----- exactly when the round trip holds --------------------------------------------------------

  /** No table sits at the nesting limit. */
  ghost predicate Within(v: Value, level: nat) {
    match v
    case Arr(items) => level != MAX_NESTING && forall i :: 0 <= i < |items| ==> Within(items[i], level + 1)
    case Map(ps) => level != MAX_NESTING && forall i :: 0 <= i < |ps| ==> WithinPair(ps[i], level + 1)
    case _ => true
  }

  ghost predicate WithinPair(p: Pair, level: nat) {
    Within(p.val, level)
  }

  ghost predicate FreshKey(acc: seq<Pair>, k: Value) {
    forall i :: 0 <= i < |acc| ==> acc[i].key != k
  }

  lemma {:induction false} SetNew(acc: seq<Pair>, k: Value, v: Value)
    requires FreshKey(acc, k)
    ensures SetTable(acc, k, v) == if v == Nil then acc else acc + [Pair(k, v)]
  {
    if acc != [] {
      assert acc[0].key != k;
      SetNew(acc[1..], k, v);
      assert acc == [acc[0]] + acc[1..];
    }
  }

  /** The pairs that survive. */
  ghost function Kept(ps: seq<Pair>, level: nat): (r: seq<Pair>)
    ensures |r| <= |ps|
  {
    if ps == [] then [] else
      var v := Cut(ps[0].val, level);
      (if v == Nil then [] else [Pair(ps[0].key, v)]) + Kept(ps[1..], level)
  }

  ghost predicate NewKeys(acc: seq<Pair>, ps: seq<Pair>) {
    && (forall i :: 0 <= i < |ps| ==> LuaPair(ps[i]) && FreshKey(acc, ps[i].key))
    && (forall i, j :: 0 <= i < j < |ps| ==> ps[i].key != ps[j].key)
  }

  lemma {:induction false} CutIsKept(ps: seq<Pair>, level: nat, acc: seq<Pair>)
    requires NewKeys(acc, ps)
    ensures CutPairs(ps, level, acc) == acc + Kept(ps, level)
    decreases |ps|
  {
    hide Cut, NewKeys, SetTable, CutPairs, Kept;
    if ps == [] {
      NothingCut(level, acc);
    } else {
      var v := Cut(ps[0].val, level);
      var one := if v == Nil then [] else [Pair(ps[0].key, v)];
      CutFirst(ps, level, acc);
      NextKeys(acc, ps, v);
      CutIsKept(ps[1..], level, acc + one);
      KeptFirst(ps, level);
      assert (acc + one) + Kept(ps[1..], level) == acc + (one + Kept(ps[1..], level));
    }
  }

  lemma NothingCut(level: nat, acc: seq<Pair>)
    ensures CutPairs([], level, acc) == acc + Kept([], level)
  {
  }

  lemma KeptFirst(ps: seq<Pair>, level: nat)
    requires ps != []
    ensures var v := Cut(ps[0].val, level);
      Kept(ps, level) == (if v == Nil then [] else [Pair(ps[0].key, v)]) + Kept(ps[1..], level)
  {
    hide Cut;
  }

  lemma CutFirst(ps: seq<Pair>, level: nat, acc: seq<Pair>)
    requires NewKeys(acc, ps) && ps != []
    ensures var v := Cut(ps[0].val, level);
      CutPairs(ps, level, acc) == CutPairs(ps[1..], level, acc + if v == Nil then [] else [Pair(ps[0].key, v)])
  {
    hide Cut, SetTable, LuaPair, FreshKey;
    assert LuaPair(ps[0]) && FreshKey(acc, ps[0].key);
    ScalarCut(ps[0], level);
    SetNew(acc, ps[0].key, Cut(ps[0].val, level));
    assert acc + [] == acc;
  }

  lemma ScalarCut(p: Pair, level: nat)
    requires LuaPair(p)
    ensures Cut(p.key, level) == p.key
  {
  }

  lemma NextKeys(acc: seq<Pair>, ps: seq<Pair>, v: Value)
    requires NewKeys(acc, ps) && ps != []
    ensures NewKeys(acc + if v == Nil then [] else [Pair(ps[0].key, v)], ps[1..])
  {
    assert acc + [] == acc;
    hide LuaPair;
    forall i | 0 <= i < |ps| - 1 ensures LuaPair(ps[1..][i]) && FreshKey(acc + [Pair(ps[0].key, v)], ps[1..][i].key) {
      assert LuaPair(ps[i + 1]) && FreshKey(acc, ps[i + 1].key);
    }
    forall i | 0 <= i < |ps| - 1 ensures FreshKey(acc, ps[1..][i].key) {
      assert LuaPair(ps[i + 1]) && FreshKey(acc, ps[i + 1].key);
    }
  }

  lemma {:induction false} ItemsSame(vs: seq<Value>, level: nat)
    requires forall i :: 0 <= i < |vs| ==> Lua(vs[i])
    ensures CutItems(vs, level) == vs <==> forall i :: 0 <= i < |vs| ==> Within(vs[i], level)
    decreases vs, |vs|
  {
    if vs != [] {
      var r := vs[1..];
      CutSame(vs[0], level);
      ItemsSame(r, level);
      assert vs == [vs[0]] + r;
      assert forall i :: 1 <= i < |vs| ==> vs[i] == r[i - 1];
      if CutItems(vs, level) == vs {
        assert CutItems(vs, level)[0] == Cut(vs[0], level) && CutItems(vs, level)[1..] == CutItems(r, level);
      }
    }
  }

  lemma {:induction false} KeptSame(ps: seq<Pair>, level: nat)
    requires forall i :: 0 <= i < |ps| ==> LuaPair(ps[i])
    ensures Kept(ps, level) == ps <==> forall i :: 0 <= i < |ps| ==> WithinPair(ps[i], level)
    decreases ps, |ps|
  {
    if ps != [] {
      var r := ps[1..];
      PairSame(ps[0], level);
      KeptSame(r, level);
      assert ps == [ps[0]] + r;
      assert forall i :: 1 <= i < |ps| ==> ps[i] == r[i - 1];
      if Kept(ps, level) == ps {
        assert Cut(ps[0].val, level) != Nil;
        assert Kept(ps, level)[0] == Pair(ps[0].key, Cut(ps[0].val, level)) && Kept(ps, level)[1..] == Kept(r, level);
      }
    }
  }

  lemma {:induction false} PairSame(p: Pair, level: nat)
    requires LuaPair(p)
    ensures Cut(p.val, level) == p.val <==> WithinPair(p, level)
    decreases p, 0
  {
    CutSame(p.val, level);
  }

  lemma {:induction false} CutSame(v: Value, level: nat)
    requires Lua(v)
    ensures Cut(v, level) == v <==> Within(v, level)
    decreases v, 0
  {
    hide CutItems, CutPairs, Kept, NewKeys, WithinPair, SetTable, LuaPair;
    match v
    case Arr(items) => ItemsSame(items, level + 1);
    case Map(ps) => PairsSame(ps, level + 1);
    case _ =>
  }

  lemma {:induction false} PairsSame(ps: seq<Pair>, level: nat)
    requires Lua(Map(ps))
    ensures CutPairs(ps, level, []) == ps <==> forall i :: 0 <= i < |ps| ==> WithinPair(ps[i], level)
    decreases ps, |ps| + 1
  {
    hide CutPairs, Kept, NewKeys, WithinPair;
    PairsNew(ps);
    CutIsKept(ps, level, []);
    assert [] + Kept(ps, level) == Kept(ps, level);
    KeptSame(ps, level);
  }

  lemma PairsNew(ps: seq<Pair>)
    requires Lua(Map(ps))
    ensures NewKeys([], ps)
  {
  }

  /** Whatever the bytes, a decoded value never has a length of 2^32 or more. */
  lemma {:induction false} DecodedFits(s: seq<byte>)
    ensures Dec(s).Ok? ==> SizesFit(Dec(s).v)
    decreases |s|, 0
  {
    hide Open;
    OpenBounds(s);
    match Open(s)
    case Sized(k, n, l) =>
      if k == List { ItemsFit(s[n..], l); }
      if k == Hash { PairsFit(s[n..], l, []); }
    case _ =>
  }

  lemma OpenBounds(s: seq<byte>)
    ensures Open(s).Sized? ==> Open(s).len < 0x1_0000_0000
    ensures Open(s).Scalar? ==> SizesFit(Open(s).v)
  {
    hide Number, Limit;
    Limits();
    if |s| >= 3 { NumberBound(s[1..3]); }
    if |s| >= 5 { NumberBound(s[1..5]); }
  }

  lemma {:induction false} ItemsFit(s: seq<byte>, l: nat)
    ensures DecItems(s, l).Items? ==> forall i :: 0 <= i < l ==> SizesFit(DecItems(s, l).vs[i])
    decreases |s|, 1
  {
    if l > 0 {
      DecodedFits(s);
      if Dec(s).Ok? { ItemsFit(s[Dec(s).n..], l - 1); }
    }
  }

  ghost predicate AllFit(ps: seq<Pair>) {
    forall i :: 0 <= i < |ps| ==> PairFits(ps[i])
  }

  lemma {:induction false} SetFits(ps: seq<Pair>, k: Value, v: Value)
    requires AllFit(ps) && SizesFit(k) && SizesFit(v)
    ensures AllFit(SetTable(ps, k, v))
  {
    hide SizesFit;
    if ps != [] && ps[0].key != k { SetFits(ps[1..], k, v); }
  }

  lemma {:induction false} PairsFit(s: seq<byte>, l: nat, acc: seq<Pair>)
    requires AllFit(acc)
    ensures DecPairs(s, l, acc).Pairs? ==> AllFit(DecPairs(s, l, acc).ps)
    decreases |s|, 1
  {
    hide SizesFit, Dec, SetTable, AllFit;
    if l > 0 {
      DecodedFits(s);
      var k := Dec(s);
      if k.Ok? {
        DecodedFits(s[k.n..]);
        var v := Dec(s[k.n..]);
        if v.Ok? {
          SetFits(acc, k.v, v.v);
          PairsFit(s[k.n + v.n..], l - 1, SetTable(acc, k.v, v.v));
        }
      }
    }
  }

  /** The round trip holds exactly for values nested within the limit whose lengths fit 32 bits. */
  lemma RoundTrip(v: Value, rest: seq<byte>)
    requires Lua(v)
    ensures Dec(Enc(v, 0) + rest) == Ok(v, |Enc(v, 0)|) <==> SizesFit(v) && Within(v, 0)
  {
    DecodedFits(Enc(v, 0) + rest);
    CutSame(v, 0);
    if SizesFit(v) { Decodes(v, 0, rest); }
  }

  /** No form of an integer that the decoder accepts is shorter than the one written. */
  lemma ShortestInt(s: seq<byte>)
    ensures var r := Open(s);
      r.Scalar? && r.v.Int? && -0x8000_0000_0000_0000 <= r.v.n < 0x8000_0000_0000_0000 ==> |EncInt(r.v.n)| <= r.n
  {
    hide Number, Limit, BigEndian;
    Limits();
    if |s| >= 2 { NumberBound(s[1..2]); }
    if |s| >= 3 { NumberBound(s[1..3]); }
    if |s| >= 5 { NumberBound(s[1..5]); }
  }
}
