/**
 The tokenizer and parser of lua_cjson.c as they run: a pointer into the text, a buffer for the
 string being read and the depth of open tables.  They compute what Decode says as long as every string
 fits the buffer, whose size is the length of the text handed over as an int.
 */
module JsonParse {
  import opened Common
  import opened Octets
  import opened Json
  import opened JsonIO
  import opened Strbuf

  class Parser {
    const data: seq<byte>
    const max: nat
    const tmp: StrBuf
    var ptr: nat
    var depth: nat

    constructor (data: seq<byte>, max: nat)
      requires TmpSize(|data|).Some?
      ensures Valid() && this.data == data && this.max == max && ptr == 0 && depth == 0 && fresh(tmp) && fresh(tmp.buf)
      ensures tmp.buf.Length == TmpSize(|data|).value
    {
      this.data, this.max, ptr, depth := data, max, 0, 0;
      tmp := new StrBuf(AsInt(|data|));
    }

    ghost predicate Valid()
      reads this, tmp
    {
      ptr <= |data| && depth <= max && tmp.Valid()
    }

    ghost function Rest(): seq<byte>
      reads this
      requires ptr <= |data|
    {
      data[ptr..]
    }

    method SkipSpace()
      requires Valid()
      modifies this`ptr
      ensures Valid() && ptr >= old(ptr) && Rest() == Skip(old(Rest())) && Skip(Rest()) == Rest()
    {
      while ptr < |data| && (data[ptr] == 32 || data[ptr] == 9 || data[ptr] == 10 || data[ptr] == 13)
        invariant ptr <= |data| && ptr >= old(ptr) && Skip(Rest()) == Skip(old(Rest()))
        decreases |data| - ptr
      {
        assert Rest()[1..] == data[ptr + 1..];
        ptr := ptr + 1;
      }
    }

    /** json_next_string_token after the opening quote: bytes are appended to tmp unchecked, which goes well
        exactly when the buffer can hold them. */
    method NextString() returns (ok: bool, fit: bool)
      requires Valid()
      modifies this`ptr, tmp, tmp.buf
      ensures Valid() && tmp.buf == old(tmp.buf)
      ensures fit <==> Held(old(Rest())) <= tmp.buf.Length
      ensures fit ==> match StrBody(old(Rest()))
        case StrOk(t, rest) => ok && ptr > old(ptr) && Rest() == rest && tmp.Contents() == t
        case StrBad => !ok
    {
      hide Char, StrBody, Held;
      tmp.Reset();
      PrependNone(StrBody(Rest()));
      ghost var s0, p0 := Rest(), ptr;
      while ptr < |data| && data[ptr] != 0 && data[ptr] != QUOTE
        invariant Valid() && p0 <= ptr && tmp.buf == old(tmp.buf) && Held(s0) == tmp.length + Held(Rest())
        invariant StrBody(s0) == Prepend(tmp.Contents(), StrBody(Rest()))
        decreases |data| - ptr
      {
        ghost var r, c := Rest(), tmp.Contents();
        BodyStep(r);
        HeldStep(r);
        var piece := Char(data[ptr..]);
        if piece == NoPiece { return false, true; }
        fit := tmp.AppendMemUnsafe(piece.bytes);
        if !fit { return false, false; }
        assert r[piece.n..] == data[ptr + piece.n..];
        PrependStep(c, piece.bytes, StrBody(r[piece.n..]));
        ptr := ptr + piece.n;
      }
      BodyEnds(Rest());
      HeldEnds(Rest());
      if ptr == |data| || data[ptr] == 0 { return false, true; }
      if tmp.length >= tmp.buf.Length { return false, false; }
      assert Rest()[1..] == data[ptr + 1..];
      assert tmp.Contents() + [] == tmp.Contents();
      ptr := ptr + 1;
      return true, true;
    }

    /** json_next_token. */
    method NextToken() returns (t: Token, fit: bool)
      requires Valid()
      modifies this`ptr, tmp, tmp.buf
      ensures Valid() && tmp.buf == old(tmp.buf)
      ensures fit <==> TokHeld(old(Rest())) <= tmp.buf.Length
      ensures fit ==> t == Tok(old(Rest())).0 && (!Stops(t) ==> Rest() == Tok(old(Rest())).1 && ptr > old(ptr))
    {
      hide StrBody, NumTok, Skip, Held;
      SkipSpace();
      ghost var s := Rest();
      if ptr == |data| || data[ptr] == 0 { return TEof, true; }
      var c := data[ptr];
      assert s[0] == c && s[1..] == data[ptr + 1..];
      if c == BEGIN || c == END || c == OPEN || c == CLOSE || c == COMMA || c == COLON {
        ptr := ptr + 1;
        t := if c == BEGIN then TBegin else if c == END then TEnd else if c == OPEN then TOpen
          else if c == CLOSE then TClose else if c == COMMA then TComma else TColon;
        return t, true;
      }
      if c == QUOTE {
        ptr := ptr + 1;
        var ok;
        ok, fit := NextString();
        return if ok then TStr(tmp.buf[..tmp.length]) else TErr(BadString), fit;
      }
      t := NextWord(c);
      fit := true;
    }

    /** Numbers and the three words. */
    method NextWord(c: byte) returns (t: Token)
      requires Valid() && ptr < |data| && c == data[ptr] && c != 0 && c != QUOTE && Skip(Rest()) == Rest()
      requires c != BEGIN && c != END && c != OPEN && c != CLOSE && c != COMMA && c != COLON
      modifies this`ptr
      ensures Valid() && t == Tok(old(Rest())).0
      ensures !Stops(t) ==> Rest() == Tok(old(Rest())).1 && ptr > old(ptr)
    {
      hide StrBody, NumTok, Skip;
      var s := data[ptr..];
      if c == MINUS || IsDigit(c) {
        var (u, r) := NumTok(s);
        if !u.TErr? {
          Suffix(s, r);
          assert data[|data| - |r|..] == s[|s| - |r|..];
          ptr := |data| - |r|;
        }
        return u;
      }
      if TRUE <= s {
        assert s[4..] == data[ptr + 4..];
        ptr := ptr + 4;
        return TBool(true);
      }
      if FALSE <= s {
        assert s[5..] == data[ptr + 5..];
        ptr := ptr + 5;
        return TBool(false);
      }
      if NULL <= s {
        assert s[4..] == data[ptr + 4..];
        ptr := ptr + 4;
        return TNull;
      }
      return TErr(if c == 43 || c == 105 || c == 73 || c == 110 || c == 78 then OtherNumber else BadToken);
    }

    /** json_process_value: t is the token read last. */
    method ProcessValue(t: Token) returns (r: Parsed<Value>)
      requires Valid()
      modifies this`ptr, this`depth, tmp, tmp.buf
      ensures Valid() && tmp.buf == old(tmp.buf)
      ensures r.Overran? <==> !ValueFits(t, old(Rest()), old(depth), max, tmp.buf.Length)
      ensures !r.Overran? ==> match Process(t, old(Rest()), old(depth), max)
        case Ok(v, rest) => r == Got(v) && Rest() == rest && depth == old(depth) && ptr >= old(ptr)
        case Err(e) => r == Failed(e)
      decreases |data| - ptr, 0
    {
      hide Tok, ParseItems, ParsePairs, ItemsFit, PairsFit, TokHeld;
      match t {
        case TStr(b) => return Got(Str(b));
        case TNum(n) => return Got(Num(n));
        case TBool(b) => return Got(Bool(b));
        case TNull => return Got(Null);
        case TOpen => r := ParseArray();
        case TBegin => r := ParseObject();
        case _ => return Failed(Fault(t));
      }
    }

    /** json_parse_array_context. */
    method ParseArray() returns (r: Parsed<Value>)
      requires Valid()
      modifies this`ptr, this`depth, tmp, tmp.buf
      ensures Valid() && tmp.buf == old(tmp.buf)
      ensures r.Overran? <==> !ValueFits(TOpen, old(Rest()), old(depth), max, tmp.buf.Length)
      ensures !r.Overran? ==> match Process(TOpen, old(Rest()), old(depth), max)
        case Ok(v, rest) => r == Got(v) && Rest() == rest && depth == old(depth) && ptr >= old(ptr)
        case Err(e) => r == Failed(e)
      decreases |data| - ptr, 0, 0
    {
      hide Tok, ParseItems, ItemsFit, TokHeld;
      if depth + 1 > max { return Failed(TooDeep); }
      depth := depth + 1;
      var t, fit := NextToken();
      if !fit { return Overran; }
      if t == TClose {
        depth := depth - 1;
        return Got(Obj([]));
      }
      if Stops(t) { return Failed(Fault(t)); }
      var vs := ParseElements(t);
      if !vs.Got? { return Other(vs); }
      depth := depth - 1;
      return Got(Arr(vs.v));
    }

    method ParseElements(t: Token) returns (r: Parsed<seq<Value>>)
      requires Valid() && !Stops(t)
      modifies this`ptr, this`depth, tmp, tmp.buf
      ensures Valid() && tmp.buf == old(tmp.buf)
      ensures r.Overran? <==> !ItemsFit(t, old(Rest()), old(depth), max, tmp.buf.Length)
      ensures !r.Overran? ==> match ParseItems(t, old(Rest()), old(depth), max)
        case ItemsOk(vs, rest) => r == Got(vs) && Rest() == rest && depth == old(depth) && ptr >= old(ptr)
        case ItemsErr(e) => r == Failed(e)
      decreases |data| - ptr, 1
    {
      hide Tok, ParseItems, Process, Joined, ItemsFit, ValueFits, TokHeld;
      ghost var s0, d := Rest(), depth;
      var vs, u := [], t;
      JoinedNone(ParseItems(t, s0, d, max));
      while true
        invariant Valid() && tmp.buf == old(tmp.buf) && depth == d && ptr >= old(ptr) && !Stops(u)
        invariant ParseItems(t, s0, d, max) == Joined(vs, ParseItems(u, Rest(), d, max))
        invariant ItemsFit(t, s0, d, max, tmp.buf.Length) <==> ItemsFit(u, Rest(), d, max, tmp.buf.Length)
        decreases |data| - ptr
      {
        ItemsStep(vs, u, Rest(), d, max);
        ItemsFitStep(u, Rest(), d, max, tmp.buf.Length);
        var v := ProcessValue(u);
        if !v.Got? { return Other(v); }
        vs := vs + [v.v];
        var w, fit := NextToken();
        if !fit { return Overran; }
        if w == TClose { return Got(vs); }
        if w != TComma { return Failed(Fault(w)); }
        u, fit := NextToken();
        if !fit { return Overran; }
        if Stops(u) { return Failed(Fault(u)); }
      }
    }

    /** json_parse_object_context. */
    method ParseObject() returns (r: Parsed<Value>)
      requires Valid()
      modifies this`ptr, this`depth, tmp, tmp.buf
      ensures Valid() && tmp.buf == old(tmp.buf)
      ensures r.Overran? <==> !ValueFits(TBegin, old(Rest()), old(depth), max, tmp.buf.Length)
      ensures !r.Overran? ==> match Process(TBegin, old(Rest()), old(depth), max)
        case Ok(v, rest) => r == Got(v) && Rest() == rest && depth == old(depth) && ptr >= old(ptr)
        case Err(e) => r == Failed(e)
      decreases |data| - ptr, 0, 0
    {
      hide Tok, ParsePairs, PairsFit, TokHeld;
      if depth + 1 > max { return Failed(TooDeep); }
      depth := depth + 1;
      var t, fit := NextToken();
      if !fit { return Overran; }
      if t == TEnd {
        depth := depth - 1;
        return Got(Obj([]));
      }
      if Stops(t) { return Failed(Fault(t)); }
      var ps := ParseMembers(t);
      if !ps.Got? { return Other(ps); }
      depth := depth - 1;
      return Got(Obj(ps.v));
    }

    method ParseMembers(t: Token) returns (r: Parsed<seq<Pair>>)
      requires Valid() && !Stops(t)
      modifies this`ptr, this`depth, tmp, tmp.buf
      ensures Valid() && tmp.buf == old(tmp.buf)
      ensures r.Overran? <==> !PairsFit(t, old(Rest()), old(depth), max, tmp.buf.Length)
      ensures !r.Overran? ==> match ParsePairs(t, old(Rest()), old(depth), max, [])
        case PairsOk(ps, rest) => r == Got(ps) && Rest() == rest && depth == old(depth) && ptr >= old(ptr)
        case PairsErr(e) => r == Failed(e)
      decreases |data| - ptr, 2
    {
      hide Tok, ParsePairs, ParseMember, RawSet, PairsFit, MemberFits, TokHeld;
      ghost var s0, d := Rest(), depth;
      var ps, u := [], t;
      while true
        invariant Valid() && tmp.buf == old(tmp.buf) && depth == d && ptr >= old(ptr) && !Stops(u)
        invariant ParsePairs(t, s0, d, max, []) == ParsePairs(u, Rest(), d, max, ps)
        invariant PairsFit(t, s0, d, max, tmp.buf.Length) <==> PairsFit(u, Rest(), d, max, tmp.buf.Length)
        decreases |data| - ptr
      {
        PairsStep(u, Rest(), d, max, ps);
        PairsFitStep(u, Rest(), d, max, tmp.buf.Length);
        if !u.TStr? { return Failed(Fault(u)); }
        var v := MemberValue();
        if !v.Got? { return Other(v); }
        ps := RawSet(ps, u.s, v.v);
        var w, fit := NextToken();
        if !fit { return Overran; }
        if w == TEnd { return Got(ps); }
        if w != TComma { return Failed(Fault(w)); }
        u, fit := NextToken();
        if !fit { return Overran; }
        if Stops(u) { return Failed(Fault(u)); }
      }
    }

    method MemberValue() returns (r: Parsed<Value>)
      requires Valid()
      modifies this`ptr, this`depth, tmp, tmp.buf
      ensures Valid() && tmp.buf == old(tmp.buf)
      ensures r.Overran? <==> !MemberFits(old(Rest()), old(depth), max, tmp.buf.Length)
      ensures !r.Overran? ==> match ParseMember(old(Rest()), old(depth), max)
        case Ok(v, rest) => r == Got(v) && Rest() == rest && depth == old(depth) && ptr >= old(ptr)
        case Err(e) => r == Failed(e)
      decreases |data| - ptr, 1
    {
      hide Tok, Process, ValueFits, TokHeld;
      var c, fit := NextToken();
      if !fit { return Overran; }
      if c != TColon { return Failed(Fault(c)); }
      var w;
      w, fit := NextToken();
      if !fit { return Overran; }
      if Stops(w) { return Failed(Fault(w)); }
      r := ProcessValue(w);
    }
  }

  /** Every string read while a value is processed fits a buffer of the size; t is the token read last. */
  ghost predicate ValueFits(t: Token, s: seq<byte>, depth: nat, max: nat, size: nat)
    decreases |s|, 0
  {
    (t == TOpen || t == TBegin) && depth + 1 <= max ==>
      && TokHeld(s) <= size
      && var u := Tok(s);
      && (t == TOpen && u.0 != TClose && !Stops(u.0) ==> ItemsFit(u.0, u.1, depth + 1, max, size))
      && (t == TBegin && u.0 != TEnd && !Stops(u.0) ==> PairsFit(u.0, u.1, depth + 1, max, size))
  }

  ghost predicate ItemsFit(t: Token, s: seq<byte>, depth: nat, max: nat, size: nat)
    decreases |s|, 1
  {
    && ValueFits(t, s, depth, max, size)
    && var p := Process(t, s, depth, max);
    p.Ok? ==>
      && TokHeld(p.rest) <= size
      && var w := Tok(p.rest);
      w.0 == TComma ==>
        && TokHeld(w.1) <= size
        && var x := Tok(w.1);
        !Stops(x.0) ==> ItemsFit(x.0, x.1, depth, max, size)
  }

  ghost predicate MemberFits(s: seq<byte>, depth: nat, max: nat, size: nat)
    decreases |s|, 1
  {
    && TokHeld(s) <= size
    && var c := Tok(s);
    c.0 == TColon ==>
      && TokHeld(c.1) <= size
      && var w := Tok(c.1);
      !Stops(w.0) ==> ValueFits(w.0, w.1, depth, max, size)
  }

  ghost predicate PairsFit(t: Token, s: seq<byte>, depth: nat, max: nat, size: nat)
    decreases |s|, 2
  {
    t.TStr? ==>
      && MemberFits(s, depth, max, size)
      && var p := ParseMember(s, depth, max);
      p.Ok? ==>
        && TokHeld(p.rest) <= size
        && var w := Tok(p.rest);
        w.0 == TComma ==>
          && TokHeld(w.1) <= size
          && var x := Tok(w.1);
          !Stops(x.0) ==> PairsFit(x.0, x.1, depth, max, size)
  }

  /** What has to fit after an element, and after a member. */
  ghost predicate AfterItemFits(s: seq<byte>, depth: nat, max: nat, size: nat) {
    && TokHeld(s) <= size
    && var w := Tok(s);
    w.0 == TComma ==> TokHeld(w.1) <= size && var x := Tok(w.1); !Stops(x.0) ==> ItemsFit(x.0, x.1, depth, max, size)
  }

  ghost predicate AfterPairFits(s: seq<byte>, depth: nat, max: nat, size: nat) {
    && TokHeld(s) <= size
    && var w := Tok(s);
    w.0 == TComma ==> TokHeld(w.1) <= size && var x := Tok(w.1); !Stops(x.0) ==> PairsFit(x.0, x.1, depth, max, size)
  }

  lemma ItemsFitStep(u: Token, s: seq<byte>, depth: nat, max: nat, size: nat)
    ensures var p := Process(u, s, depth, max);
      ItemsFit(u, s, depth, max, size) <==>
        ValueFits(u, s, depth, max, size) && (p.Ok? ==> AfterItemFits(p.rest, depth, max, size))
  {
    hide Tok, Process, ValueFits, TokHeld;
  }

  lemma PairsFitStep(u: Token, s: seq<byte>, depth: nat, max: nat, size: nat)
    ensures var p := ParseMember(s, depth, max);
      PairsFit(u, s, depth, max, size) <==>
        (u.TStr? ==> MemberFits(s, depth, max, size) && (p.Ok? ==> AfterPairFits(p.rest, depth, max, size)))
  {
    hide Tok, ParseMember, MemberFits, TokHeld;
  }

  /** Every string of a whole text that is read before decoding stops. */
  ghost predicate TextFits(s: seq<byte>, max: nat, size: nat) {
    && TokHeld(s) <= size
    && var t := Tok(s);
    !Stops(t.0) ==>
      && ValueFits(t.0, t.1, 0, max, size)
      && var p := Process(t.0, t.1, 0, max);
      p.Ok? ==> TokHeld(p.rest) <= size
  }

  /** A buffer as long as the text is enough. */
  lemma {:induction false} ValueFitsLong(t: Token, s: seq<byte>, depth: nat, max: nat, size: nat)
    requires |s| <= size
    ensures ValueFits(t, s, depth, max, size)
    decreases |s|, 0
  {
    hide Tok, Process, ParseMember;
    if (t == TOpen || t == TBegin) && depth + 1 <= max {
      var u := Tok(s);
      if !Stops(u.0) {
        ItemsFitLong(u.0, u.1, depth + 1, max, size);
        PairsFitLong(u.0, u.1, depth + 1, max, size);
      }
    }
  }

  lemma {:induction false} ItemsFitLong(t: Token, s: seq<byte>, depth: nat, max: nat, size: nat)
    requires |s| <= size
    ensures ItemsFit(t, s, depth, max, size)
    decreases |s|, 1
  {
    hide Tok, Process, ValueFits;
    ValueFitsLong(t, s, depth, max, size);
    var p := Process(t, s, depth, max);
    if p.Ok? && Tok(p.rest).0 == TComma {
      var x := Tok(Tok(p.rest).1);
      if !Stops(x.0) { ItemsFitLong(x.0, x.1, depth, max, size); }
    }
  }

  lemma {:induction false} MemberFitsLong(s: seq<byte>, depth: nat, max: nat, size: nat)
    requires |s| <= size
    ensures MemberFits(s, depth, max, size)
    decreases |s|, 1
  {
    hide Tok, ValueFits;
    if Tok(s).0 == TColon {
      var w := Tok(Tok(s).1);
      if !Stops(w.0) { ValueFitsLong(w.0, w.1, depth, max, size); }
    }
  }

  lemma {:induction false} PairsFitLong(t: Token, s: seq<byte>, depth: nat, max: nat, size: nat)
    requires |s| <= size
    ensures PairsFit(t, s, depth, max, size)
    decreases |s|, 2
  {
    hide Tok, ParseMember, MemberFits;
    MemberFitsLong(s, depth, max, size);
    var p := ParseMember(s, depth, max);
    if p.Ok? && Tok(p.rest).0 == TComma {
      var x := Tok(Tok(p.rest).1);
      if !Stops(x.0) { PairsFitLong(x.0, x.1, depth, max, size); }
    }
  }

  lemma TextFitsLong(s: seq<byte>, max: nat, size: nat)
    requires |s| <= size
    ensures TextFits(s, max, size)
  {
    hide Tok, Process, ValueFits;
    var t := Tok(s);
    if !Stops(t.0) { ValueFitsLong(t.0, t.1, 0, max, size); }
  }

  /** A value, an error, or the end of what the code defines. */
  datatype Parsed<T> = Got(v: T) | Failed(e: Error) | Overran

  function Other<T, U>(r: Parsed<T>): Parsed<U>
    requires !r.Got?
  {
    if r.Failed? then Failed(r.e) else Overran
  }

  /** The size of tmp for a text of n bytes: strbuf_new is handed the length as an int. */
  function TmpSize(n: nat): (r: Option<nat>)
    ensures n < INT_MAX ==> r.Some? && r.value > n
  {
    var len := AsInt(n);
    if len == INT_MAX then None else if len <= 0 then Some(DEFAULT_SIZE) else Some(len + 1)
  }

  /** What reading a string after its opening quote writes into tmp, the terminator with it. */
  ghost function Held(s: seq<byte>): (r: nat)
    ensures r <= |s|
    decreases |s|
  {
    if s == [] || s[0] == 0 then 0
    else if s[0] == QUOTE then 1
    else match Char(s)
      case NoPiece => 0
      case Piece(b, n) => |b| + Held(s[n..])
  }

  /** What reading a token writes into tmp. */
  ghost function TokHeld(s0: seq<byte>): (r: nat)
    ensures r <= |s0|
  {
    var s := Skip(s0);
    if s != [] && s[0] == QUOTE then Held(s[1..]) else 0
  }

  lemma HeldStep(s: seq<byte>)
    requires s != [] && s[0] != 0 && s[0] != QUOTE
    ensures var p := Char(s); Held(s) == if p == NoPiece then 0 else |p.bytes| + Held(s[p.n..])
  {
    hide Char;
  }

  lemma HeldEnds(s: seq<byte>)
    ensures s == [] || s[0] == 0 ==> Held(s) == 0
    ensures s != [] && s[0] == QUOTE ==> Held(s) == 1
  {
  }

  /** A string of n bytes with nothing to escape, in quotes. */
  ghost function PlainText(n: nat): seq<byte> {
    [QUOTE] + seq(n, _ => 97) + [QUOTE]
  }

  lemma {:induction false} PlainHeld(n: nat)
    ensures Held(seq(n, _ => 97) + [QUOTE]) == n + 1
  {
    var s: seq<byte> := seq(n, _ => 97) + [QUOTE];
    if n > 0 {
      assert s[1..] == seq(n - 1, _ => 97) + [QUOTE];
      PlainHeld(n - 1);
    }
  }

  lemma PlainTextHeld(n: nat)
    ensures |PlainText(n)| == n + 2 && TokHeld(PlainText(n)) == n + 1
  {
    var s := PlainText(n);
    assert s[1..] == seq(n, _ => 97) + [QUOTE];
    PlainHeld(n);
  }

  /** For which lengths every token of every text fits: exactly those below the largest int. */
  lemma EveryText(n: nat)
    ensures (TmpSize(n).Some? &&
      forall s: seq<byte>, p: nat :: |s| == n && p <= n ==> TokHeld(s[p..]) <= TmpSize(n).value) <==> n < INT_MAX
  {
    hide TokHeld;
    if n >= INT_MAX && TmpSize(n).Some? {
      var s := PlainText(n - 2);
      PlainTextHeld(n - 2);
      assert s[0..] == s && TokHeld(s[0..]) > TmpSize(n).value;
    }
  }

  ghost function Joined(a: seq<Value>, r: ItemsResult): ItemsResult {
    match r case ItemsOk(vs, rest) => ItemsOk(a + vs, rest) case ItemsErr(e) => ItemsErr(e)
  }

  lemma JoinedNone(r: ItemsResult)
    ensures Joined([], r) == r
  {
    match r case ItemsOk(vs, _) => assert [] + vs == vs; case ItemsErr(_) =>
  }

  /** What follows an element of an array: the end, or a comma and the rest. */
  ghost function AfterItem(a: seq<Value>, s: seq<byte>, depth: nat, max: nat): ItemsResult {
    var w := Tok(s);
    if w.0 == TClose then ItemsOk(a, w.1)
    else if w.0 != TComma then ItemsErr(Fault(w.0))
    else
      var x := Tok(w.1);
      if Stops(x.0) then ItemsErr(Fault(x.0)) else Joined(a, ParseItems(x.0, x.1, depth, max))
  }

  lemma ItemsStep(a: seq<Value>, u: Token, s: seq<byte>, depth: nat, max: nat)
    ensures var p := Process(u, s, depth, max);
      Joined(a, ParseItems(u, s, depth, max)) == if p.Err? then ItemsErr(p.e)
        else AfterItem(a + [p.v], p.rest, depth, max)
  {
    hide Tok;
    var p := Process(u, s, depth, max);
    if p.Ok? && Tok(p.rest).0 == TComma {
      var x := Tok(Tok(p.rest).1);
      if Stops(x.0) { StopFails(x.0, x.1, depth, max); }
      match ParseItems(x.0, x.1, depth, max)
      case ItemsOk(vs, _) => assert a + ([p.v] + vs) == a + [p.v] + vs;
      case ItemsErr(_) =>
    }
  }

  /** What follows a member of an object. */
  ghost function AfterPair(acc: seq<Pair>, s: seq<byte>, depth: nat, max: nat): PairsResult {
    var w := Tok(s);
    if w.0 == TEnd then PairsOk(acc, w.1)
    else if w.0 != TComma then PairsErr(Fault(w.0))
    else
      var x := Tok(w.1);
      if Stops(x.0) then PairsErr(Fault(x.0)) else ParsePairs(x.0, x.1, depth, max, acc)
  }

  lemma PairsStep(u: Token, s: seq<byte>, depth: nat, max: nat, acc: seq<Pair>)
    ensures var p := ParseMember(s, depth, max);
      ParsePairs(u, s, depth, max, acc) ==
        if !u.TStr? then PairsErr(Fault(u)) else if p.Err? then PairsErr(p.e)
          else AfterPair(RawSet(acc, u.s, p.v), p.rest, depth, max)
  {
    hide Tok, ParseMember, RawSet;
  }

  /** A zero byte among the first two: not UTF-8. */
  predicate Wide(s: seq<byte>) {
    |s| >= 2 && (s[0] == 0 || s[1] == 0)
  }

  /** json_decode. */
  method DecodeText(s: seq<byte>, max: nat) returns (r: Parsed<Value>)
    ensures r.Overran? <==> !Wide(s) && (TmpSize(|s|).None? || !TextFits(s, max, TmpSize(|s|).value))
    ensures |s| < INT_MAX ==> !r.Overran?
    ensures !r.Overran? ==> match Decode(s, max) case Ok(v, _) => r == Got(v) case Err(e) => r == Failed(e)
  {
    hide Tok, Process, TokHeld, ValueFits;
    if |s| < INT_MAX { TextFitsLong(s, max, TmpSize(|s|).value); }
    if Wide(s) { return Failed(WideText); }
    if TmpSize(|s|).None? { return Overran; }
    var p := new Parser(s, max);
    assert s[0..] == s;
    var t, fit := p.NextToken();
    if !fit { return Overran; }
    if Stops(t) {
      StopFails(t, Tok(s).1, 0, max);
      return Failed(Fault(t));
    }
    r := p.ProcessValue(t);
    if !r.Got? { return; }
    var u;
    u, fit := p.NextToken();
    if !fit { return Overran; }
    if u != TEof { return Failed(Fault(u)); }
  }

  /** A text of 2^31 bytes that is one plain string: the length arrives as a negative int and the buffer has
      the default size. */
  method LengthWraps() returns (s: seq<byte>, r: Parsed<Value>)
    ensures |s| == 0x8000_0000 && s == PlainText(0x7fff_fffe) && TmpSize(|s|) == Some(DEFAULT_SIZE) && r == Overran
  {
    hide TokHeld;
    s := [QUOTE] + seq(0x7fff_fffe, _ => 97) + [QUOTE];
    PlainTextHeld(0x7fff_fffe);
    r := DecodeText(s, 0);
  }

  lemma StopFails(t: Token, s: seq<byte>, depth: nat, max: nat)
    requires Stops(t)
    ensures Process(t, s, depth, max) == Err(Fault(t)) && ParseItems(t, s, depth, max) == ItemsErr(Fault(t))
  {
  }

  /** Writing and reading a value, end to end: what could be written comes back exactly when the depth limit
      of the decoder allows. */
  method WriteAndRead(v: Value, encodeMax: nat, decodeMax: nat) returns (o: Outcome, r: Option<Value>)
    requires Plain(v)
    ensures Peak(v, 0) < LARGEST ==> o == if Depth(v) <= encodeMax then Wrote else Nested
    ensures o == Wrote && Short(v) ==> Peak(v, 0) < LARGEST
    ensures o == Wrote ==> r == if Depth(v) <= decodeMax then Some(v) else None
  {
    hide Plain, Depth, Decode, Peak, Short;
    var s;
    o, s := Encode(v, encodeMax);
    r := None;
    if o != Wrote { return; }
    RoundTrip(v, decodeMax);
    var p := DecodeText(s, decodeMax);
    if p.Got? { r := Some(p.v); }
  }

  lemma Suffix(s: seq<byte>, r: seq<byte>)
    requires s != [] && !NumTok(s).0.TErr? && r == NumTok(s).1
    ensures |r| < |s| && r == s[|s| - |r|..]
  {
    hide DigitRun, NumBody;
    if s[0] == MINUS {
      var n := DigitRun(s[1..]);
      assert s[1..][n..] == s[n + 1..];
    }
  }

  ghost function Prepend(a: seq<byte>, r: StrResult): StrResult {
    match r case StrOk(t, rest) => StrOk(a + t, rest) case StrBad => StrBad
  }

  lemma PrependNone(r: StrResult)
    ensures Prepend([], r) == r
  {
    match r case StrOk(t, _) => assert [] + t == t; case StrBad =>
  }

  /** One character of a string, by the definition of StrBody. */
  lemma BodyStep(s: seq<byte>)
    requires s != [] && s[0] != 0 && s[0] != QUOTE
    ensures var p := Char(s); StrBody(s) == if p == NoPiece then StrBad else Prepend(p.bytes, StrBody(s[p.n..]))
  {
    hide Char;
  }

  lemma BodyEnds(s: seq<byte>)
    ensures s == [] || s[0] == 0 ==> StrBody(s) == StrBad
    ensures s != [] && s[0] == QUOTE ==> StrBody(s) == StrOk([], s[1..])
  {
  }

  lemma PrependStep(a: seq<byte>, b: seq<byte>, r: StrResult)
    ensures Prepend(a, Prepend(b, r)) == Prepend(a + b, r)
  {
    match r case StrOk(t, _) => assert a + (b + t) == a + b + t; case StrBad =>
  }
}
