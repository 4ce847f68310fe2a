/**
 The working parts of lua_cmsgpack.c: the growing output buffer, the encoder that appends to it,
 the input cursor, the decoder that moves it, packing and streamed unpacking.
 */
module MsgPackIO {
  import opened Common
  import opened Octets
  import opened MsgPack

  /** mp_buf: bytes in use and bytes known to be free behind them. */
  class Buf {
    var b: array<byte>
    var len: nat
    var free: nat

    constructor ()
      ensures Valid() && Contents() == [] && fresh(b)
    {
      b, len, free := new byte[0], 0, 0;
    }

    ghost predicate Valid()
      reads this
    {
      len + free <= b.Length
    }

    ghost function Contents(): seq<byte>
      reads this, b
      requires len <= b.Length
    {
      b[..len]
    }

    /** mp_buf_append: grow to twice what is needed when the free bytes do not suffice. */
    method Append(s: seq<byte>)
      requires Valid()
      modifies this, b
      ensures Valid() && Contents() == old(Contents()) + s && (b == old(b) || fresh(b))
    {
      if free < |s| {
        var newlen := len + |s|;
        var c := new byte[2 * newlen];
        forall i | 0 <= i < len { c[i] := b[i]; }
        assert c[..len] == b[..len];
        b, free := c, newlen;
      }
      ghost var was := b[..len];
      forall i | 0 <= i < |s| { b[len + i] := s[i]; }
      assert b[..len + |s|] == was + s;
      len := len + |s|;
      free := free - |s|;
    }

    /** Hand out the contents and start over in the same space. */
    method Flush() returns (s: seq<byte>)
      requires Valid()
      modifies this
      ensures Valid() && s == old(Contents()) && Contents() == [] && b == old(b)
    {
      s := b[..len];
      free := free + len;
      len := 0;
    }
  }

  lemma {:induction false} ItemsSnoc(vs: seq<Value>, j: nat, level: nat)
    requires j < |vs| && forall i :: 0 <= i < |vs| ==> Lua(vs[i])
    ensures EncItems(vs[..j + 1], level) == EncItems(vs[..j], level) + Enc(vs[j], level)
    decreases |vs|
  {
    hide Enc;
    if j == 0 {
      assert vs[..1][1..] == [] && vs[..0] == [];
    } else {
      ItemsSnoc(vs[1..], j - 1, level);
      assert vs[..j + 1][1..] == vs[1..][..j] && vs[..j][1..] == vs[1..][..j - 1];
    }
  }

  lemma {:induction false} PairsSnoc(ps: seq<Pair>, j: nat, level: nat)
    requires j < |ps| && forall i :: 0 <= i < |ps| ==> LuaPair(ps[i])
    ensures EncPairs(ps[..j + 1], level) == EncPairs(ps[..j], level) + EncPair(ps[j], level)
    decreases |ps|
  {
    hide Enc, EncPair;
    if j == 0 {
      assert ps[..1][1..] == [] && ps[..0] == [];
    } else {
      PairsSnoc(ps[1..], j - 1, level);
      assert ps[..j + 1][1..] == ps[1..][..j] && ps[..j][1..] == ps[1..][..j - 1];
    }
  }

  lemma Glue(c: seq<byte>, h: seq<byte>, x: seq<byte>, y: seq<byte>)
    ensures c + (h + x) + y == c + (h + (x + y))
  {
  }

  lemma NothingWritten(c: seq<byte>, h: seq<byte>, level: nat)
    ensures c + h == c + (h + EncItems([], level)) && c + h == c + (h + EncPairs([], level))
  {
  }

  /** mp_encode_lua_type. */
  method EncodeValue(buf: Buf, v: Value, level: nat)
    requires buf.Valid() && Lua(v)
    modifies buf, buf.b
    ensures buf.Valid() && buf.Contents() == old(buf.Contents()) + Enc(v, level)
    ensures buf.b == old(buf.b) || fresh(buf.b)
    decreases v, 1
  {
    match v {
      case Nil => buf.Append([0xc0]);
      case Bool(b) => buf.Append([if b then 0xc3 else 0xc2]);
      case Int(n) => buf.Append(EncInt(n));
      case Single(bits) => buf.Append([0xca] + bits);
      case Double(bits) => buf.Append([0xcb] + bits);
      case Str(s) =>
        ghost var c0 := buf.Contents();
        buf.Append(Header(Raw, |s|));
        buf.Append(s);
        assert c0 + Header(Raw, |s|) + s == c0 + (Header(Raw, |s|) + s);
      case _ => if level == MAX_NESTING { buf.Append([0xc0]); } else { EncodeTable(buf, v, level); }
    }
  }

  /** mp_encode_lua_table. */
  method EncodeTable(buf: Buf, v: Value, level: nat)
    requires buf.Valid() && Lua(v) && (v.Arr? || v.Map?) && level != MAX_NESTING
    modifies buf, buf.b
    ensures buf.Valid() && buf.Contents() == old(buf.Contents()) + Enc(v, level)
    ensures buf.b == old(buf.b) || fresh(buf.b)
    decreases v, 0
  {
    TableView(v);
    var isArray := TableIsArray(KeysOf(v));
    if isArray { EncodeArray(buf, v.items, level); } else { EncodeMap(buf, v.pairs, level); }
  }

  /** The keys of a table as they are enumerated. */
  function KeysOf(v: Value): (r: seq<Value>)
    requires v.Arr? || v.Map?
    ensures |r| == if v.Arr? then |v.items| else |v.pairs|
  {
    if v.Arr? then seq(|v.items|, i => Int(i + 1)) else seq(|v.pairs|, i requires 0 <= i < |v.pairs| => v.pairs[i].key)
  }

  /** The test on the keys tells arrays from other tables. */
  lemma TableView(v: Value)
    requires Lua(v) && (v.Arr? || v.Map?)
    ensures forall i, j :: 0 <= i < j < |KeysOf(v)| ==> KeysOf(v)[i] != KeysOf(v)[j]
    ensures v.Arr? <==> OneTo(KeysOf(v))
  {
    var ks := KeysOf(v);
    if v.Arr? {
      forall n: int | 1 <= n <= |ks| ensures Int(n) in ks { assert ks[n - 1] == Int(n); }
    } else if OneTo(ks) {
      forall i | 0 <= i < |ks| ensures ks[i].Int? && 1 <= ks[i].n <= |ks| {
        assert ks[i].Int?;
        assert Int(ks[i].n) in ks;
      }
      assert forall i :: 0 <= i < |ks| ==> v.pairs[i].key == ks[i];
      assert ArrayKeys(v.pairs);
    }
  }

  /** Exactly the integers from 1 to their number. */
  ghost predicate OneTo(keys: seq<Value>) {
    (forall i :: 0 <= i < |keys| ==> keys[i].Int?) && (forall n: int :: 1 <= n <= |keys| <==> Int(n) in keys)
  }

  method EncodeArray(buf: Buf, items: seq<Value>, level: nat)
    requires buf.Valid() && forall i :: 0 <= i < |items| ==> Lua(items[i])
    modifies buf, buf.b
    ensures buf.Valid() && buf.Contents() == old(buf.Contents()) + (Header(List, |items|) + EncItems(items, level + 1))
    ensures buf.b == old(buf.b) || fresh(buf.b)
    decreases items, |items| + 1
  {
    hide Enc, EncPair, EncItems, EncPairs, Header, Lua;
    ghost var c0, h := buf.Contents(), Header(List, |items|);
    buf.Append(Header(List, |items|));
    assert items[..0] == [];
    NothingWritten(c0, h, level + 1);
    for j := 0 to |items|
      invariant buf.Valid() && (buf.b == old(buf.b) || fresh(buf.b))
      invariant buf.Contents() == c0 + (h + EncItems(items[..j], level + 1))
    {
      EncodeValue(buf, items[j], level + 1);
      ItemsSnoc(items, j, level + 1);
      Glue(c0, h, EncItems(items[..j], level + 1), Enc(items[j], level + 1));
    }
    assert items[..|items|] == items;
  }

  method EncodeMap(buf: Buf, ps: seq<Pair>, level: nat)
    requires buf.Valid() && forall i :: 0 <= i < |ps| ==> LuaPair(ps[i])
    modifies buf, buf.b
    ensures buf.Valid() && buf.Contents() == old(buf.Contents()) + (Header(Hash, |ps|) + EncPairs(ps, level + 1))
    ensures buf.b == old(buf.b) || fresh(buf.b)
    decreases ps, |ps| + 1
  {
    hide Enc, EncPair, EncItems, EncPairs, Header, Lua;
    ghost var c0, h := buf.Contents(), Header(Hash, |ps|);
    buf.Append(Header(Hash, |ps|));
    assert ps[..0] == [];
    NothingWritten(c0, h, level + 1);
    for j := 0 to |ps|
      invariant buf.Valid() && (buf.b == old(buf.b) || fresh(buf.b))
      invariant buf.Contents() == c0 + (h + EncPairs(ps[..j], level + 1))
    {
      EncodePair(buf, ps[j], level + 1);
      PairsSnoc(ps, j, level + 1);
      Glue(c0, h, EncPairs(ps[..j], level + 1), EncPair(ps[j], level + 1));
    }
    assert ps[..|ps|] == ps;
  }

  method EncodePair(buf: Buf, p: Pair, level: nat)
    requires buf.Valid() && LuaPair(p)
    modifies buf, buf.b
    ensures buf.Valid() && buf.Contents() == old(buf.Contents()) + EncPair(p, level)
    ensures buf.b == old(buf.b) || fresh(buf.b)
    decreases p, 0
  {
    hide Enc;
    EncodeValue(buf, p.key, level);
    EncodeValue(buf, p.val, level);
  }

  /** mp_pack: the encodings one after the other; no argument is an error. */
  method Pack(vs: seq<Value>) returns (ok: bool, s: seq<byte>)
    requires forall i :: 0 <= i < |vs| ==> Lua(vs[i])
    ensures ok <==> vs != []
    ensures ok ==> s == EncItems(vs, 0)
  {
    hide Enc;
    s := [];
    if vs == [] { return false, s; }
    var buf := new Buf();
    assert vs[..0] == [];
    for i := 0 to |vs|
      invariant buf.Valid() && fresh(buf) && fresh(buf.b) && buf.Contents() == [] && s == EncItems(vs[..i], 0)
    {
      EncodeValue(buf, vs[i], 0);
      var part := buf.Flush();
      ItemsSnoc(vs, i, 0);
      s := s + part;
    }
    assert vs[..|vs|] == vs;
    return true, s;
  }

  /** table_is_an_array: only positive integer keys, and as many as the largest. */
  method TableIsArray(keys: seq<Value>) returns (r: bool)
    requires forall i, j :: 0 <= i < j < |keys| ==> keys[i] != keys[j]
    requires |keys| < INT_MAX
    ensures r <==> OneTo(keys)
  {
    var count, max := 0, 0;
    while count < |keys|
      invariant count <= |keys| && 0 <= max && forall i :: 0 <= i < count ==> keys[i].Int? && 1 <= keys[i].n <= max
      invariant max == 0 || Int(max) in keys[..count]
    {
      if !keys[count].Int? || keys[count].n <= 0 || keys[count].n > INT_MAX {
        assert keys[count] in keys;
        return false;
      }
      if keys[count].n > max { max := keys[count].n; }
      count := count + 1;
    }
    Dense(keys, max);
    return max == count;
  }

  ghost function Upto(n: nat): (r: set<Value>)
    ensures |r| == n && forall v :: v in r <==> v.Int? && 1 <= v.n <= n
  {
    if n == 0 then {} else Upto(n - 1) + {Int(n)}
  }

  ghost function Elements(s: seq<Value>): (r: set<Value>)
    requires forall i, j :: 0 <= i < j < |s| ==> s[i] != s[j]
    ensures |r| == |s| && forall v :: v in r <==> v in s
  {
    if s == [] then {} else
      assert s == [s[0]] + s[1..];
      assert s[0] !in s[1..];
      {s[0]} + Elements(s[1..])
  }

  /** Distinct positive integers whose largest is their number are 1, 2, ..., n. */
  lemma Dense(keys: seq<Value>, max: nat)
    requires forall i, j :: 0 <= i < j < |keys| ==> keys[i] != keys[j]
    requires forall i :: 0 <= i < |keys| ==> keys[i].Int? && 1 <= keys[i].n <= max
    requires max == 0 || Int(max) in keys
    ensures max == |keys| <==> forall n: int :: 1 <= n <= |keys| <==> Int(n) in keys
  {
    var a, b := Elements(keys), Upto(max);
    assert a <= b;
    assert |b - a| == |b| - |a|;
    if max == |keys| {
      assert a == b;
      forall n: int ensures 1 <= n <= |keys| <==> Int(n) in keys { assert Int(n) in b <==> Int(n) in a; }
    }
  }

  // ----- decoding ---------------------------------------------------------------------------

  /** mp_cur: a place in the input, the bytes left, and the error found. */
  class Cur {
    const s: seq<byte>
    var p: nat
    var left: nat
    var err: Option<Error>

    constructor (s: seq<byte>, offset: nat)
      requires offset <= |s|
      ensures this.s == s && p == offset && Valid() && err == None
    {
      this.s, p, left, err := s, offset, |s| - offset, None;
    }

    ghost predicate Valid()
      reads this
    {
      p + left == |s|
    }

    ghost function Rest(): seq<byte>
      reads this
      requires Valid()
    {
      s[p..]
    }

    method Consume(n: nat)
      requires Valid() && n <= left
      modifies this
      ensures Valid() && p == old(p) + n && err == old(err) && Rest() == old(Rest())[n..]
    {
      p := p + n;
      left := left - n;
    }

    /** mp_decode_to_lua_type. */
    method DecodeValue() returns (v: Value)
      requires Valid() && err == None
      modifies this
      ensures Valid() && p >= old(p)
      ensures match Dec(old(Rest()))
        case Ok(w, n) => err == None && v == w && p == old(p) + n
        case Err(e) => err == Some(e)
      decreases left, 0, 0
    {
      hide Open;
      v := Nil;
      var front := Open(s[p..]);
      match front {
        case Short => err := Some(Eof);
        case Unknown => err := Some(BadFormat);
        case Scalar(w, n) =>
          Consume(n);
          v := w;
        case Sized(k, n, l) =>
          match k {
            case Raw =>
              if left < n + l {
                err := Some(Eof);
              } else {
                v := Str(s[p + n..p + n + l]);
                Consume(n + l);
              }
            case List =>
              Consume(n);
              var items := DecodeArray(l);
              v := Arr(items);
            case Hash =>
              Consume(n);
              var pairs := DecodeHash(l);
              v := Map(pairs);
          }
      }
    }

    /** mp_decode_to_lua_array. */
    method DecodeArray(l: nat) returns (items: seq<Value>)
      requires Valid() && err == None
      modifies this
      ensures Valid() && p >= old(p)
      ensures match DecItems(old(Rest()), l)
        case Items(vs, n) => err == None && items == vs && p == old(p) + n
        case Bad(e) => err == Some(e)
      decreases left, 1
    {
      hide Dec, DecItems, Joined;
      items := [];
      ghost var s0, p0 := Rest(), p;
      var k: nat := l;
      ItemsStart(s0, l);
      while k > 0
        invariant Valid() && err == None && p0 <= p && left <= old(left)
        invariant DecItems(s0, l) == Joined(items, p - p0, DecItems(Rest(), k))
        decreases k
      {
        ghost var r, n := Rest(), p - p0;
        ItemsStep(items, n, r, k);
        var v := DecodeValue();
        if err != None { return; }
        assert Rest() == r[Dec(r).n..];
        items := items + [v];
        k := k - 1;
      }
      ItemsEnd(items, p - p0, Rest());
    }

    /** mp_decode_to_lua_hash. */
    method DecodeHash(l: nat) returns (pairs: seq<Pair>)
      requires Valid() && err == None
      modifies this
      ensures Valid() && p >= old(p)
      ensures match DecPairs(old(Rest()), l, [])
        case Pairs(ps, n) => err == None && pairs == ps && p == old(p) + n
        case Wrong(e) => err == Some(e)
      decreases left, 1
    {
      hide Dec, SetTable;
      pairs := [];
      ghost var s0, p0 := Rest(), p;
      var k: nat := l;
      while k > 0
        invariant Valid() && err == None && p0 <= p && k <= l && left <= old(left)
        invariant DecPairs(s0, l, []) == Further(p - p0, DecPairs(Rest(), k, pairs))
        decreases k
      {
        pairs := DecodePair(pairs, k);
        if err != None { return; }
        k := k - 1;
      }
    }

    /** One pair of a hash, stored into the table. */
    method DecodePair(pairs: seq<Pair>, ghost k: nat) returns (out: seq<Pair>)
      requires Valid() && err == None && k > 0
      modifies this
      ensures Valid() && p >= old(p) && left <= old(left)
      ensures DecPairs(old(Rest()), k, pairs) ==
        match err case None => Further(p - old(p), DecPairs(Rest(), k - 1, out)) case Some(e) => Wrong(e)
      decreases left, 0, 1
    {
      hide Dec, SetTable;
      out := pairs;
      ghost var r := Rest();
      var key := DecodeValue();
      if err != None { return; }
      assert Rest() == r[Dec(r).n..];
      ghost var r1 := Rest();
      var val := DecodeValue();
      if err != None { return; }
      assert Rest() == r[Dec(r).n + Dec(r1).n..];
      if key == Nil {
        err := Some(NilKey);
        return;
      }
      out := SetTable(pairs, key, val);
    }
  }

  ghost function Joined(a: seq<Value>, n: nat, r: ItemsResult): ItemsResult {
    match r case Items(vs, m) => Items(a + vs, n + m) case Bad(e) => Bad(e)
  }

  lemma ItemsStart(s: seq<byte>, l: nat)
    ensures Joined([], 0, DecItems(s, l)) == DecItems(s, l)
  {
    match DecItems(s, l) case Items(vs, n) => assert [] + vs == vs; case Bad(_) =>
  }

  lemma ItemsStep(items: seq<Value>, n: nat, r: seq<byte>, k: nat)
    requires k > 0
    ensures Joined(items, n, DecItems(r, k)) ==
      match Dec(r) case Ok(v, m) => Joined(items + [v], n + m, DecItems(r[m..], k - 1)) case Err(e) => Bad(e)
  {
    hide Dec;
    match Dec(r)
    case Err(_) =>
    case Ok(v, m) =>
      match DecItems(r[m..], k - 1)
      case Bad(_) =>
      case Items(vs, j) => assert items + ([v] + vs) == items + [v] + vs;
  }

  lemma ItemsEnd(items: seq<Value>, n: nat, r: seq<byte>)
    ensures Joined(items, n, DecItems(r, 0)) == Items(items, n)
  {
    assert items + [] == items;
  }

  ghost function Further(n: nat, r: PairsResult): PairsResult {
    match r case Pairs(ps, m) => Pairs(ps, n + m) case Wrong(e) => Wrong(e)
  }

  // ----- streamed unpacking ------------------------------------------------------------------

  datatype Unpacked = Failed | All(vs: seq<Value>) | Got(vs: seq<Value>, next: int)

  /** Values one after the other, at most limit of them, up to the end of the input. */
  ghost function Stream(s: seq<byte>, limit: nat): ItemsResult
    decreases limit
  {
    if s == [] || limit == 0 then Items([], 0) else
      match Dec(s)
      case Err(e) => Bad(e)
      case Ok(v, n) => Joined([v], n, Stream(s[n..], limit - 1))
  }

  /** mp_unpack_full: a negative or too large offset, a negative limit and bad input are errors;
      the next offset is -1 at the end of the input and an int otherwise.  Neither limit nor offset means
      everything. */
  method UnpackFull(s: seq<byte>, limit: int, offset: int) returns (r: Unpacked)
    requires AsInt(limit) == limit && AsInt(offset) == offset
    ensures if offset < 0 || limit < 0 || offset > |s| then r == Failed else
      var everything := limit == 0 && offset == 0;
      match Stream(s[offset..], if everything then INT_MAX else limit)
      case Bad(_) => r == Failed
      case Items(vs, n) => r == if everything then All(vs)
        else Got(vs, if offset + n == |s| then -1 else AsInt(offset + n))
  {
    hide Dec, Joined, Stream;
    var everything := limit == 0 && offset == 0;
    if offset < 0 || limit < 0 || offset > |s| { return Failed; }
    var c := new Cur(s, offset);
    var vs, cnt, max := [], 0, if everything then INT_MAX else limit;
    StreamStart(s[offset..], max);
    while c.left > 0 && cnt < max
      invariant c.Valid() && c.err == None && fresh(c) && offset <= c.p && c.s == s && 0 <= cnt <= max
      invariant Stream(s[offset..], max) == Joined(vs, c.p - offset, Stream(c.Rest(), max - cnt))
      decreases max - cnt
    {
      ghost var r0 := c.Rest();
      StreamStep(vs, c.p - offset, r0, max - cnt);
      var v := c.DecodeValue();
      if c.err != None { return Failed; }
      assert c.Rest() == r0[Dec(r0).n..];
      vs := vs + [v];
      cnt := cnt + 1;
    }
    StreamEnd(vs, c.p - offset, c.Rest(), max - cnt);
    if everything { return All(vs); }
    return Got(vs, if c.left == 0 then -1 else AsInt(|s| - c.left));
  }

  lemma StreamStart(s: seq<byte>, limit: nat)
    ensures Joined([], 0, Stream(s, limit)) == Stream(s, limit)
  {
    match Stream(s, limit) case Items(vs, n) => assert [] + vs == vs; case Bad(_) =>
  }

  lemma StreamStep(vs: seq<Value>, n: nat, r: seq<byte>, k: nat)
    requires k > 0 && r != []
    ensures Joined(vs, n, Stream(r, k)) ==
      match Dec(r) case Ok(v, m) => Joined(vs + [v], n + m, Stream(r[m..], k - 1)) case Err(e) => Bad(e)
  {
    hide Dec;
    match Dec(r)
    case Err(_) =>
    case Ok(v, m) =>
      match Stream(r[m..], k - 1)
      case Bad(_) =>
      case Items(ws, j) => assert vs + ([v] + ws) == vs + [v] + ws;
  }

  lemma StreamEnd(vs: seq<Value>, n: nat, r: seq<byte>, k: nat)
    requires r == [] || k == 0
    ensures Joined(vs, n, Stream(r, k)) == Items(vs, n)
  {
    assert vs + [] == vs;
  }

  ghost predicate AllReturn(vs: seq<Value>) {
    forall i :: 0 <= i < |vs| ==> Lua(vs[i]) && SizesFit(vs[i]) && Within(vs[i], 0)
  }

  lemma OneStreams(v: Value, rest: seq<byte>)
    requires Lua(v) && SizesFit(v) && Within(v, 0)
    ensures Enc(v, 0) != [] && Stream(Enc(v, 0) + rest, 1) == Items([v], |Enc(v, 0)|)
  {
    hide Dec, Enc;
    RoundTrip(v, rest);
    var s := Enc(v, 0) + rest;
    assert Dec(s) == Ok(v, |Enc(v, 0)|);
    assert Stream(s[|Enc(v, 0)|..], 0) == Items([], 0);
    assert [v] + [] == [v];
  }

  /** mp_unpack_one: the offset is an integer of Lua. */
  method UnpackOne(s: seq<byte>, offset: int) returns (r: Unpacked)
    ensures var at := AsInt(offset); if at < 0 || at > |s| then r == Failed else
      match Stream(s[at..], 1)
      case Bad(_) => r == Failed
      case Items(vs, n) => r == Got(vs, if at + n == |s| then -1 else AsInt(at + n))
  {
    hide Stream;
    r := UnpackFull(s, 1, AsInt(offset));
  }

  /** Where the values of a pack begin. */
  ghost function Starts(vs: seq<Value>): (r: seq<int>)
    requires AllReturn(vs)
    ensures |r| == |vs|
  {
    seq(|vs|, i requires 0 <= i < |vs| => |EncItems(vs[..i], 0)|)
  }

  lemma StartAt(vs: seq<Value>, i: nat)
    requires AllReturn(vs) && i < |vs|
    ensures Starts(vs)[i] == |EncItems(vs[..i], 0)| && (i == 0 ==> Starts(vs)[i] == 0)
    ensures i + 1 < |vs| ==> Starts(vs)[i + 1] == Starts(vs)[i] + |Enc(vs[i], 0)|
  {
    hide Enc, Lua, SizesFit, Within;
    if i + 1 < |vs| { ItemsSnoc(vs, i, 0); }
  }

  lemma {:induction false} Rising(vs: seq<Value>, i: nat, j: nat)
    requires AllReturn(vs) && i <= j < |vs|
    ensures 0 <= Starts(vs)[i] <= Starts(vs)[j]
  {
    hide Starts, AllReturn, Enc;
    StartAt(vs, i);
    if i < j {
      Rising(vs, i, j - 1);
      StartAt(vs, j - 1);
    }
  }

  /** The values so far have come out at their places, and the next one begins where the offset says, or
      where it would say if it were wider. */
  ghost predicate AtValue(s: seq<byte>, vs: seq<Value>, out: seq<Value>, used: seq<int>, next: int)
    requires AllReturn(vs)
  {
    var i := |used|;
    && i <= |vs| && used == Starts(vs)[..i] && out == vs[..i]
    && (if i == |vs| then next == -1 else
        next == AsInt(Starts(vs)[i]) && 0 <= Starts(vs)[i] <= |s| && s[Starts(vs)[i]..] == EncItems(vs[i..], 0))
    && (i > 0 ==> Starts(vs)[i - 1] <= INT_MAX)
  }

  lemma AtFirst(s: seq<byte>, vs: seq<Value>)
    requires vs != [] && AllReturn(vs) && s == EncItems(vs, 0)
    ensures AtValue(s, vs, [], [], 0)
  {
    hide Enc, Lua, SizesFit, Within;
    StartAt(vs, 0);
    assert vs[0..] == vs && s[0..] == s;
  }

  lemma AtNext(s: seq<byte>, vs: seq<Value>, out: seq<Value>, used: seq<int>, next: int)
    requires AllReturn(vs) && AtValue(s, vs, out, used, next) && |used| < |vs| && next == Starts(vs)[|used|]
    ensures var v := vs[|used|]; var n := |Enc(v, 0)|;
      && Stream(s[next..], 1) == Items([v], n)
      && AtValue(s, vs, out + [v], used + [next], if next + n == |s| then -1 else AsInt(next + n))
  {
    hide Enc, Stream, Starts, Lua, SizesFit, Within;
    var i := |used|;
    var n := |Enc(vs[i], 0)|;
    OneMore(vs, i, s[next..]);
    StartAt(vs, i);
    assert s[next..][n..] == s[next + n..];
  }

  /** Following the offsets of unpack_one over the pack of several values, at most once for each: the offsets
      are the places where the values begin, so that the values come out in order, exactly when the last of
      these places is an int. */
  method FollowOffsets(s: seq<byte>, count: nat, ghost vs: seq<Value>)
    returns (out: seq<Value>, used: seq<int>, next: int)
    requires vs != [] && count == |vs| && AllReturn(vs) && s == EncItems(vs, 0)
    ensures used == Starts(vs) <==> Starts(vs)[|vs| - 1] <= INT_MAX
    ensures used == Starts(vs) ==> out == vs && next == -1
  {
    hide Enc, Stream, Starts, AllReturn;
    out, used, next := [], [], 0;
    ghost var wrong := -1;
    AtFirst(s, vs);
    while next != -1 && |used| < count
      invariant |used| <= count && (wrong < 0 ==> AtValue(s, vs, out, used, next))
      invariant wrong >= 0 ==> wrong < |used| && used[wrong] != Starts(vs)[wrong] && Starts(vs)[count - 1] > INT_MAX
      decreases count - |used|
    {
      if wrong < 0 {
        Rising(vs, |used|, count - 1);
        if next == Starts(vs)[|used|] { AtNext(s, vs, out, used, next); } else { wrong := |used|; }
      }
      var r := UnpackOne(s, next);
      used := used + [next];
      if r == Failed { return; }
      out, next := out + r.vs, r.next;
    }
    if |used| < count { Rising(vs, |used|, count - 1); }
  }

  /** A string of 2^31 bytes and a number behind it: the place of the number is not an int, and the offset
      handed out is refused. */
  method OffsetWraps(z: seq<byte>) returns (s: seq<byte>, next: int, r: Unpacked)
    requires |z| == 0x8000_0000
    ensures s == EncItems([Str(z), Int(1)], 0) && next == 0x8000_0005 - 0x1_0000_0000 && r == Failed
  {
    hide Enc, Stream;
    var vs := [Str(z), Int(1)];
    var ok;
    ok, s := Pack(vs);
    OneMore(vs, 0, s);
    assert vs[0..] == vs && s[0..] == s;
    StrSize(z);
    var first := UnpackOne(s, 0);
    next := first.next;
    r := UnpackOne(s, next);
  }

  lemma StrSize(z: seq<byte>)
    requires 0xffff < |z|
    ensures |Enc(Str(z), 0)| == |z| + 5
  {
  }

  /** The next value at the front, and bytes behind it exactly when more values follow. */
  lemma OneMore(vs: seq<Value>, i: nat, s: seq<byte>)
    requires i < |vs| && AllReturn(vs) && s == EncItems(vs[i..], 0)
    ensures var n := |Enc(vs[i], 0)|;
      && n <= |s| && Stream(s, 1) == Items([vs[i]], n) && s[n..] == EncItems(vs[i + 1..], 0)
      && (n == |s| <==> i + 1 == |vs|)
  {
    hide Dec, Enc, Lua, SizesFit, Within, Stream;
    assert vs[i..][1..] == vs[i + 1..];
    OneStreams(vs[i], EncItems(vs[i + 1..], 0));
    if i + 1 < |vs| {
      OneStreams(vs[i + 1], EncItems(vs[i + 2..], 0));
      assert vs[i + 1..][1..] == vs[i + 2..];
    } else {
      assert vs[i + 1..] == [];
    }
  }
}
