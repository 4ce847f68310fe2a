/**
 The encoder of lua_cjson.c, writing into a string buffer whose sizes are ints.  Its texts are those of
 Json as long as the buffer can hold them; Peak is the most that is ever asked of the buffer.
 */
module JsonIO {
  import opened Common
  import opened Octets
  import opened Json
  import opened Strbuf

  // ----- the room a string takes ----------------------------------------------------------------

  /** One byte or its escape; the byte itself goes in unchecked. */
  function PutByte(r: Room, c: byte): (r': Room)
    requires r.Room? ==> r.size > 0
    ensures r'.Room? ==> r'.size > 0
  {
    if |Escape(c)| > 1 then Checked(r, |Escape(c)|) else Unchecked(r, 1)
  }

  function PutBytes(r: Room, s: seq<byte>): (r': Room)
    requires r.Room? ==> r.size > 0
    ensures r'.Room? ==> r'.size > 0
  {
    if s == [] then r else PutByte(PutBytes(r, s[..|s| - 1]), s[|s| - 1])
  }

  /** json_append_string by sizes: the request for six bytes a byte and the quotes is handed over as an int. */
  function PutQuoted(r: Room, s: seq<byte>): Room
    requires r.Room? ==> r.size > 0
  {
    Unchecked(PutBytes(Unchecked(Ensured(r, AsInt(6 * |s| + 2)), 1), s), 1)
  }

  lemma BytesSnoc(r: Room, s: seq<byte>, i: nat)
    requires (r.Room? ==> r.size > 0) && i < |s|
    ensures PutBytes(r, s[..i + 1]) == PutByte(PutBytes(r, s[..i]), s[i])
  {
    assert s[..i + 1][..i] == s[..i];
  }

  lemma {:induction false} BytesBroken(r: Room, s: seq<byte>, i: nat)
    requires (r.Room? ==> r.size > 0) && i <= |s| && PutBytes(r, s[..i]).Broken?
    ensures PutBytes(r, s).Broken?
    decreases |s|
  {
    hide PutByte;
    if i == |s| {
      assert s[..i] == s;
    } else {
      var n := |s| - 1;
      assert s[..n][..i] == s[..i];
      BytesBroken(r, s[..n], i);
      StaysBroken(s[n]);
    }
  }

  lemma StaysBroken(c: byte)
    ensures PutByte(Broken, c) == Broken
  {
    EscapeSize(c);
    CheckedBroken(Broken, 0, |Escape(c)|);
  }

  /** Whatever the bytes, what is written is their escapes. */
  lemma {:induction false} BytesLength(r: Room, s: seq<byte>)
    requires Sized(r)
    ensures var r' := PutBytes(r, s); r'.Room? ==> Sized(r') && r'.length == r.length + |Escapes(s)|
  {
    hide Doubled, Checked, Escape;
    if s != [] {
      var n := |s| - 1;
      BytesLength(r, s[..n]);
      var p := PutBytes(r, s[..n]);
      if p.Room? { ByteLength(p, s[n]); } else { StaysBroken(s[n]); }
    }
  }

  lemma ByteLength(r: Room, c: byte)
    requires Sized(r)
    ensures var r' := PutByte(r, c); r'.Room? ==> Sized(r') && r'.length == r.length + |Escape(c)|
    ensures r.length + 6 < r.size ==> PutByte(r, c) == Room(r.size, r.length + |Escape(c)|)
  {
    hide Checked, Escape, Doubled;
    EscapeSize(c);
    if |Escape(c)| > 1 { CheckedExact(r, |Escape(c)|); }
  }

  /** With six bytes for each left, the buffer does not move. */
  lemma {:induction false} BytesFit(r: Room, s: seq<byte>)
    requires Sized(r) && r.length + 6 * |s| < r.size
    ensures PutBytes(r, s) == Room(r.size, r.length + |Escapes(s)|) && |Escapes(s)| <= 6 * |s|
  {
    hide Checked, Escape, Doubled, PutByte;
    if s != [] {
      var n := |s| - 1;
      BytesFit(r, s[..n]);
      EscapeSize(s[n]);
      ByteLength(PutBytes(r, s[..n]), s[n]);
    }
  }

  /** A string that is written has all its escapes and both quotes in the buffer. */
  lemma QuotedLength(r: Room, s: seq<byte>)
    requires Sized(r)
    ensures var r' := PutQuoted(r, s); r'.Room? ==> Sized(r') && r'.length == r.length + |Quoted(s)|
  {
    hide Doubled, PutBytes, Escapes;
    var len := AsInt(6 * |s| + 2);
    if len >= 0 { EnsuredExact(r, len); } else { EnoughLeft(r, len); }
    var r1 := Unchecked(Ensured(r, len), 1);
    if r1.Room? { BytesLength(r1, s); } else { BytesOfBroken(s); }
  }

  lemma BytesOfBroken(s: seq<byte>)
    ensures PutBytes(Broken, s) == Broken
  {
    assert s[..0] == [];
    BytesBroken(Broken, s, 0);
  }

  /** Room for the worst case is made, and everything goes into it. */
  lemma QuotedSafe(r: Room, s: seq<byte>)
    requires Sized(r) && r.length + 6 * |s| + 2 < LARGEST
    ensures PutQuoted(r, s).Room?
  {
    hide Doubled, PutBytes, Escapes, Ensured;
    EnsuredExact(r, 6 * |s| + 2);
    BytesFit(Unchecked(Ensured(r, 6 * |s| + 2), 1), s);
  }

  /** As long as the request is an int, the string goes in exactly when its worst case does. */
  lemma QuotedExact(r: Room, s: seq<byte>)
    requires Sized(r) && 6 * |s| + 2 <= INT_MAX
    ensures PutQuoted(r, s).Room? <==> r.length + 6 * |s| + 2 < LARGEST
  {
    hide Doubled, PutBytes, Ensured;
    EnsuredExact(r, 6 * |s| + 2);
    if r.length + 6 * |s| + 2 < LARGEST { QuotedSafe(r, s); } else { BytesOfBroken(s); }
  }

  lemma {:induction false} AllEscaped(n: nat)
    ensures |Escapes(seq(n, _ => 0))| == 6 * n
  {
    if n > 0 {
      assert seq(n, _ => 0)[..n - 1] == seq(n - 1, _ => 0);
      AllEscaped(n - 1);
    }
  }

  /** For which lengths every string can be written: exactly those whose worst case fits the largest buffer. */
  lemma EveryString(r: Room, n: nat)
    requires Sized(r)
    ensures (forall s: seq<byte> :: |s| == n ==> PutQuoted(r, s).Room?) <==> r.length + 6 * n + 2 < LARGEST
  {
    hide PutQuoted, Escapes, Doubled;
    if r.length + 6 * n + 2 < LARGEST {
      forall s: seq<byte> | |s| == n ensures PutQuoted(r, s).Room? { QuotedSafe(r, s); }
    } else {
      var s: seq<byte> := seq(n, _ => 0);
      AllEscaped(n);
      QuotedLength(r, s);
      if 6 * n + 2 <= INT_MAX { QuotedExact(r, s); }
      assert !PutQuoted(r, s).Room?;
    }
  }

  lemma {:induction false} PlainBytes(r: Room, s: seq<byte>)
    requires r.Room? && r.size > 0 && forall i :: 0 <= i < |s| ==> s[i] == 97
    ensures PutBytes(r, s) == Unchecked(r, |s|) || |s| == 0
  {
    if |s| > 1 { PlainBytes(r, s[..|s| - 1]); }
  }

  /** 357,913,941 plain bytes: the request has become negative, no room is made, and the first 1,022 of them
      fill a new buffer. */
  lemma RequestWraps(s: seq<byte>)
    requires |s| == 357_913_941 && forall i :: 0 <= i < |s| ==> s[i] == 97
    ensures AsInt(6 * |s| + 2) == -0x8000_0000
    ensures PutQuoted(Room(DEFAULT_SIZE, 0), s).Broken?
    ensures PutBytes(Room(DEFAULT_SIZE, 1), s[..1022]) == Room(DEFAULT_SIZE, DEFAULT_SIZE)
  {
    hide PutBytes;
    var r := Room(DEFAULT_SIZE, 0);
    EnoughLeft(r, AsInt(6 * |s| + 2));
    PlainBytes(Room(DEFAULT_SIZE, 1), s);
    PlainBytes(Room(DEFAULT_SIZE, 1), s[..1022]);
  }

  // ----- encoding --------------------------------------------------------------------------------

  /** json_append_string: what becomes of the buffer is PutQuoted, and the contents are right. */
  method AppendQuoted(b: StrBuf, s: seq<byte>) returns (ok: bool)
    requires b.Valid()
    modifies b, b.buf
    ensures b.Valid() && (b.buf == old(b.buf) || fresh(b.buf))
    ensures ok <==> PutQuoted(old(b.Shape()), s).Room?
    ensures ok ==> b.Shape() == PutQuoted(old(b.Shape()), s) && b.Contents() == old(b.Contents()) + Quoted(s)
  {
    hide Escapes, Ensured, PutBytes;
    ghost var c0 := b.Contents();
    BytesOfBroken(s);
    ok := b.EnsureEmpty(AsInt(6 * |s| + 2));
    if ok { ok := b.AppendCharUnsafe(QUOTE); }
    if ok { ok := AppendBytes(b, s); }
    if ok { ok := b.AppendCharUnsafe(QUOTE); }
    QuotedParts(c0, s);
  }

  lemma QuotedParts(c: seq<byte>, s: seq<byte>)
    ensures c + [QUOTE] + Escapes(s) + [QUOTE] == c + Quoted(s)
  {
  }

  method AppendBytes(b: StrBuf, s: seq<byte>) returns (ok: bool)
    requires b.Valid()
    modifies b, b.buf
    ensures b.Valid() && (b.buf == old(b.buf) || fresh(b.buf))
    ensures ok <==> PutBytes(old(b.Shape()), s).Room?
    ensures ok ==> b.Shape() == PutBytes(old(b.Shape()), s) && b.Contents() == old(b.Contents()) + Escapes(s)
  {
    hide Escape, Escapes, PutBytes, PutByte;
    ghost var c0, r := b.Contents(), b.Shape();
    NoEscapes(c0);
    NoBytes(r, s);
    for i := 0 to |s|
      invariant b.Valid() && (b.buf == old(b.buf) || fresh(b.buf))
      invariant b.Shape() == PutBytes(r, s[..i]) && b.Contents() == c0 + Escapes(s[..i])
    {
      BytesSnoc(r, s, i);
      EscapesSnoc(s, i);
      ok := AppendEscaped(b, s[i]);
      if !ok {
        BytesBroken(r, s, i + 1);
        return;
      }
      Join(c0, Escapes(s[..i]), Escape(s[i]));
    }
    assert s[..|s|] == s;
    return true;
  }

  lemma Join(a: seq<byte>, x: seq<byte>, y: seq<byte>)
    ensures (a + x) + y == a + (x + y)
  {
  }

  lemma NoBytes(r: Room, s: seq<byte>)
    requires r.Room? ==> r.size > 0
    ensures PutBytes(r, s[..0]) == r && s[..0] == []
  {
  }

  method AppendEscaped(b: StrBuf, c: byte) returns (ok: bool)
    requires b.Valid()
    modifies b, b.buf
    ensures b.Valid() && (b.buf == old(b.buf) || fresh(b.buf))
    ensures ok <==> PutByte(old(b.Shape()), c).Room?
    ensures ok ==> b.Shape() == PutByte(old(b.Shape()), c) && b.Contents() == old(b.Contents()) + Escape(c)
  {
    hide Escape, Checked;
    EscapeSize(c);
    var e := Escape(c);
    if |e| > 1 { ok := b.AppendString(e); } else { ok := b.AppendCharUnsafe(c); }
  }

  lemma NoEscapes(c: seq<byte>)
    ensures c == c + Escapes([])
  {
  }

  lemma EscapesSnoc(s: seq<byte>, i: nat)
    requires i < |s|
    ensures Escapes(s[..i + 1]) == Escapes(s[..i]) + Escape(s[i])
  {
    assert s[..i + 1][..i] == s[..i];
  }

  lemma EscapeSize(c: byte)
    ensures 1 <= |Escape(c)| <= 6 && (|Escape(c)| == 1 ==> Escape(c) == [c])
  {
  }

  lemma NumberSize(n: int)
    requires -LIMIT < n < LIMIT
    ensures |NumberText(n)| <= 15
  {
    TenLimit();
    DigitsShape(if n < 0 then -n else n, 14);
  }

  lemma {:induction false} ItemsSnoc(vs: seq<Value>, j: nat)
    requires j < |vs|
    ensures Items(vs[..j + 1]) == Items(vs[..j]) + Comma(j) + Text(vs[j])
    decreases |vs|
  {
    hide Text;
    var a := vs[..j + 1];
    if j == 0 {
      assert vs[..0] == [] && a[1..] == [];
    } else {
      ItemsSnoc(vs[1..], j - 1);
      assert a[1..] == vs[1..][..j] && vs[..j][1..] == vs[1..][..j - 1];
    }
  }

  lemma {:induction false} MembersSnoc(ps: seq<Pair>, j: nat)
    requires j < |ps|
    ensures Members(ps[..j + 1]) == Members(ps[..j]) + Comma(j) + Member(ps[j])
    decreases |ps|
  {
    hide Member;
    var a := ps[..j + 1];
    if j == 0 {
      assert ps[..0] == [] && a[1..] == [];
    } else {
      MembersSnoc(ps[1..], j - 1);
      assert a[1..] == ps[1..][..j] && ps[..j][1..] == ps[1..][..j - 1];
    }
  }

  lemma {:induction false} DepthSnoc(vs: seq<Value>, j: nat)
    requires j < |vs|
    ensures DepthItems(vs[..j + 1]) == Max(DepthItems(vs[..j]), Depth(vs[j]))
    ensures DepthItems(vs) >= Depth(vs[j])
    decreases |vs|
  {
    hide Depth;
    var a := vs[..j + 1];
    if j == 0 {
      assert vs[..0] == [] && a[1..] == [];
    } else {
      DepthSnoc(vs[1..], j - 1);
      assert a[1..] == vs[1..][..j] && vs[..j][1..] == vs[1..][..j - 1];
    }
  }

  lemma {:induction false} DepthPairSnoc(ps: seq<Pair>, j: nat)
    requires j < |ps|
    ensures DepthPairs(ps[..j + 1]) == Max(DepthPairs(ps[..j]), DepthPair(ps[j]))
    ensures DepthPairs(ps) >= DepthPair(ps[j])
    decreases |ps|
  {
    hide DepthPair;
    var a := ps[..j + 1];
    if j == 0 {
      assert ps[..0] == [] && a[1..] == [];
    } else {
      DepthPairSnoc(ps[1..], j - 1);
      assert a[1..] == ps[1..][..j] && ps[..j][1..] == ps[1..][..j - 1];
    }
  }

  // ----- what a value asks of the buffer -----------------------------------------------------------

  /** The greatest sum of length and request while v is written from position at on. */
  ghost function Peak(v: Value, at: nat): (r: nat)
    ensures r >= at
    decreases v, 0
  {
    match v
    case Null => at + 4
    case Bool(b) => at + if b then 4 else 5
    case Num(_) => at + NUMBER_ROOM
    case Str(s) => at + 6 * |s| + 2
    case Arr(items) => Max(PeakItems(items, at + 1), at + |Text(v)|)
    case Obj(ps) => Max(PeakMembers(ps, at + 1), at + |Text(v)|)
  }

  const NUMBER_ROOM: nat := 32

  ghost function PeakItems(vs: seq<Value>, at: nat): (r: nat)
    ensures r >= at
    decreases vs, |vs|
  {
    if vs == [] then at else
      var n := |vs| - 1;
      Max(PeakItems(vs[..n], at), Peak(vs[n], at + |Items(vs[..n])| + if n == 0 then 0 else 1))
  }

  ghost function PeakMember(p: Pair, at: nat): (r: nat)
    ensures r >= at
    decreases p, 0
  {
    Max(at + 6 * |p.key| + 2, Peak(p.val, at + |Quoted(p.key)| + 1))
  }

  ghost function PeakMembers(ps: seq<Pair>, at: nat): (r: nat)
    ensures r >= at
    decreases ps, |ps|
  {
    if ps == [] then at else
      var n := |ps| - 1;
      Max(PeakMembers(ps[..n], at), PeakMember(ps[n], at + |Members(ps[..n])| + if n == 0 then 0 else 1))
  }

  /** Every string is short enough for its request to be an int: at most 357,913,940 bytes. */
  ghost predicate Short(v: Value) {
    match v
    case Str(s) => 6 * |s| + 2 <= INT_MAX
    case Arr(items) => forall i :: 0 <= i < |items| ==> Short(items[i])
    case Obj(ps) => forall i :: 0 <= i < |ps| ==> ShortPair(ps[i])
    case _ => true
  }

  ghost predicate ShortPair(p: Pair) {
    6 * |p.key| + 2 <= INT_MAX && Short(p.val)
  }

  ghost function Comma(i: nat): seq<byte> {
    if i == 0 then [] else [COMMA]
  }

  lemma {:induction false} PeakItem(vs: seq<Value>, at: nat, i: nat)
    requires i < |vs|
    ensures PeakItems(vs[..i + 1], at) == Max(PeakItems(vs[..i], at), Peak(vs[i], at + |Items(vs[..i])| + |Comma(i)|))
    ensures PeakItems(vs, at) >= Peak(vs[i], at + |Items(vs[..i])| + |Comma(i)|)
    decreases |vs|
  {
    hide Peak, Items;
    assert vs[..i + 1][..i] == vs[..i];
    var n := |vs| - 1;
    if i < n {
      assert vs[..n][..i] == vs[..i];
      PeakItem(vs[..n], at, i);
    }
  }

  lemma {:induction false} PeakPair(ps: seq<Pair>, at: nat, i: nat)
    requires i < |ps|
    ensures PeakMembers(ps[..i + 1], at) ==
      Max(PeakMembers(ps[..i], at), PeakMember(ps[i], at + |Members(ps[..i])| + |Comma(i)|))
    ensures PeakMembers(ps, at) >= PeakMember(ps[i], at + |Members(ps[..i])| + |Comma(i)|)
    decreases |ps|
  {
    hide PeakMember, Members;
    assert ps[..i + 1][..i] == ps[..i];
    var n := |ps| - 1;
    if i < n {
      assert ps[..n][..i] == ps[..i];
      PeakPair(ps[..n], at, i);
    }
  }

  /** What became of a value: its text, an error for its depth, or the end of what the code defines. */
  datatype Outcome = Wrote | Nested | Overrun

  /** strbuf_append_mem goes through exactly when what it writes stays below the largest size. */
  method Append(b: StrBuf, s: seq<byte>) returns (ok: bool)
    requires b.Valid() && Sized(b.Shape())
    modifies b, b.buf
    ensures b.Valid() && (b.buf == old(b.buf) || fresh(b.buf))
    ensures ok <==> old(b.length) + |s| < LARGEST
    ensures ok ==> Sized(b.Shape()) && b.Contents() == old(b.Contents()) + s
  {
    hide Ensured, Doubled;
    EnsuredExact(b.Shape(), |s|);
    ok := b.AppendMem(s);
  }

  method AppendNumber(b: StrBuf, n: int) returns (ok: bool)
    requires b.Valid() && Sized(b.Shape()) && -LIMIT < n < LIMIT
    modifies b, b.buf
    ensures b.Valid() && (b.buf == old(b.buf) || fresh(b.buf))
    ensures ok <==> old(b.length) + NUMBER_ROOM < LARGEST
    ensures ok ==> Sized(b.Shape()) && b.Contents() == old(b.Contents()) + NumberText(n)
  {
    hide Ensured, Doubled, NumberText;
    NumberSize(n);
    EnsuredExact(b.Shape(), NUMBER_ROOM);
    ok := b.EnsureEmpty(NUMBER_ROOM);
    if ok { ok := b.AppendMemUnsafe(NumberText(n)); }
  }

  method AppendText(b: StrBuf, s: seq<byte>) returns (ok: bool)
    requires b.Valid() && Sized(b.Shape())
    modifies b, b.buf
    ensures b.Valid() && (b.buf == old(b.buf) || fresh(b.buf))
    ensures old(b.length) + 6 * |s| + 2 < LARGEST ==> ok
    ensures ok && 6 * |s| + 2 <= INT_MAX ==> old(b.length) + 6 * |s| + 2 < LARGEST
    ensures ok ==> Sized(b.Shape()) && b.Contents() == old(b.Contents()) + Quoted(s)
  {
    hide PutQuoted, Doubled, Quoted;
    ghost var r := b.Shape();
    QuotedLength(r, s);
    if 6 * |s| + 2 <= INT_MAX { QuotedExact(r, s); }
    ok := AppendQuoted(b, s);
  }

  /** json_append_data: an error exactly when tables are nested beyond the limit, as long as the buffer can
      hold what is asked of it; for short strings, exactly that long. */
  method AppendData(b: StrBuf, v: Value, depth: nat, max: nat) returns (o: Outcome)
    requires b.Valid() && Sized(b.Shape()) && Plain(v) && depth <= max
    modifies b, b.buf
    ensures b.Valid() && (b.buf == old(b.buf) || fresh(b.buf)) && (o != Overrun ==> Sized(b.Shape()))
    ensures o == Wrote ==> Depth(v) + depth <= max && b.Contents() == old(b.Contents()) + Text(v)
    ensures o == Nested ==> Depth(v) + depth > max
    ensures Peak(v, old(b.length)) < LARGEST ==> o != Overrun
    ensures o == Wrote && Short(v) ==> Peak(v, old(b.length)) < LARGEST
    decreases v, 0
  {
    hide Quoted, NumberText, Items, Members, DepthItems, DepthPairs, PeakItems, PeakMembers, Sized;
    var ok;
    match v {
      case Null => ok := Append(b, NULL);
      case Bool(x) => ok := Append(b, if x then TRUE else FALSE);
      case Num(n) => ok := AppendNumber(b, n);
      case Str(s) => ok := AppendText(b, s);
      case Arr(items) =>
        if depth + 1 > max { return Nested; }
        o := AppendArray(b, items, depth + 1, max);
        return;
      case Obj(ps) =>
        if depth + 1 > max { return Nested; }
        o := AppendObject(b, ps, depth + 1, max);
        return;
    }
    return if ok then Wrote else Overrun;
  }

  method AppendArray(b: StrBuf, items: seq<Value>, depth: nat, max: nat) returns (o: Outcome)
    requires b.Valid() && Sized(b.Shape()) && depth <= max && forall i :: 0 <= i < |items| ==> Plain(items[i])
    modifies b, b.buf
    ensures b.Valid() && (b.buf == old(b.buf) || fresh(b.buf)) && (o != Overrun ==> Sized(b.Shape()))
    ensures o == Wrote ==>
      DepthItems(items) + depth <= max && b.Contents() == old(b.Contents()) + ([OPEN] + Items(items) + [CLOSE])
    ensures o == Nested ==> DepthItems(items) + depth > max
    ensures Max(PeakItems(items, old(b.length) + 1), old(b.length) + |Items(items)| + 2) < LARGEST ==> o != Overrun
    ensures o == Wrote && (forall i :: 0 <= i < |items| ==> Short(items[i])) ==>
      Max(PeakItems(items, old(b.length) + 1), old(b.length) + |Items(items)| + 2) < LARGEST
    decreases items, |items| + 2
  {
    hide Items, DepthItems, Plain, PeakItems, Short, Sized;
    ghost var c0 := b.Contents();
    var ok := Append(b, [OPEN]);
    if !ok { return Overrun; }
    o := AppendItems(b, items, depth, max);
    if o != Wrote { return; }
    Glue(c0, [OPEN], Items(items), [CLOSE]);
    assert b.length == |c0| + 1 + |Items(items)|;
    ok := Append(b, [CLOSE]);
    return if ok then Wrote else Overrun;
  }

  method AppendItems(b: StrBuf, items: seq<Value>, depth: nat, max: nat) returns (o: Outcome)
    requires b.Valid() && Sized(b.Shape()) && depth <= max && forall i :: 0 <= i < |items| ==> Plain(items[i])
    modifies b, b.buf
    ensures b.Valid() && (b.buf == old(b.buf) || fresh(b.buf)) && (o != Overrun ==> Sized(b.Shape()))
    ensures o == Wrote ==> DepthItems(items) + depth <= max && b.Contents() == old(b.Contents()) + Items(items)
    ensures o == Nested ==> DepthItems(items) + depth > max
    ensures PeakItems(items, old(b.length)) < LARGEST ==> o != Overrun
    ensures o == Wrote && (forall i :: 0 <= i < |items| ==> Short(items[i])) && old(b.length) < LARGEST ==>
      PeakItems(items, old(b.length)) < LARGEST
    decreases items, |items| + 1
  {
    hide Text, Items, DepthItems, Depth, Plain, Peak, PeakItems, Short, Sized, Comma;
    ghost var c0, at := b.Contents(), b.length;
    NoItems(items, c0, at);
    for i := 0 to |items|
      invariant b.Valid() && (b.buf == old(b.buf) || fresh(b.buf)) && Sized(b.Shape())
      invariant DepthItems(items[..i]) + depth <= max
      invariant b.Contents() == c0 + Items(items[..i])
      invariant (forall k :: 0 <= k < |items| ==> Short(items[k])) && at < LARGEST ==>
        PeakItems(items[..i], at) < LARGEST
    {
      DepthSnoc(items, i);
      ItemsSnoc(items, i);
      PeakItem(items, at, i);
      assert b.length == at + |Items(items[..i])|;
      o := AppendItem(b, i, items[i], depth, max);
      if o != Wrote { return; }
      Glue(c0, Items(items[..i]), Comma(i), Text(items[i]));
    }
    assert items[..|items|] == items;
    return Wrote;
  }

  /** An element and the comma before it. */
  method AppendItem(b: StrBuf, i: nat, v: Value, depth: nat, max: nat) returns (o: Outcome)
    requires b.Valid() && Sized(b.Shape()) && Plain(v) && depth <= max
    modifies b, b.buf
    ensures b.Valid() && (b.buf == old(b.buf) || fresh(b.buf)) && (o != Overrun ==> Sized(b.Shape()))
    ensures o == Wrote ==> Depth(v) + depth <= max && b.Contents() == old(b.Contents()) + Comma(i) + Text(v)
    ensures o == Nested ==> Depth(v) + depth > max
    ensures Peak(v, old(b.length) + |Comma(i)|) < LARGEST ==> o != Overrun
    ensures o == Wrote && Short(v) ==> Peak(v, old(b.length) + |Comma(i)|) < LARGEST
    decreases v, 1
  {
    hide Text, Depth, Plain, Peak, Short, Sized, Comma;
    var ok := AppendComma(b, i);
    if !ok { return Overrun; }
    assert b.length == old(b.length) + |Comma(i)|;
    o := AppendData(b, v, depth, max);
  }

  method AppendComma(b: StrBuf, i: nat) returns (ok: bool)
    requires b.Valid() && Sized(b.Shape())
    modifies b, b.buf
    ensures b.Valid() && (b.buf == old(b.buf) || fresh(b.buf))
    ensures old(b.length) + |Comma(i)| < LARGEST ==> ok
    ensures ok ==> Sized(b.Shape()) && b.Contents() == old(b.Contents()) + Comma(i)
  {
    hide Doubled;
    if i == 0 {
      assert b.Contents() + [] == b.Contents();
      return true;
    }
    ok := Append(b, [COMMA]);
  }

  lemma NoItems(vs: seq<Value>, c: seq<byte>, at: nat)
    ensures c == c + Items(vs[..0]) && DepthItems(vs[..0]) == 0 && PeakItems(vs[..0], at) == at
  {
  }

  lemma NoMembers(ps: seq<Pair>, c: seq<byte>, at: nat)
    ensures c == c + Members(ps[..0]) && DepthPairs(ps[..0]) == 0 && PeakMembers(ps[..0], at) == at
  {
  }

  lemma Glue(a: seq<byte>, x: seq<byte>, y: seq<byte>, z: seq<byte>)
    ensures (a + x) + y + z == a + (x + y + z)
  {
  }

  method AppendObject(b: StrBuf, ps: seq<Pair>, depth: nat, max: nat) returns (o: Outcome)
    requires b.Valid() && Sized(b.Shape()) && depth <= max && forall i :: 0 <= i < |ps| ==> PlainPair(ps[i])
    modifies b, b.buf
    ensures b.Valid() && (b.buf == old(b.buf) || fresh(b.buf)) && (o != Overrun ==> Sized(b.Shape()))
    ensures o == Wrote ==>
      DepthPairs(ps) + depth <= max && b.Contents() == old(b.Contents()) + ([BEGIN] + Members(ps) + [END])
    ensures o == Nested ==> DepthPairs(ps) + depth > max
    ensures Max(PeakMembers(ps, old(b.length) + 1), old(b.length) + |Members(ps)| + 2) < LARGEST ==> o != Overrun
    ensures o == Wrote && (forall i :: 0 <= i < |ps| ==> ShortPair(ps[i])) ==>
      Max(PeakMembers(ps, old(b.length) + 1), old(b.length) + |Members(ps)| + 2) < LARGEST
    decreases ps, |ps| + 2
  {
    hide Members, DepthPairs, PlainPair, PeakMembers, ShortPair, Sized;
    ghost var c0 := b.Contents();
    var ok := Append(b, [BEGIN]);
    if !ok { return Overrun; }
    o := AppendMembers(b, ps, depth, max);
    if o != Wrote { return; }
    Glue(c0, [BEGIN], Members(ps), [END]);
    assert b.length == |c0| + 1 + |Members(ps)|;
    ok := Append(b, [END]);
    return if ok then Wrote else Overrun;
  }

  method AppendMembers(b: StrBuf, ps: seq<Pair>, depth: nat, max: nat) returns (o: Outcome)
    requires b.Valid() && Sized(b.Shape()) && depth <= max && forall i :: 0 <= i < |ps| ==> PlainPair(ps[i])
    modifies b, b.buf
    ensures b.Valid() && (b.buf == old(b.buf) || fresh(b.buf)) && (o != Overrun ==> Sized(b.Shape()))
    ensures o == Wrote ==> DepthPairs(ps) + depth <= max && b.Contents() == old(b.Contents()) + Members(ps)
    ensures o == Nested ==> DepthPairs(ps) + depth > max
    ensures PeakMembers(ps, old(b.length)) < LARGEST ==> o != Overrun
    ensures o == Wrote && (forall i :: 0 <= i < |ps| ==> ShortPair(ps[i])) && old(b.length) < LARGEST ==>
      PeakMembers(ps, old(b.length)) < LARGEST
    decreases ps, |ps| + 1
  {
    hide Member, Members, DepthPairs, DepthPair, PlainPair, PeakMember, PeakMembers, ShortPair, Sized, Comma;
    ghost var c0, at := b.Contents(), b.length;
    NoMembers(ps, c0, at);
    for i := 0 to |ps|
      invariant b.Valid() && (b.buf == old(b.buf) || fresh(b.buf)) && Sized(b.Shape())
      invariant DepthPairs(ps[..i]) + depth <= max
      invariant b.Contents() == c0 + Members(ps[..i])
      invariant (forall k :: 0 <= k < |ps| ==> ShortPair(ps[k])) && at < LARGEST ==> PeakMembers(ps[..i], at) < LARGEST
    {
      DepthPairSnoc(ps, i);
      MembersSnoc(ps, i);
      PeakPair(ps, at, i);
      assert b.length == at + |Members(ps[..i])|;
      o := AppendMember(b, i, ps[i], depth, max);
      if o != Wrote { return; }
      Glue(c0, Members(ps[..i]), Comma(i), Member(ps[i]));
    }
    assert ps[..|ps|] == ps;
    return Wrote;
  }

  /** A member and the comma before it. */
  method AppendMember(b: StrBuf, i: nat, p: Pair, depth: nat, max: nat) returns (o: Outcome)
    requires b.Valid() && Sized(b.Shape()) && depth <= max && PlainPair(p)
    modifies b, b.buf
    ensures b.Valid() && (b.buf == old(b.buf) || fresh(b.buf)) && (o != Overrun ==> Sized(b.Shape()))
    ensures o == Wrote ==> DepthPair(p) + depth <= max && b.Contents() == old(b.Contents()) + Comma(i) + Member(p)
    ensures o == Nested ==> DepthPair(p) + depth > max
    ensures PeakMember(p, old(b.length) + |Comma(i)|) < LARGEST ==> o != Overrun
    ensures o == Wrote && ShortPair(p) ==> PeakMember(p, old(b.length) + |Comma(i)|) < LARGEST
    decreases p, 0
  {
    hide Quoted, Text, Peak, Short, Sized, Comma;
    ghost var c0, at := b.Contents(), b.length + |Comma(i)|;
    var ok := AppendComma(b, i);
    if ok {
      assert b.length == at;
      ok := AppendText(b, p.key);
    }
    if ok {
      assert b.length == at + |Quoted(p.key)|;
      ok := Append(b, [COLON]);
    }
    if !ok { return Overrun; }
    Glue(c0 + Comma(i), Quoted(p.key), [COLON], Text(p.val));
    o := AppendData(b, p.val, depth, max);
  }

  /** json_encode. */
  method Encode(v: Value, max: nat) returns (o: Outcome, s: seq<byte>)
    requires Plain(v)
    ensures Peak(v, 0) < LARGEST ==> o == if Depth(v) <= max then Wrote else Nested
    ensures o == Wrote && Short(v) ==> Peak(v, 0) < LARGEST
    ensures o == Wrote ==> s == Text(v) && |s| <= LARGEST && Depth(v) <= max
    ensures o == Nested ==> Depth(v) > max
  {
    hide Plain, Peak, Depth;
    var b := new StrBuf(0);
    FirstDoubled();
    o := AppendData(b, v, 0, max);
    s := b.buf[..b.length];
  }
}
