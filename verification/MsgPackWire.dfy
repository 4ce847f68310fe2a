/**
 The MessagePack format itself, as its specification lays it down, independently of how it is written and read here.
 What is packed is in the format, in its shortest form; what is in the format, in any of its forms, is unpacked to
 the value it stands for; and what can be unpacked is in the format.
 */
module MsgPackWire {
  import opened Octets
  import opened MsgPack

  /** What the first bytes of a value can say. */
  datatype Form =
    | FNil | FFalse | FTrue | FInt(n: int) | FSingle(bits: seq<byte>) | FDouble(bits: seq<byte>)
    | FRaw(len: nat) | FArray(len: nat) | FMap(len: nat)

  // ----- numbers, most significant byte first -----------------------------------------------------------

  function Two(s: seq<byte>, i: nat): nat
    requires i + 2 <= |s|
  {
    var a: nat, b: nat := s[i], s[i + 1];
    0x100 * a + b
  }

  function Four(s: seq<byte>, i: nat): nat
    requires i + 4 <= |s|
  {
    var a: nat, b: nat, c: nat, d: nat := s[i], s[i + 1], s[i + 2], s[i + 3];
    0x100_0000 * a + 0x1_0000 * b + 0x100 * c + d
  }

  function Eight(s: seq<byte>, i: nat): nat
    requires i + 8 <= |s|
  {
    0x1_0000_0000 * Four(s, i) + Four(s, i + 4)
  }

  /** Two's complement. */
  function Complement(u: nat, half: nat): int {
    if u < half then u else u - 2 * half
  }

  // ----- the forms --------------------------------------------------------------------------------------

  ghost predicate IntForm(s: seq<byte>, n: int) {
    || (|s| == 1 && (if s[0] <= 0x7f then n == s[0] else 0xe0 <= s[0] && n + 0x100 == s[0]))
    || (|s| == 2 && s[0] == 0xcc && n == s[1])
    || (|s| == 3 && s[0] == 0xcd && n == Two(s, 1))
    || (|s| == 5 && s[0] == 0xce && n == Four(s, 1))
    || (|s| == 9 && s[0] == 0xcf && n == Eight(s, 1))
    || (|s| == 2 && s[0] == 0xd0 && n == Complement(s[1], 0x80))
    || (|s| == 3 && s[0] == 0xd1 && n == Complement(Two(s, 1), 0x8000))
    || (|s| == 5 && s[0] == 0xd2 && n == Complement(Four(s, 1), 0x8000_0000))
    || (|s| == 9 && s[0] == 0xd3 && n == Complement(Eight(s, 1), 0x8000_0000_0000_0000))
  }

  /** A length: in the low bits of the first byte, in two bytes, or in four. */
  ghost predicate LengthForm(s: seq<byte>, n: nat, fix: byte, limit: nat, tag16: byte, tag32: byte) {
    || (|s| == 1 && fix <= s[0] < fix + limit && n == s[0] - fix)
    || (|s| == 3 && s[0] == tag16 && n == Two(s, 1))
    || (|s| == 5 && s[0] == tag32 && n == Four(s, 1))
  }

  ghost predicate Spells(s: seq<byte>, f: Form) {
    match f
    case FNil => s == [0xc0]
    case FFalse => s == [0xc2]
    case FTrue => s == [0xc3]
    case FInt(n) => IntForm(s, n)
    case FSingle(bits) => |bits| == 4 && s == [0xca] + bits
    case FDouble(bits) => |bits| == 8 && s == [0xcb] + bits
    case FRaw(n) => LengthForm(s, n, 0xa0, 32, 0xda, 0xdb)
    case FArray(n) => LengthForm(s, n, 0x90, 16, 0xdc, 0xdd)
    case FMap(n) => LengthForm(s, n, 0x80, 16, 0xde, 0xdf)
  }

  /** First bytes that the format has no use for, or that came later than this code. */
  predicate Unassigned(b: byte) {
    b == 0xc1 || 0xc4 <= b <= 0xc9 || 0xd4 <= b <= 0xd9
  }

  // ----- the decoder reads exactly these ------------------------------------------------------------------

  ghost function FrontOf(f: Form, n: nat): Front {
    match f
    case FNil => Scalar(Nil, n)
    case FFalse => Scalar(Bool(false), n)
    case FTrue => Scalar(Bool(true), n)
    case FInt(i) => Scalar(Int(i), n)
    case FSingle(bits) => Scalar(Single(bits), n)
    case FDouble(bits) => Scalar(Double(bits), n)
    case FRaw(l) => Sized(Raw, n, l)
    case FArray(l) => Sized(List, n, l)
    case FMap(l) => Sized(Hash, n, l)
  }

  lemma NumberIs(s: seq<byte>)
    ensures |s| == 1 ==> Number(s) == s[0]
    ensures |s| == 2 ==> Number(s) == Two(s, 0)
    ensures |s| == 4 ==> Number(s) == Four(s, 0)
    ensures |s| == 8 ==> Number(s) == Eight(s, 0)
  {
    if |s| == 1 { assert s[..0] == []; }
    if |s| == 2 { NumberOne(s[..1]); }
    if |s| == 4 { NumberFour(s); }
    if |s| == 8 {
      NumberFour(s[..4]);
      var a, b, c := s[..7], s[..6], s[..5];
      assert Number(s) == 0x100 * Number(a) + s[7];
      assert a[..6] == b && Number(a) == 0x100 * Number(b) + s[6];
      assert b[..5] == c && Number(b) == 0x100 * Number(c) + s[5];
      assert c[..4] == s[..4] && Number(c) == 0x100 * Number(s[..4]) + s[4];
    }
  }

  lemma NumberOne(s: seq<byte>)
    requires |s| == 1
    ensures Number(s) == s[0]
  {
    assert s[..0] == [];
  }

  lemma NumberFour(s: seq<byte>)
    requires |s| == 4
    ensures Number(s) == Four(s, 0)
  {
    var a, b, c := s[..3], s[..2], s[..1];
    assert Number(s) == 0x100 * Number(a) + s[3];
    assert a[..2] == b && Number(a) == 0x100 * Number(b) + s[2];
    assert b[..1] == c && Number(b) == 0x100 * Number(c) + s[1];
    NumberOne(c);
  }

  /** A number or a length behind its first byte. */
  lemma BehindTag(s: seq<byte>, w: nat, rest: seq<byte>, half: nat, k: Kind)
    requires |s| == 1 + w
    ensures Unsigned(s + rest, w) == Scalar(Int(Number(s[1..])), 1 + w)
    ensures MsgPack.Signed(s + rest, w, half) == Scalar(Int(Complement(Number(s[1..]), half)), 1 + w)
    ensures Length(s + rest, k, w) == Sized(k, 1 + w, Number(s[1..]))
  {
    assert (s + rest)[1..1 + w] == s[1..];
  }

  lemma IntRead(s: seq<byte>, n: int, rest: seq<byte>)
    requires IntForm(s, n)
    ensures Open(s + rest) == Scalar(Int(n), |s|)
  {
    hide Number, Unsigned, MsgPack.Signed, Length, Two, Four, Eight;
    var t := s + rest;
    assert t[0] == s[0];
    if |s| > 1 {
      NumberIs(s[1..]);
      PlacesBehind(s);
      BehindTag(s, |s| - 1, rest, if |s| == 2 then 0x80 else if |s| == 3 then 0x8000 else if |s| == 5 then 0x8000_0000
                                  else 0x8000_0000_0000_0000, Raw);
    }
  }

  lemma PlacesBehind(s: seq<byte>)
    ensures |s| == 3 ==> Two(s[1..], 0) == Two(s, 1)
    ensures |s| == 5 ==> Four(s[1..], 0) == Four(s, 1)
    ensures |s| == 9 ==> Eight(s[1..], 0) == Eight(s, 1)
  {
  }

  lemma LengthRead(s: seq<byte>, k: Kind, n: nat, rest: seq<byte>)
    requires match k
      case Raw => Spells(s, FRaw(n))
      case List => Spells(s, FArray(n))
      case Hash => Spells(s, FMap(n))
    ensures Open(s + rest) == Sized(k, |s|, n)
  {
    hide Number, Unsigned, MsgPack.Signed, Length, Two, Four;
    var t := s + rest;
    assert t[0] == s[0];
    if |s| > 1 {
      NumberIs(s[1..]);
      PlacesBehind(s);
      BehindTag(s, |s| - 1, rest, 0, k);
    }
  }

  lemma FloatRead(s: seq<byte>, bits: seq<byte>, rest: seq<byte>)
    ensures Spells(s, FSingle(bits)) ==> Open(s + rest) == Scalar(Single(bits), |s|)
    ensures Spells(s, FDouble(bits)) ==> Open(s + rest) == Scalar(Double(bits), |s|)
  {
    BitsOpen(bits, rest);
  }

  /** Each form, with whatever follows it, is read as what it says. */
  lemma FormRead(s: seq<byte>, f: Form, rest: seq<byte>)
    requires Spells(s, f)
    ensures Open(s + rest) == FrontOf(f, |s|)
  {
    hide Open, IntForm, LengthForm;
    match f
    case FInt(n) => IntRead(s, n, rest);
    case FSingle(bits) => FloatRead(s, bits, rest);
    case FDouble(bits) => FloatRead(s, bits, rest);
    case FRaw(n) => LengthRead(s, Raw, n, rest);
    case FArray(n) => LengthRead(s, List, n, rest);
    case FMap(n) => LengthRead(s, Hash, n, rest);
    case FNil => NilOpens(rest);
    case FFalse => BoolOpens(false, rest);
    case FTrue => BoolOpens(true, rest);
  }

  /** The form of what was read. */
  function FormOf(r: Front): Form {
    match r
    case Scalar(v, _) =>
      (match v
       case Bool(b) => if b then FTrue else FFalse
       case Int(n) => FInt(n)
       case Single(bits) => FSingle(bits)
       case Double(bits) => FDouble(bits)
       case _ => FNil)
    case Sized(k, _, l) => (match k case Raw => FRaw(l) case List => FArray(l) case Hash => FMap(l))
    case _ => FNil
  }

  /** What is read as a form is one; anything else starts with an unassigned byte or is not all there. */
  lemma ReadIsForm(s: seq<byte>)
    ensures var r := Open(s);
      && (r.Scalar? || r.Sized? ==> r.n <= |s| && Spells(s[..r.n], FormOf(r)) && FrontOf(FormOf(r), r.n) == r)
      && (r.Unknown? <==> s != [] && Unassigned(s[0]))
      && (r.Short? <==> (forall k, f :: 0 <= k <= |s| ==> !Spells(s[..k], f)) && (s == [] || !Unassigned(s[0])))
  {
    hide Open, Spells;
    var r := Open(s);
    FirstBytes(s);
    if r.Scalar? || r.Sized? { ReadSpells(s); }
    forall k, f | 0 <= k <= |s| && Spells(s[..k], f) ensures r == FrontOf(f, k) {
      FormRead(s[..k], f, s[k..]);
      assert s[..k] + s[k..] == s;
    }
  }

  lemma FirstBytes(s: seq<byte>)
    ensures Open(s).Unknown? <==> s != [] && Unassigned(s[0])
  {
    hide Unsigned, MsgPack.Signed, Length;
    if s != [] && 0xc0 <= s[0] < 0xe0 { TagFronts(s); }
  }

  lemma TagFronts(s: seq<byte>)
    ensures forall w :: !Unsigned(s, w).Unknown?
    ensures forall w, half :: !MsgPack.Signed(s, w, half).Unknown?
    ensures forall k, w :: !Length(s, k, w).Unknown?
  {
  }

  lemma ReadSpells(s: seq<byte>)
    requires Open(s).Scalar? || Open(s).Sized?
    ensures var r := Open(s); r.n <= |s| && Spells(s[..r.n], FormOf(r)) && FrontOf(FormOf(r), r.n) == r
  {
    hide Open, Spells;
    NotEmpty(s);
    if 0xcc <= s[0] <= 0xd3 {
      IntSpells(s);
    } else if 0xda <= s[0] <= 0xdf {
      LengthSpells(s);
    } else {
      OtherSpells(s);
    }
  }

  lemma NotEmpty(s: seq<byte>)
    requires Open(s).Scalar? || Open(s).Sized?
    ensures s != []
  {
  }

  lemma IntSpells(s: seq<byte>)
    requires (Open(s).Scalar? || Open(s).Sized?) && s != [] && 0xcc <= s[0] <= 0xd3
    ensures var r := Open(s); r.n <= |s| && Spells(s[..r.n], FormOf(r)) && FrontOf(FormOf(r), r.n) == r
  {
    hide Number, Two, Four, Eight;
    var r := Open(s);
    var t := s[..r.n];
    assert t[0] == s[0] && s[1..r.n] == t[1..];
    NumberIs(t[1..]);
    PlacesBehind(t);
  }

  lemma LengthSpells(s: seq<byte>)
    requires (Open(s).Scalar? || Open(s).Sized?) && s != [] && 0xda <= s[0] <= 0xdf
    ensures var r := Open(s); r.n <= |s| && Spells(s[..r.n], FormOf(r)) && FrontOf(FormOf(r), r.n) == r
  {
    hide Number, Two, Four, Eight;
    var r := Open(s);
    var t := s[..r.n];
    assert t[0] == s[0] && s[1..r.n] == t[1..];
    NumberIs(t[1..]);
    PlacesBehind(t);
  }

  lemma OtherSpells(s: seq<byte>)
    requires (Open(s).Scalar? || Open(s).Sized?) && s != [] && !(0xcc <= s[0] <= 0xd3) && !(0xda <= s[0] <= 0xdf)
    ensures var r := Open(s); r.n <= |s| && Spells(s[..r.n], FormOf(r)) && FrontOf(FormOf(r), r.n) == r
  {
    hide Unsigned, MsgPack.Signed, Length, Two, Four, Eight;
    var r := Open(s);
    var t := s[..r.n];
    assert t[0] == s[0];
    if |t| > 1 { assert t == [s[0]] + s[1..r.n]; }
  }

  // ----- the encoder writes these, the shortest ones ------------------------------------------------------

  lemma IntWritten(n: int)
    requires -0x8000_0000_0000_0000 <= n < 0x8000_0000_0000_0000
    ensures Spells(EncInt(n), FInt(n)) && forall s :: IntForm(s, n) ==> |EncInt(n)| <= |s|
  {
    hide EncInt, Open, IntForm;
    var e := EncInt(n);
    assert e + [] == e;
    IntOpens(n, []);
    ReadIsForm(e);
    assert e[..|e|] == e;
    forall s | IntForm(s, n) ensures |e| <= |s| {
      assert s + [] == s;
      IntRead(s, n, []);
      ShortestInt(s);
    }
  }

  ghost function KindForm(k: Kind, n: nat): Form {
    match k case Raw => FRaw(n) case List => FArray(n) case Hash => FMap(n)
  }

  lemma HeaderWritten(k: Kind, n: nat)
    requires n < 0x1_0000_0000
    ensures Spells(Header(k, n), KindForm(k, n)) && forall s :: Spells(s, KindForm(k, n)) ==> |Header(k, n)| <= |s|
  {
    hide Header, Open, Spells;
    var h := Header(k, n);
    assert h + [] == h;
    HeaderOpens(k, n, []);
    ReadIsForm(h);
    assert h[..|h|] == h;
    forall s | Spells(s, KindForm(k, n)) ensures |h| <= |s| { HeaderShort(k, n, s); }
  }

  lemma HeaderShort(k: Kind, n: nat, s: seq<byte>)
    requires Spells(s, KindForm(k, n))
    ensures |Header(k, n)| <= |s|
  {
    hide BigEndian;
  }

  // ----- whole values -------------------------------------------------------------------------------------

  /** The bytes of a value, one after the other: what its forms say, and the bytes of its strings. */
  datatype Part = Head(f: Form) | Body(s: seq<byte>)

  ghost function Parts(v: Value): seq<Part>
    decreases v, 0
  {
    match v
    case Nil => [Head(FNil)]
    case Bool(b) => [Head(if b then FTrue else FFalse)]
    case Int(n) => [Head(FInt(n))]
    case Single(bits) => [Head(FSingle(bits))]
    case Double(bits) => [Head(FDouble(bits))]
    case Str(s) => [Head(FRaw(|s|)), Body(s)]
    case Arr(items) => [Head(FArray(|items|))] + ItemParts(items)
    case Map(ps) => [Head(FMap(|ps|))] + PairParts(ps)
  }

  ghost function ItemParts(vs: seq<Value>): seq<Part>
    decreases vs, |vs|
  {
    if vs == [] then [] else Parts(vs[0]) + ItemParts(vs[1..])
  }

  /** A key, then its value. */
  ghost function OnePair(p: Pair): seq<Part>
    decreases p, 0
  {
    Parts(p.key) + Parts(p.val)
  }

  ghost function PairParts(ps: seq<Pair>): seq<Part>
    decreases ps, |ps|
  {
    if ps == [] then [] else OnePair(ps[0]) + PairParts(ps[1..])
  }

  ghost predicate Is(s: seq<byte>, p: Part) {
    match p case Head(f) => Spells(s, f) case Body(b) => s == b
  }

  /** The bytes are those parts, each in one of its forms. */
  ghost predicate Wire(s: seq<byte>, ps: seq<Part>)
    decreases |ps|, 1
  {
    if ps == [] then s == [] else exists n: nat :: Cuts(s, n, ps)
  }

  ghost predicate Cuts(s: seq<byte>, n: nat, ps: seq<Part>)
    requires ps != []
    decreases |ps|, 0
  {
    n <= |s| && Is(s[..n], ps[0]) && Wire(s[n..], ps[1..])
  }

  lemma OnePart(s: seq<byte>, p: Part)
    ensures Wire(s, [p]) <==> Is(s, p)
  {
    hide Is, Wire;
    SinglePart(s, [p]);
  }

  lemma SinglePart(s: seq<byte>, ps: seq<Part>)
    requires |ps| == 1
    ensures Wire(s, ps) <==> Is(s, ps[0])
  {
    hide Is;
    assert ps[1..] == [] && s[..|s|] == s && s[|s|..] == [];
    if Is(s, ps[0]) { assert Cuts(s, |s|, ps); }
    if Wire(s, ps) { SingleIs(s, ps); }
  }

  lemma SingleIs(s: seq<byte>, ps: seq<Part>)
    requires |ps| == 1 && Wire(s, ps)
    ensures Is(s, ps[0])
  {
    hide Is;
    var n: nat :| Cuts(s, n, ps);
    assert Wire(s[n..], ps[1..]) && ps[1..] == [];
    NoParts(s[n..]);
    assert s[..n] == s;
  }

  lemma NoParts(s: seq<byte>)
    requires Wire(s, [])
    ensures s == []
  {
  }

  lemma {:induction false} WireJoin(s: seq<byte>, ps: seq<Part>, t: seq<byte>, qs: seq<Part>)
    requires Wire(s, ps) && Wire(t, qs)
    ensures Wire(s + t, ps + qs)
    decreases |ps|
  {
    hide Is;
    if ps == [] {
      assert ps + qs == qs && s + t == t;
    } else {
      var n: nat :| Cuts(s, n, ps);
      WireJoin(s[n..], ps[1..], t, qs);
      assert (ps + qs)[1..] == ps[1..] + qs && (s + t)[n..] == s[n..] + t && (s + t)[..n] == s[..n];
      assert Cuts(s + t, n, ps + qs);
    }
  }

  lemma {:induction false} WireSplit(s: seq<byte>, ps: seq<Part>, qs: seq<Part>) returns (n: nat)
    requires Wire(s, ps + qs)
    ensures n <= |s| && Wire(s[..n], ps) && Wire(s[n..], qs)
    decreases |ps|
  {
    hide Is;
    if ps == [] {
      assert ps + qs == qs && s[0..] == s && s[..0] == [];
      return 0;
    }
    var k: nat :| Cuts(s, k, ps + qs);
    assert (ps + qs)[1..] == ps[1..] + qs;
    var m := WireSplit(s[k..], ps[1..], qs);
    n := k + m;
    assert s[k..][m..] == s[n..] && s[..n][..k] == s[..k] && s[..n][k..] == s[k..][..m];
    assert Cuts(s[..n], k, ps);
  }

  /** Tables more than sixteen deep are written as nil. */
  ghost function Trim(v: Value, level: nat): Value
    decreases v, 0
  {
    match v
    case Arr(items) => if level == 16 then Nil else Arr(TrimItems(items, level + 1))
    case Map(ps) => if level == 16 then Nil else Map(TrimPairs(ps, level + 1))
    case _ => v
  }

  ghost function TrimItems(vs: seq<Value>, level: nat): (r: seq<Value>)
    ensures |r| == |vs|
    decreases vs, |vs|
  {
    if vs == [] then [] else [Trim(vs[0], level)] + TrimItems(vs[1..], level)
  }

  ghost function TrimPair(p: Pair, level: nat): Pair
    decreases p, 0
  {
    Pair(Trim(p.key, level), Trim(p.val, level))
  }

  ghost function TrimPairs(ps: seq<Pair>, level: nat): (r: seq<Pair>)
    ensures |r| == |ps|
    decreases ps, |ps|
  {
    if ps == [] then [] else [TrimPair(ps[0], level)] + TrimPairs(ps[1..], level)
  }

  /** What is packed is the value in the format. */
  lemma {:induction false} PackedIsWire(v: Value, level: nat)
    requires Lua(v) && SizesFit(v)
    ensures Wire(Enc(v, level), Parts(Trim(v, level)))
    decreases v, 0
  {
    hide EncInt, Header, Wire, Spells;
    match v
    case Nil => ScalarWire(v, level);
    case Bool(_) => ScalarWire(v, level);
    case Int(n) => ScalarWire(v, level);
    case Single(_) => ScalarWire(v, level);
    case Double(_) => ScalarWire(v, level);
    case Str(s) =>
      HeadWire(Raw, |s|);
      OnePart(s, Body(s));
      WireJoin(Header(Raw, |s|), [Head(FRaw(|s|))], s, [Body(s)]);
      assert [Head(FRaw(|s|))] + [Body(s)] == Parts(v);
    case Arr(items) =>
      if level == 16 {
        NilWire();
      } else {
        HeadWire(List, |items|);
        ItemsWire(items, level + 1);
        WireJoin(Header(List, |items|), [Head(FArray(|items|))], EncItems(items, level + 1),
                 ItemParts(TrimItems(items, level + 1)));
      }
    case Map(ps) =>
      if level == 16 {
        NilWire();
      } else {
        HeadWire(Hash, |ps|);
        PairsWire(ps, level + 1);
        WireJoin(Header(Hash, |ps|), [Head(FMap(|ps|))], EncPairs(ps, level + 1), PairParts(TrimPairs(ps, level + 1)));
      }
  }

  lemma NilWire()
    ensures Wire([0xc0], [Head(FNil)])
  {
    OnePart([0xc0], Head(FNil));
  }

  lemma HeadWire(k: Kind, n: nat)
    requires n < 0x1_0000_0000
    ensures Wire(Header(k, n), [Head(KindForm(k, n))])
  {
    hide Header, Wire, Spells;
    HeaderWritten(k, n);
    OnePart(Header(k, n), Head(KindForm(k, n)));
  }

  lemma ScalarWire(v: Value, level: nat)
    requires Lua(v) && (v.Nil? || v.Bool? || v.Int? || v.Single? || v.Double?)
    ensures Wire(Enc(v, level), Parts(Trim(v, level)))
  {
    hide EncInt, Wire, IntForm;
    if v.Int? { IntWritten(v.n); }
    OnePart(Enc(v, level), Parts(v)[0]);
  }

  lemma {:induction false} ItemsWire(vs: seq<Value>, level: nat)
    requires forall i :: 0 <= i < |vs| ==> Lua(vs[i]) && SizesFit(vs[i])
    ensures Wire(EncItems(vs, level), ItemParts(TrimItems(vs, level)))
    decreases vs, |vs|
  {
    hide Enc, Trim, Parts, Is;
    if vs != [] {
      PackedIsWire(vs[0], level);
      ItemsWire(vs[1..], level);
      var ts := TrimItems(vs, level);
      assert ts[1..] == TrimItems(vs[1..], level);
      WireJoin(Enc(vs[0], level), Parts(ts[0]), EncItems(vs[1..], level), ItemParts(ts[1..]));
    }
  }

  lemma {:induction false} PairsWire(ps: seq<Pair>, level: nat)
    requires forall i :: 0 <= i < |ps| ==> LuaPair(ps[i]) && PairFits(ps[i])
    ensures Wire(EncPairs(ps, level), PairParts(TrimPairs(ps, level)))
    decreases ps, |ps|
  {
    hide EncPair, TrimPair, OnePair, Is, LuaPair, PairFits;
    if ps != [] {
      PairWire(ps[0], level);
      PairsWire(ps[1..], level);
      var ts := TrimPairs(ps, level);
      assert ts[1..] == TrimPairs(ps[1..], level);
      WireJoin(EncPair(ps[0], level), OnePair(ts[0]), EncPairs(ps[1..], level), PairParts(ts[1..]));
    }
  }

  lemma {:induction false} PairWire(p: Pair, level: nat)
    requires LuaPair(p) && PairFits(p)
    ensures Wire(EncPair(p, level), OnePair(TrimPair(p, level)))
    decreases p, 0
  {
    hide Enc, Trim, Parts, Wire;
    PackedIsWire(p.key, level);
    PackedIsWire(p.val, level);
    WireJoin(Enc(p.key, level), Parts(Trim(p.key, level)), Enc(p.val, level), Parts(Trim(p.val, level)));
  }

  // ----- what is in the format is unpacked ------------------------------------------------------------------

  /** The value as Lua holds it: later keys over earlier ones, no pair with nil. */
  ghost function Held(v: Value): Value
    decreases v, 0
  {
    match v
    case Arr(items) => Arr(HeldItems(items))
    case Map(ps) => Map(HeldPairs(ps, []))
    case _ => v
  }

  ghost function HeldItems(vs: seq<Value>): (r: seq<Value>)
    ensures |r| == |vs|
    decreases vs, |vs|
  {
    if vs == [] then [] else [Held(vs[0])] + HeldItems(vs[1..])
  }

  ghost function HeldPair(p: Pair): Pair
    decreases p, 0
  {
    Pair(Held(p.key), Held(p.val))
  }

  ghost function HeldPairs(ps: seq<Pair>, acc: seq<Pair>): seq<Pair>
    decreases ps, |ps|
  {
    if ps == [] then acc else
      var p := HeldPair(ps[0]);
      HeldPairs(ps[1..], SetTable(acc, p.key, p.val))
  }

  /** No key is nil. */
  ghost predicate Keyed(v: Value) {
    match v
    case Arr(items) => forall i :: 0 <= i < |items| ==> Keyed(items[i])
    case Map(ps) => forall i :: 0 <= i < |ps| ==> KeyedPair(ps[i])
    case _ => true
  }

  ghost predicate KeyedPair(p: Pair) {
    p.key != Nil && Keyed(p.key) && Keyed(p.val)
  }

  lemma FirstPart(s: seq<byte>, f: Form, ps: seq<Part>, rest: seq<byte>) returns (n: nat)
    requires Wire(s, [Head(f)] + ps)
    ensures n <= |s| && Spells(s[..n], f) && Wire(s[n..], ps) && Open(s + rest) == FrontOf(f, n)
    ensures n <= |s + rest| && (s + rest)[n..] == s[n..] + rest
  {
    hide Open, Spells, Wire;
    n := WireSplit(s, [Head(f)], ps);
    OnePart(s[..n], Head(f));
    FormRead(s[..n], f, s[n..] + rest);
    assert s[..n] + (s[n..] + rest) == s + rest;
  }

  /** Any bytes in the format are unpacked to the value they stand for, and reading stops at their end. */
  lemma {:induction false} WireUnpacked(s: seq<byte>, v: Value, rest: seq<byte>)
    requires Wire(s, Parts(v)) && Keyed(v)
    ensures Dec(s + rest) == Ok(Held(v), |s|)
    decreases v, 0
  {
    hide Dec, Wire, HeldItems, HeldPairs, ItemParts, PairParts;
    match v
    case Str(b) => StringUnpacked(s, b, rest);
    case Arr(items) =>
      var n := FirstPart(s, FArray(|items|), ItemParts(items), rest);
      ItemsUnpacked(s[n..], items, rest);
      ListStep(s + rest, n, HeldItems(items), |s| - n);
    case Map(ps) =>
      var n := FirstPart(s, FMap(|ps|), PairParts(ps), rest);
      PairsUnpacked(s[n..], ps, rest, []);
      HashStep(s + rest, n, |ps|, HeldPairs(ps, []), |s| - n);
    case _ => ScalarUnpacked(s, v, rest);
  }

  lemma ListStep(s: seq<byte>, n: nat, vs: seq<Value>, m: nat)
    requires Open(s) == Sized(List, n, |vs|) && n <= |s| && DecItems(s[n..], |vs|) == Items(vs, m)
    ensures Dec(s) == Ok(Arr(vs), n + m)
  {
    hide Open, DecItems;
  }

  lemma HashStep(s: seq<byte>, n: nat, l: nat, ps: seq<Pair>, m: nat)
    requires Open(s) == Sized(Hash, n, l) && n <= |s| && DecPairs(s[n..], l, []) == Pairs(ps, m)
    ensures Dec(s) == Ok(Map(ps), n + m)
  {
    hide Open, DecPairs;
  }

  lemma StringUnpacked(s: seq<byte>, b: seq<byte>, rest: seq<byte>)
    requires Wire(s, Parts(Str(b)))
    ensures Dec(s + rest) == Ok(Str(b), |s|)
  {
    hide Open, Spells, Wire, Is;
    assert Parts(Str(b)) == [Head(FRaw(|b|))] + [Body(b)];
    var n := FirstPart(s, FRaw(|b|), [Body(b)], rest);
    OnePart(s[n..], Body(b));
    IsBody(s[n..], b);
    assert (s + rest)[n..n + |b|] == b;
  }

  lemma IsBody(s: seq<byte>, b: seq<byte>)
    requires Is(s, Body(b))
    ensures s == b
  {
  }

  lemma ScalarUnpacked(s: seq<byte>, v: Value, rest: seq<byte>)
    requires Wire(s, Parts(v)) && (v.Nil? || v.Bool? || v.Int? || v.Single? || v.Double?)
    ensures Dec(s + rest) == Ok(v, |s|)
  {
    hide Open, Spells, Wire;
    var f := Parts(v)[0].f;
    OnePart(s, Head(f));
    FormRead(s, f, rest);
  }

  lemma {:induction false} ItemsUnpacked(s: seq<byte>, vs: seq<Value>, rest: seq<byte>)
    requires Wire(s, ItemParts(vs)) && forall i :: 0 <= i < |vs| ==> Keyed(vs[i])
    ensures DecItems(s + rest, |vs|) == Items(HeldItems(vs), |s|)
    decreases vs, |vs|
  {
    hide Dec, DecItems, Wire, Parts, Held, Keyed;
    if vs == [] {
      NoParts(s);
      NoneLeft(s + rest, []);
    } else {
      var n := WireSplit(s, Parts(vs[0]), ItemParts(vs[1..]));
      WireUnpacked(s[..n], vs[0], s[n..] + rest);
      ItemsUnpacked(s[n..], vs[1..], rest);
      assert s[..n] + (s[n..] + rest) == s + rest && (s + rest)[n..] == s[n..] + rest;
      ItemStep(s + rest, |vs|, Held(vs[0]), n);
    }
  }

  lemma NoneLeft(s: seq<byte>, acc: seq<Pair>)
    ensures DecItems(s, 0) == Items([], 0) && DecPairs(s, 0, acc) == Pairs(acc, 0)
  {
  }

  lemma ItemStep(s: seq<byte>, l: nat, v: Value, n: nat)
    requires l > 0 && Dec(s) == Ok(v, n) && DecItems(s[n..], l - 1).Items?
    ensures var r := DecItems(s[n..], l - 1); DecItems(s, l) == Items([v] + r.vs, n + r.n)
  {
    hide Dec;
  }

  lemma PairStep(s: seq<byte>, l: nat, acc: seq<Pair>, k: Value, n: nat, v: Value, m: nat)
    requires l > 0 && Dec(s) == Ok(k, n) && k != Nil && Dec(s[n..]) == Ok(v, m) && n + m <= |s|
    requires DecPairs(s[n + m..], l - 1, SetTable(acc, k, v)).Pairs?
    ensures var r := DecPairs(s[n + m..], l - 1, SetTable(acc, k, v)); DecPairs(s, l, acc) == Pairs(r.ps, n + m + r.n)
  {
    hide Dec, SetTable;
  }

  lemma {:induction false} PairsUnpacked(s: seq<byte>, ps: seq<Pair>, rest: seq<byte>, acc: seq<Pair>)
    requires Wire(s, PairParts(ps)) && forall i :: 0 <= i < |ps| ==> KeyedPair(ps[i])
    ensures DecPairs(s + rest, |ps|, acc) == Pairs(HeldPairs(ps, acc), |s|)
    decreases ps, |ps|
  {
    hide Dec, DecPairs, Wire, OnePair, SetTable, KeyedPair, HeldPair;
    if ps == [] {
      NoParts(s);
      NoneLeft(s + rest, acc);
    } else {
      var n := WireSplit(s, OnePair(ps[0]), PairParts(ps[1..]));
      var k := PairUnpacked(s[..n], ps[0], s[n..] + rest);
      var p := HeldPair(ps[0]);
      PairsUnpacked(s[n..], ps[1..], rest, SetTable(acc, p.key, p.val));
      assert s[..n] + (s[n..] + rest) == s + rest && (s + rest)[n..] == s[n..] + rest;
      PairStep(s + rest, |ps|, acc, p.key, k, p.val, n - k);
    }
  }

  lemma {:induction false} PairUnpacked(s: seq<byte>, p: Pair, rest: seq<byte>) returns (k: nat)
    requires Wire(s, OnePair(p)) && KeyedPair(p)
    ensures k <= |s| && Dec(s + rest) == Ok(HeldPair(p).key, k) && HeldPair(p).key != Nil
    ensures Dec((s + rest)[k..]) == Ok(HeldPair(p).val, |s| - k)
    decreases p, 0
  {
    hide Dec, Wire, Parts;
    k := WireSplit(s, Parts(p.key), Parts(p.val));
    WireUnpacked(s[..k], p.key, s[k..] + rest);
    WireUnpacked(s[k..], p.val, rest);
    assert s[..k] + (s[k..] + rest) == s + rest && (s + rest)[k..] == s[k..] + rest;
  }

  // ----- what is cut short ----------------------------------------------------------------------------------

  lemma FormCut(h: seq<byte>, f: Form, k: nat)
    requires Spells(h, f) && k < |h|
    ensures Open(h[..k]) == MsgPack.Short
  {
    hide Number, Two, Four, Eight;
    if k > 0 { assert h[..k][0] == h[0]; }
  }

  /** The start of a value's bytes, short of its end, is reported as the end of input. */
  lemma {:induction false} CutShort(s: seq<byte>, v: Value, k: nat)
    requires Wire(s, Parts(v)) && Keyed(v) && k < |s|
    ensures Dec(s[..k]) == Err(Eof)
    decreases v, 0
  {
    hide Open, Spells, Wire, Is;
    match v
    case Str(b) =>
      assert Parts(v) == [Head(FRaw(|b|))] + [Body(b)];
      var n := HeadCut(s, FRaw(|b|), [Body(b)], k);
      OnePart(s[n..], Body(b));
      IsBody(s[n..], b);
    case Arr(items) =>
      var n := HeadCut(s, FArray(|items|), ItemParts(items), k);
      if n <= k {
        ItemsCut(s[n..], items, k - n);
        assert s[..k][n..] == s[n..][..k - n];
      }
    case Map(ps) =>
      var n := HeadCut(s, FMap(|ps|), PairParts(ps), k);
      if n <= k {
        PairsCut(s[n..], ps, k - n, []);
        assert s[..k][n..] == s[n..][..k - n];
      }
    case _ =>
      OnePart(s, Parts(v)[0]);
      IsHead(s, Parts(v)[0]);
      FormCut(s, Parts(v)[0].f, k);
  }

  lemma IsHead(s: seq<byte>, p: Part)
    requires Is(s, p) && p.Head?
    ensures Spells(s, p.f)
  {
    hide Spells;
  }

  lemma HeadCut(s: seq<byte>, f: Form, ps: seq<Part>, k: nat) returns (n: nat)
    requires Wire(s, [Head(f)] + ps) && k < |s|
    ensures n <= |s| && Wire(s[n..], ps)
    ensures if k < n then Open(s[..k]) == MsgPack.Short else Open(s[..k]) == FrontOf(f, n)
  {
    hide Open, Spells, Wire;
    n := FirstPart(s, f, ps, []);
    if k < n {
      FormCut(s[..n], f, k);
      assert s[..n][..k] == s[..k];
    } else {
      FormRead(s[..n], f, s[n..k]);
      assert s[..n] + s[n..k] == s[..k];
    }
  }

  lemma {:induction false} ItemsCut(s: seq<byte>, vs: seq<Value>, k: nat)
    requires Wire(s, ItemParts(vs)) && k < |s| && forall i :: 0 <= i < |vs| ==> Keyed(vs[i])
    ensures DecItems(s[..k], |vs|) == Bad(Eof)
    decreases vs, |vs|
  {
    hide Dec, Is, Parts, Held, Keyed, Cuts;
    var n := WireSplit(s, Parts(vs[0]), ItemParts(vs[1..]));
    if k < n {
      CutShort(s[..n], vs[0], k);
      assert s[..n][..k] == s[..k];
    } else {
      WireUnpacked(s[..n], vs[0], s[n..k]);
      ItemsCut(s[n..], vs[1..], k - n);
      assert s[..n] + s[n..k] == s[..k] && s[..k][n..] == s[n..][..k - n];
    }
  }

  lemma {:induction false} PairsCut(s: seq<byte>, ps: seq<Pair>, k: nat, acc: seq<Pair>)
    requires Wire(s, PairParts(ps)) && k < |s| && forall i :: 0 <= i < |ps| ==> KeyedPair(ps[i])
    ensures DecPairs(s[..k], |ps|, acc) == Wrong(Eof)
    decreases ps, |ps|
  {
    hide Dec, Is, OnePair, SetTable, KeyedPair, HeldPair, Cuts;
    var n := WireSplit(s, OnePair(ps[0]), PairParts(ps[1..]));
    if k < n {
      PairCut(s[..n], ps[0], k);
      assert s[..n][..k] == s[..k];
    } else {
      var m := PairUnpacked(s[..n], ps[0], s[n..k]);
      var p := HeldPair(ps[0]);
      PairsCut(s[n..], ps[1..], k - n, SetTable(acc, p.key, p.val));
      assert s[..n] + s[n..k] == s[..k] && s[..k][n..] == s[n..][..k - n];
    }
  }

  lemma {:induction false} PairCut(s: seq<byte>, p: Pair, k: nat)
    requires Wire(s, OnePair(p)) && KeyedPair(p) && k < |s|
    ensures var r := Dec(s[..k]); r == Err(Eof) || (r.Ok? && Dec(s[..k][r.n..]) == Err(Eof))
    decreases p, 0
  {
    hide Dec, Wire, Parts;
    var n := WireSplit(s, Parts(p.key), Parts(p.val));
    if k < n {
      CutShort(s[..n], p.key, k);
      assert s[..n][..k] == s[..k];
    } else {
      WireUnpacked(s[..n], p.key, s[n..k]);
      CutShort(s[n..], p.val, k - n);
      assert s[..n] + s[n..k] == s[..k] && s[..k][n..] == s[n..][..k - n];
    }
  }

  // ----- what can be unpacked is in the format ----------------------------------------------------------------

  lemma {:induction false} UnpackedIsWire(s: seq<byte>) returns (v: Value)
    requires Dec(s).Ok?
    ensures Wire(s[..Dec(s).n], Parts(v)) && Keyed(v) && Held(v) == Dec(s).v
    decreases |s|, 0
  {
    hide Spells, Wire, Open, DecItems, DecPairs, ItemParts, PairParts, HeldItems, HeldPairs, KeyedPair;
    ReadIsForm(s);
    var r := Open(s);
    HeadIs(s, r);
    match r
    case Scalar(u, n) =>
      v := u;
      ScalarParts(s, r);
    case Sized(k, n, l) =>
      var h, t := s[..n], s[n..];
      match k {
        case Raw =>
          v := Str(t[..l]);
          OnePart(t[..l], Body(t[..l]));
          Joined(s, n, n + l, [Head(FRaw(l))], [Body(t[..l])]);
          assert [Head(FRaw(l))] + [Body(t[..l])] == Parts(v);
        case List =>
          var vs := ItemsAreWire(t, l);
          v := Arr(vs);
          Joined(s, n, Dec(s).n, [Head(FArray(l))], ItemParts(vs));
        case Hash =>
          var ps := PairsAreWire(t, l, []);
          v := Map(ps);
          Joined(s, n, Dec(s).n, [Head(FMap(l))], PairParts(ps));
      }
  }

  lemma HeadIs(s: seq<byte>, r: Front)
    requires r == Open(s) && (r.Scalar? || r.Sized?) && r.n <= |s| && Spells(s[..r.n], FormOf(r))
    ensures Wire(s[..r.n], [Head(FormOf(r))])
  {
    hide Spells, Wire, Open;
    OnePart(s[..r.n], Head(FormOf(r)));
  }

  lemma ScalarParts(s: seq<byte>, r: Front)
    requires r == Open(s) && r.Scalar?
    ensures Parts(r.v) == [Head(FormOf(r))] && Keyed(r.v) && Held(r.v) == r.v
  {
    hide Spells;
  }

  lemma Joined(s: seq<byte>, n: nat, m: nat, ps: seq<Part>, qs: seq<Part>)
    requires n <= m <= |s| && Wire(s[..n], ps) && Wire(s[n..][..m - n], qs)
    ensures Wire(s[..m], ps + qs)
  {
    hide Wire;
    WireJoin(s[..n], ps, s[n..][..m - n], qs);
    assert s[..n] + s[n..][..m - n] == s[..m];
  }

  lemma {:induction false} ItemsAreWire(s: seq<byte>, l: nat) returns (vs: seq<Value>)
    requires DecItems(s, l).Items?
    ensures var r := DecItems(s, l);
      && |vs| == l && Wire(s[..r.n], ItemParts(vs)) && HeldItems(vs) == r.vs
      && forall i :: 0 <= i < |vs| ==> Keyed(vs[i])
    decreases |s|, 1
  {
    hide Dec, Is, Parts, Held, Keyed, Cuts;
    if l == 0 { return []; }
    var n := Dec(s).n;
    var v := UnpackedIsWire(s);
    var rest := ItemsAreWire(s[n..], l - 1);
    vs := [v] + rest;
    assert vs[1..] == rest;
    Joined(s, n, DecItems(s, l).n, Parts(v), ItemParts(rest));
  }

  lemma {:induction false} PairsAreWire(s: seq<byte>, l: nat, acc: seq<Pair>) returns (ps: seq<Pair>)
    requires DecPairs(s, l, acc).Pairs?
    ensures var r := DecPairs(s, l, acc);
      && |ps| == l && Wire(s[..r.n], PairParts(ps)) && HeldPairs(ps, acc) == r.ps
      && forall i :: 0 <= i < |ps| ==> KeyedPair(ps[i])
    decreases |s|, 1
  {
    hide Dec, Is, Parts, Held, Keyed, Cuts, SetTable;
    if l == 0 { return []; }
    var k, n := Dec(s).v, Dec(s).n;
    var v, m := Dec(s[n..]).v, Dec(s[n..]).n;
    var a := UnpackedIsWire(s);
    var b := UnpackedIsWire(s[n..]);
    var rest := PairsAreWire(s[n + m..], l - 1, SetTable(acc, k, v));
    ps := [Pair(a, b)] + rest;
    assert ps[1..] == rest;
    NilHeld(a);
    Joined(s, n, n + m, Parts(a), Parts(b));
    Joined(s, n + m, DecPairs(s, l, acc).n, OnePair(ps[0]), PairParts(rest));
  }

  lemma NilHeld(v: Value)
    ensures Held(v) == Nil <==> v == Nil
  {
  }

  // ----- tables -------------------------------------------------------------------------------------------------

  ghost predicate OneOfEach(ps: seq<Pair>) {
    forall i, j :: 0 <= i < j < |ps| ==> ps[i].key != ps[j].key
  }

  /** Setting a key: its old pair goes, and the new one comes unless it is nil. */
  lemma {:induction false} SetIs(ps: seq<Pair>, k: Value, v: Value)
    requires OneOfEach(ps)
    ensures var r := SetTable(ps, k, v);
      && OneOfEach(r) && forall p :: p in r <==> (p in ps && p.key != k) || (v != Nil && p == Pair(k, v))
  {
    if ps != [] {
      assert ps == [ps[0]] + ps[1..];
      if ps[0].key == k {
        forall p | p in ps[1..] ensures p.key != k { }
      } else {
        SetIs(ps[1..], k, v);
        var r := SetTable(ps[1..], k, v);
        forall j | 0 <= j < |r| ensures r[j].key != ps[0].key { assert r[j] in r; }
      }
    }
  }

  /** The pair is among ps, and no later one has its key. */
  ghost predicate LastOfKey(ps: seq<Pair>, p: Pair) {
    exists i :: 0 <= i < |ps| && HeldPair(ps[i]) == p && NotAfter(ps, i + 1, p.key)
  }

  ghost predicate NotAfter(ps: seq<Pair>, i: nat, k: Value) {
    forall j :: i <= j < |ps| ==> HeldPair(ps[j]).key != k
  }

  /** An unpacked table has, for every key, the value that came last, and no pair with nil. */
  lemma {:induction false} LaterWins(ps: seq<Pair>, acc: seq<Pair>, p: Pair)
    requires OneOfEach(acc)
    ensures var r := HeldPairs(ps, acc);
      && OneOfEach(r)
      && (p in r <==> (p.val != Nil && LastOfKey(ps, p)) || (p in acc && NotAfter(ps, 0, p.key)))
    decreases |ps|
  {
    hide SetTable, HeldPair, OneOfEach, NotAfter, LastOfKey;
    if ps == [] {
      NoneLast(ps, p);
    } else {
      var q := HeldPair(ps[0]);
      SetIs(acc, q.key, q.val);
      LaterWins(ps[1..], SetTable(acc, q.key, q.val), p);
      LastStep(ps, p);
    }
  }

  lemma NoneLast(ps: seq<Pair>, p: Pair)
    requires ps == []
    ensures !LastOfKey(ps, p) && NotAfter(ps, 0, p.key)
  {
  }

  lemma LastStep(ps: seq<Pair>, p: Pair)
    requires ps != []
    ensures LastOfKey(ps, p) <==> LastOfKey(ps[1..], p) || (HeldPair(ps[0]) == p && NotAfter(ps[1..], 0, p.key))
    ensures NotAfter(ps, 0, p.key) <==> NotAfter(ps[1..], 0, p.key) && HeldPair(ps[0]).key != p.key
  {
    hide HeldPair;
    var r := ps[1..];
    forall i: nat ensures NotAfter(ps, i + 1, p.key) <==> NotAfter(r, i, p.key) { Shifted(ps, i, p.key); }
    if LastOfKey(ps, p) {
      var i :| 0 <= i < |ps| && HeldPair(ps[i]) == p && NotAfter(ps, i + 1, p.key);
      if i > 0 { assert HeldPair(r[i - 1]) == p && NotAfter(r, i - 1 + 1, p.key); }
    }
    if LastOfKey(r, p) {
      var i :| 0 <= i < |r| && HeldPair(r[i]) == p && NotAfter(r, i + 1, p.key);
      assert HeldPair(ps[i + 1]) == p && NotAfter(ps, i + 1 + 1, p.key);
    }
  }

  lemma Shifted(ps: seq<Pair>, i: nat, k: Value)
    requires ps != []
    ensures NotAfter(ps, i + 1, k) <==> NotAfter(ps[1..], i, k)
  {
    hide HeldPair;
    forall j | i <= j < |ps| - 1 ensures ps[1..][j] == ps[j + 1] { }
    if NotAfter(ps[1..], i, k) {
      forall j | i + 1 <= j < |ps| ensures HeldPair(ps[j]).key != k { assert ps[j] == ps[1..][j - 1]; }
    }
  }
}
