/**
 The receive buffer of a cosocket: a list of chunks filled by recv and emptied by line, count and
 read-all calls.  Whatever the sizes, no byte is lost, repeated or reordered.
 */
module RecvBuffer {
  import opened Common
  import opened Octets

  const CHUNK: nat := 4096
  const LF: byte := 10
  const CR: byte := 13

  datatype Want = Line | Everything | Count(n: nat)

  const SIZE_LIMIT: int := 0x1_0000_0000_0000_0000

  /** The argument of a read: a number, "*a", or neither. */
  datatype Arg = Number(n: int) | All | Neither

  /** buf_read_len is a size_t: a number wraps, and the two largest values stand for a line and for everything. */
  function WantOf(arg: Arg): Want {
    match arg
    case Neither => Line
    case All => Everything
    case Number(n) =>
      var m := n % SIZE_LIMIT;
      if m == SIZE_LIMIT - 1 then Line else if m == SIZE_LIMIT - 2 then Everything else Count(m)
  }

  /** The test for a negative number never holds.  A number is taken as a count exactly when it is not negative;
      -1 reads a line, -2 everything, and any other waits for more than there can be. */
  lemma NegativeCount(n: int, c: seq<byte>, open: bool, a: Answer, raw: seq<byte>)
    requires -0x8000_0000_0000_0000 <= n < 0x8000_0000_0000_0000 && |c| < 0x8000_0000_0000_0000
    requires Takes(c, open, WantOf(Number(n)), a, raw)
    ensures WantOf(Number(n)) == if n >= 0 then Count(n) else if n == -1 then Line else if n == -2 then Everything
      else Count(n + 0x1_0000_0000_0000_0000)
    ensures n >= 0 <==> WantOf(Number(n)).Count? && WantOf(Number(n)).n == n
    ensures n < -2 ==> if open || c == [] then raw == [] && !a.Data? else raw == c && a == Data(c)
  {
  }

  /** Beyond is the end of what the code defines. */
  datatype Answer = Later | NotConnected | Data(s: seq<byte>) | Beyond

  ghost function Flat(chunks: seq<seq<byte>>): seq<byte> {
    if chunks == [] then [] else chunks[0] + Flat(chunks[1..])
  }

  lemma {:induction false} FlatNew(chunks: seq<seq<byte>>)
    ensures Flat(chunks + [[]]) == Flat(chunks)
  {
    if chunks != [] {
      FlatNew(chunks[1..]);
      assert (chunks + [[]])[1..] == chunks[1..] + [[]];
    }
  }

  lemma {:induction false} FlatSplit(chunks: seq<seq<byte>>, i: nat)
    requires i <= |chunks|
    ensures Flat(chunks) == Flat(chunks[..i]) + Flat(chunks[i..])
  {
    if i > 0 {
      FlatSplit(chunks[1..], i - 1);
      assert chunks[..i][1..] == chunks[1..][..i - 1] && chunks[1..][i - 1..] == chunks[i..];
    }
  }

  lemma FlatLast(chunks: seq<seq<byte>>, s: seq<byte>)
    requires chunks != []
    ensures var n := |chunks| - 1; Flat(chunks[n := chunks[n] + s]) == Flat(chunks) + s
  {
    hide Flat;
    var n := |chunks| - 1;
    var after := chunks[n := chunks[n] + s];
    FlatSplit(chunks, n);
    FlatSplit(after, n);
    assert after[..n] == chunks[..n] && after[n..] == [chunks[n] + s] && chunks[n..] == [chunks[n]];
    FlatOne(chunks[n]);
    FlatOne(chunks[n] + s);
  }

  /** A line without its end: the LF, and one CR before it if there is one. */
  function Chomp(s: seq<byte>): seq<byte> {
    var t := if s != [] && s[|s| - 1] == LF then s[..|s| - 1] else s;
    if t != [] && t[|t| - 1] == CR then t[..|t| - 1] else t
  }

  /** s is text up to and with its first LF. */
  ghost predicate FirstLine(s: seq<byte>) {
    s != [] && s[|s| - 1] == LF && forall i :: 0 <= i < |s| - 1 ==> s[i] != LF
  }

  /** raw is the line s with its end: carriage return and line feed, or a line feed alone. */
  ghost predicate LineOf(raw: seq<byte>, s: seq<byte>) {
    10 !in s && (raw == s + [13, 10] || (raw == s + [10] && (s == [] || s[|s| - 1] != 13)))
  }

  /** The end is cut off a line, all of it and nothing else. */
  lemma ChompIs(raw: seq<byte>)
    requires FirstLine(raw)
    ensures LineOf(raw, Chomp(raw)) && forall s :: LineOf(raw, s) ==> s == Chomp(raw)
  {
    var s := Chomp(raw);
    assert raw == s + raw[|s|..];
    forall t | LineOf(raw, t) ensures t == s {
      assert raw[..|t|] == t;
      assert raw[|raw| - 1] == 10;
      if |raw| >= 2 { assert raw[|raw| - 2] == 13 <==> |t| == |raw| - 2; }
    }
  }

  /** The bytes up to and with the first LF, or all. */
  ghost function LineLength(c: seq<byte>): nat {
    if c == [] then 0 else if c[0] == LF then 1 else 1 + LineLength(c[1..])
  }

  lemma {:induction false} LineLengthIs(c: seq<byte>, n: nat)
    requires n <= |c| && FirstLine(c[..n])
    ensures LineLength(c) == n && LF in c
  {
    assert c[..n][n - 1] == LF;
    if n == 1 {
      assert c[0] == LF;
    } else {
      assert c[0] == c[..n][0];
      assert c[1..][..n - 1] == c[..n][1..];
      LineLengthIs(c[1..], n - 1);
    }
  }

  /** Where the byte compared with CR is, for a line taken with its LF. */
  function CrPlace(raw: seq<byte>): int {
    |raw| - 2
  }

  /** It lies inside the line exactly when there is something before the LF. */
  lemma CrInside(raw: seq<byte>)
    requires FirstLine(raw)
    ensures 0 <= CrPlace(raw) < |raw| <==> raw != [LF]
    ensures raw != [LF] ==> (raw[CrPlace(raw)] == CR <==> |Chomp(raw)| == |raw| - 2)
  {
  }

  /** For the line [LF] it is the byte before the copy. */
  lemma EmptyLine()
    ensures FirstLine([LF]) && CrPlace([LF]) == -1
  {
  }

  ghost function LastChunk(chunks: seq<seq<byte>>): seq<byte> {
    if chunks == [] then [] else chunks[|chunks| - 1]
  }

  /** The search for a line adds ints and counts its last chunk twice when it finds none. */
  ghost predicate Countable(chunks: seq<seq<byte>>) {
    var c := Flat(chunks);
    if LF in c then LineLength(c) <= INT_MAX else |c| + |LastChunk(chunks)| <= INT_MAX
  }

  /** What the code does not define: a line whose search overflows, and an empty line when a CR happens to
      stand before the copy. */
  ghost predicate Undefined(chunks: seq<seq<byte>>, want: Want, before: byte) {
    var c := Flat(chunks);
    want.Line? && c != [] && (!Countable(chunks) || (c[0] == LF && before == CR))
  }

  class Buffer {
    var chunks: seq<seq<byte>>
    var total: nat
    var open: bool
    ghost var received: seq<byte>
    ghost var taken: seq<byte>

    /** A connected socket with nothing received. */
    constructor ()
      ensures Valid() && open && received == [] && taken == []
    {
      chunks, total, open, received, taken := [], 0, true, [], [];
    }

    /** What was taken and what is buffered make up what was received. */
    ghost predicate Valid()
      reads this
    {
      && (forall i :: 0 <= i < |chunks| ==> |chunks[i]| <= CHUNK)
      && total == |Contents()| && received == taken + Contents()
    }

    ghost function Contents(): seq<byte>
      reads this
    {
      Flat(chunks)
    }

    /** cosocket_be_read: recv hands over arriving bytes in portions of any sizes, at most as many
        as the last chunk has room for; a full chunk is followed by a new one. */
    method BeRead(arriving: seq<byte>, sizes: seq<nat>) returns (rest: seq<byte>)
      requires Valid()
      modifies this`chunks, this`total, this`received
      ensures Valid() && taken == old(taken)
      ensures |rest| <= |arriving| && rest == arriving[|arriving| - |rest|..]
      ensures received == old(received) + arriving[..|arriving| - |rest|]
      ensures rest == [] || |arriving| - |rest| >= |sizes|
    {
      hide Portion;
      rest := arriving;
      EnsureRoom();
      for i := 0 to |sizes|
        invariant Valid() && chunks != [] && |chunks[|chunks| - 1]| < CHUNK
        invariant |rest| <= |arriving| && rest == arriving[|arriving| - |rest|..]
        invariant received == old(received) + arriving[..|arriving| - |rest|] && |arriving| - |rest| >= i
      {
        if rest == [] { break; }
        var n := Portion(sizes[i], CHUNK - |chunks[|chunks| - 1]|, |rest|);
        Advance(arriving, rest, n);
        Store(rest[..n]);
        rest := rest[n..];
        EnsureRoom();
      }
    }

    /** A new chunk when there is none or the last one is full. */
    method EnsureRoom()
      requires Valid()
      modifies this`chunks
      ensures Valid() && Contents() == old(Contents()) && chunks != [] && |chunks[|chunks| - 1]| < CHUNK
    {
      if chunks == [] || |chunks[|chunks| - 1]| >= CHUNK {
        FlatNew(chunks);
        chunks := chunks + [[]];
      }
    }

    method Store(s: seq<byte>)
      requires Valid() && chunks != [] && |chunks[|chunks| - 1]| + |s| <= CHUNK
      modifies this`chunks, this`total, this`received
      ensures Valid() && Contents() == old(Contents()) + s && received == old(received) + s && chunks != []
    {
      FlatLast(chunks, s);
      var n := |chunks| - 1;
      chunks := chunks[n := chunks[n] + s];
      total := total + |s|;
      received := received + s;
    }

    /** The peer has closed: what is buffered stays readable. */
    method Close()
      requires Valid()
      modifies this`open
      ensures Valid() && !open
    {
      open := false;
    }

    /** Search for the first LF, chunk by chunk, with int counters. */
    method FindLine() returns (ok: bool, has: bool, n: nat)
      requires Valid()
      ensures ok <==> Countable(chunks)
      ensures ok && has ==> n <= |Contents()| && FirstLine(Contents()[..n])
      ensures ok && !has ==> LF !in Contents()
    {
      hide LineLength, Flat, FirstLine, Countable;
      var c, i, oi := 0, 0, 0;
      n, has := 0, false;
      NoChunks(chunks);
      while c < |chunks|
        invariant c <= |chunks| && oi == |Flat(chunks[..c])| <= INT_MAX && LF !in Flat(chunks[..c])
        invariant i == if c == 0 then 0 else |chunks[c - 1]|
      {
        i := 0;
        ghost var before := Flat(chunks[..c]);
        Whole(chunks, c);
        while i < |chunks[c]| && chunks[c][i] != LF
          invariant i <= |chunks[c]| && LF !in chunks[c][..i]
        {
          i := i + 1;
        }
        if i < |chunks[c]| {
          LineEnds(before, chunks[c], Flat(chunks[c + 1..]), i);
          LineLengthIs(Contents(), oi + i + 1);
          HasLine(chunks);
          return oi + i + 1 <= INT_MAX, true, oi + i + 1;
        }
        assert chunks[c][..i] == chunks[c];
        if oi + i > INT_MAX {
          TooLong(chunks, c + 1);
          return false, false, 0;
        }
        oi := oi + i;
        c := c + 1;
      }
      assert chunks[..c] == chunks;
      NoLine(chunks);
      ok := oi + i <= INT_MAX;
    }

    /** lua_co_read_: a line up to the first LF, everything, or a number of bytes; what is there
        when the connection is closed.  Without enough bytes the caller waits.  before is the byte in front of
        the copy handed to Lua. */
    method Read(want: Want, before: byte) returns (a: Answer, ghost raw: seq<byte>)
      requires Valid()
      modifies this`chunks, this`total, this`taken
      ensures Valid() && taken == old(taken) + raw && received == old(received)
      ensures Contents() == old(Contents())[|raw|..]
      ensures a == Beyond <==> Undefined(old(chunks), want, before)
      ensures a != Beyond ==> Takes(old(Contents()), open, want, a, raw)
      ensures a == NotConnected <==> old(Contents()) == [] && !open
    {
      hide Countable, LineOf, Chomp;
      raw := [];
      if total < 1 { return if open then Later else NotConnected, raw; }
      var n := total;
      if want.Line? {
        var ok, has;
        ok, has, n := FindLine();
        if !ok { return Beyond, raw; }
        if !has { return Later, raw; }
        LineInside(Contents(), n);
      } else if want.Count? {
        n := want.n;
      }
      if !open && n > total { n := total; }
      if 0 < n <= total {
        var s := Take(n);
        raw := s;
        if want.Line? && s == [LF] && before == CR { return Beyond, raw; }
        if want.Line? { ChompIs(s); }
        return Data(if want.Line? then Chomp(s) else s), raw;
      }
      return Later, raw;
    }

    /** lua_co_read: the argument as Lua gives it. */
    method LuaRead(arg: Arg, before: byte) returns (a: Answer, ghost raw: seq<byte>)
      requires Valid()
      modifies this`chunks, this`total, this`taken
      ensures Valid() && taken == old(taken) + raw && received == old(received)
      ensures Contents() == old(Contents())[|raw|..]
      ensures a == Beyond <==> Undefined(old(chunks), WantOf(arg), before)
      ensures a != Beyond ==> Takes(old(Contents()), open, WantOf(arg), a, raw)
    {
      hide Undefined, Takes;
      a, raw := Read(WantOf(arg), before);
    }

    /** Copy n bytes out, dropping chunks that are used up. */
    method Take(n: nat) returns (s: seq<byte>)
      requires Valid() && n <= total
      modifies this`chunks, this`total, this`taken
      ensures Valid() && s == old(Contents())[..n] && Contents() == old(Contents())[n..]
      ensures taken == old(taken) + s && received == old(received)
    {
      hide Flat;
      s := [];
      ghost var all := Contents();
      while |s| < n
        invariant |s| <= n <= |all| && s == all[..|s|] && Contents() == all[|s|..]
        invariant forall i :: 0 <= i < |chunks| ==> |chunks[i]| <= CHUNK
        invariant total == old(total) && taken == old(taken) && received == old(received)
        decreases |chunks|, n - |s|
      {
        SomeChunk(chunks);
        var c := chunks[0];
        var m := if |c| + |s| > n then n - |s| else |c|;
        Copied(all, s, c, Flat(chunks[1..]), m);
        Shorten(chunks, m);
        s := s + c[..m];
        if |s| >= n {
          chunks := [c[m..]] + chunks[1..];
        } else {
          chunks := chunks[1..];
        }
      }
      total := total - n;
      taken := taken + s;
    }
  }

  lemma SomeChunk(chunks: seq<seq<byte>>)
    requires Flat(chunks) != []
    ensures chunks != [] && Flat(chunks) == chunks[0] + Flat(chunks[1..])
  {
  }

  /** The bytes copied out of the first chunk continue what was copied before. */
  lemma Copied(all: seq<byte>, s: seq<byte>, c: seq<byte>, rest: seq<byte>, m: nat)
    requires |s| <= |all| && s == all[..|s|] && all[|s|..] == c + rest && m <= |c|
    ensures |s| + m <= |all| && s + c[..m] == all[..|s| + m] && all[|s| + m..] == c[m..] + rest
    ensures m == |c| ==> all[|s| + m..] == rest
  {
    assert all == s + (c + rest);
    assert all[|s|..][m..] == all[|s| + m..];
  }

  /** What a call takes from the buffered bytes c: nothing, or a stretch at their front. */
  ghost predicate Takes(c: seq<byte>, open: bool, want: Want, a: Answer, raw: seq<byte>) {
    && raw <= c
    && match want
       case Line => if LF in c then FirstLine(raw) && a.Data? && LineOf(raw, a.s) else raw == [] && !a.Data?
       case Everything => raw == c && (c != [] ==> a == Data(c))
       case Count(n) =>
         if 0 < n <= |c| then |raw| == n && a == Data(raw)
         else if 0 < n && !open && c != [] then raw == c && a == Data(c)
         else raw == [] && !a.Data?
  }

  function Portion(size: nat, room: nat, avail: nat): (n: nat)
    requires room > 0 && avail > 0
    ensures 1 <= n <= room && n <= avail
  {
    var n := if size == 0 then 1 else size;
    var m := if n > room then room else n;
    if m > avail then avail else m
  }

  lemma Advance(all: seq<byte>, rest: seq<byte>, n: nat)
    requires |rest| <= |all| && rest == all[|all| - |rest|..] && n <= |rest|
    ensures var d := |all| - |rest|; all[..d] + rest[..n] == all[..d + n] && rest[n..] == all[d + n..]
  {
  }

  lemma LineInside(c: seq<byte>, n: nat)
    requires n <= |c| && FirstLine(c[..n])
    ensures LF in c && (c[..n] == [LF] <==> c[0] == LF)
  {
    assert c[n - 1] == LF;
    assert c[0] == c[..n][0];
  }

  lemma NoChunks(chunks: seq<seq<byte>>)
    ensures Flat(chunks[..0]) == []
  {
  }

  lemma HasLine(chunks: seq<seq<byte>>)
    requires LF in Flat(chunks)
    ensures Countable(chunks) <==> LineLength(Flat(chunks)) <= INT_MAX
  {
  }

  lemma NoLine(chunks: seq<seq<byte>>)
    requires LF !in Flat(chunks)
    ensures Countable(chunks) <==> |Flat(chunks)| + |LastChunk(chunks)| <= INT_MAX
  {
  }

  /** No LF within more bytes than an int counts. */
  lemma TooLong(chunks: seq<seq<byte>>, c: nat)
    requires c <= |chunks| && |Flat(chunks[..c])| > INT_MAX && LF !in Flat(chunks[..c])
    ensures !Countable(chunks)
  {
    FlatSplit(chunks, c);
    LateLine(Flat(chunks[..c]), Flat(chunks[c..]));
  }

  lemma {:induction false} LateLine(a: seq<byte>, b: seq<byte>)
    requires LF !in a
    ensures LineLength(a + b) >= |a|
  {
    if a != [] {
      assert (a + b)[0] == a[0] && (a + b)[1..] == a[1..] + b;
      assert a[0] in a;
      LateLine(a[1..], b);
    }
  }

  lemma Whole(chunks: seq<seq<byte>>, c: nat)
    requires c < |chunks|
    ensures Flat(chunks) == Flat(chunks[..c]) + (chunks[c] + Flat(chunks[c + 1..]))
    ensures Flat(chunks[..c + 1]) == Flat(chunks[..c]) + chunks[c]
  {
    hide Flat;
    FlatSplit(chunks, c);
    FlatSplit(chunks[..c + 1], c);
    assert chunks[..c + 1][..c] == chunks[..c] && chunks[..c + 1][c..] == [chunks[c]];
    FlatCons(chunks, c);
    FlatOne(chunks[c]);
  }

  lemma FlatCons(chunks: seq<seq<byte>>, c: nat)
    requires c < |chunks|
    ensures Flat(chunks[c..]) == chunks[c] + Flat(chunks[c + 1..])
  {
    assert chunks[c..][1..] == chunks[c + 1..];
  }

  lemma FlatOne(b: seq<byte>)
    ensures Flat([b]) == b
  {
    assert [b][1..] == [];
  }

  lemma LineEnds(a: seq<byte>, b: seq<byte>, c: seq<byte>, i: nat)
    requires LF !in a && i < |b| && b[i] == LF && LF !in b[..i]
    ensures FirstLine((a + (b + c))[..|a| + i + 1])
  {
    var s := (a + (b + c))[..|a| + i + 1];
    assert s == a + b[..i] + [LF];
  }

  lemma Shorten(chunks: seq<seq<byte>>, m: nat)
    requires chunks != [] && m <= |chunks[0]|
    ensures Flat([chunks[0][m..]] + chunks[1..]) == chunks[0][m..] + Flat(chunks[1..])
  {
    assert ([chunks[0][m..]] + chunks[1..])[1..] == chunks[1..];
  }
}
