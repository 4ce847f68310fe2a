/**
 The growing string buffer of strbuf.c, with sizes and lengths that are ints.  A method returns false
 where the code would overflow an int or write outside the buffer: it has no meaning from there on.
 Room says when that happens by sizes alone, and the buffer is proved to follow it.
 */
module Strbuf {
  import opened Common
  import opened Octets

  const DEFAULT_SIZE: nat := 1023

  /** The largest size the default one is doubled to within an int: 1023 times 2^21. */
  const LARGEST: nat := 0x7fe0_0000

  // ----- sizes ------------------------------------------------------------------------------------

  /** Doubling up to req; none when the int overflows on the way. */
  function Doubling(size: nat, req: nat): (r: Option<nat>)
    requires size > 0
    decreases req - size
  {
    if size >= req then Some(size) else if 2 * size > INT_MAX then None else Doubling(2 * size, req)
  }

  /** calculate_new_size: a request below the present size shrinks to fit. */
  function Grown(size: nat, len: nat): (r: Option<nat>)
    requires size > 0 && len > 0
  {
    if len >= INT_MAX then None else if size > len + 1 then Some(len + 1) else Doubling(size, len + 1)
  }

  /** A size reached from the default one by doubling. */
  ghost predicate Doubled(n: nat) {
    n == DEFAULT_SIZE || (n > DEFAULT_SIZE && n % 2 == 0 && Doubled(n / 2))
  }

  lemma {:induction false} DoubledApart(a: nat, b: nat)
    requires Doubled(a) && Doubled(b) && a < b
    ensures 2 * a <= b
    decreases a + b
  {
    if b / 2 < a { DoubledApart(b / 2, a); }
  }

  lemma Eightfold(n: nat)
    requires Doubled(n)
    ensures n >= DEFAULT_SIZE && Doubled(8 * n)
  {
    assert Doubled(2 * n);
    assert Doubled(4 * n);
  }

  lemma LargestDoubled()
    ensures Doubled(LARGEST)
  {
    hide Doubled;
    FirstDoubled();
    Eightfold(0x3ff);
    Eightfold(0x3ff * 0x8);
    Eightfold(0x3ff * 0x40);
    Eightfold(0x3ff * 0x200);
    Eightfold(0x3ff * 0x1000);
    Eightfold(0x3ff * 0x8000);
    Eightfold(0x3ff * 0x4_0000);
  }

  lemma FirstDoubled()
    ensures Doubled(DEFAULT_SIZE)
  {
  }

  /** From a doubled size every request up to the largest is met, and none above it. */
  lemma {:induction false} DoublingExact(size: nat, req: nat)
    requires Doubled(size) && size <= LARGEST
    ensures Doubling(size, req).Some? <==> req <= LARGEST
    ensures DEFAULT_SIZE <= size
    ensures Doubling(size, req).Some? ==>
      var n := Doubling(size, req).value; Doubled(n) && req <= n <= LARGEST && size <= n
    decreases req - size
  {
    if size < req {
      if size < LARGEST {
        LargestDoubled();
        DoubledApart(size, LARGEST);
        DoublingExact(2 * size, req);
      }
    }
  }

  /** calculate_new_size as it runs. */
  method NewSize(size: nat, len: nat) returns (r: Option<nat>)
    requires size > 0 && len > 0
    ensures r == Grown(size, len)
  {
    if len >= INT_MAX { return None; }
    var req := len + 1;
    if size > req { return Some(req); }
    var n := size;
    while n < req
      invariant n > 0 && Doubling(n, req) == Doubling(size, req)
      decreases req - n
    {
      if 2 * n > INT_MAX { return None; }
      n := n * 2;
    }
    return Some(n);
  }

  // ----- room -------------------------------------------------------------------------------------

  datatype Room = Room(size: nat, length: nat) | Broken

  /** A buffer that began with the default size. */
  ghost predicate Sized(r: Room) {
    r.Room? && Doubled(r.size) && DEFAULT_SIZE <= r.size <= LARGEST && r.length <= r.size
  }

  /** strbuf_ensure_empty_length. */
  function Ensured(r: Room, len: int): Room
    requires r.Room? ==> r.size > 0
  {
    if r.Broken? then Broken
    else if len <= r.size - r.length - 1 then r
    else if r.length + len > INT_MAX then Broken
    else match Grown(r.size, r.length + len) case Some(n) => Room(n, r.length) case None => Broken
  }

  /** k bytes written without looking. */
  function Unchecked(r: Room, k: nat): Room {
    if r.Broken? || r.length + k > r.size then Broken else Room(r.size, r.length + k)
  }

  /** strbuf_append_string of k bytes. */
  function Checked(r: Room, k: nat): (r': Room)
    requires r.Room? ==> r.size > 0
    ensures r'.Room? ==> r'.size > 0
  {
    if k == 0 then r else Unchecked(Ensured(Checked(r, k - 1), 1), 1)
  }

  /** Room is made exactly when length and request together stay below the largest size. */
  lemma EnsuredExact(r: Room, len: nat)
    requires Sized(r)
    ensures Ensured(r, len).Room? <==> r.length + len < LARGEST
    ensures var r' := Ensured(r, len); r'.Room? ==>
      (Sized(r') && r'.length == r.length && r'.length + len < r'.size && r.size <= r'.size)
  {
    hide Doubled, Doubling;
    if len > r.size - r.length - 1 && r.length + len < INT_MAX { DoublingExact(r.size, r.length + len + 1); }
  }

  /** The checked append fits exactly so, too, and leaves a buffer alone that is large enough. */
  lemma {:induction false} CheckedExact(r: Room, k: nat)
    requires Sized(r) && k > 0
    ensures Checked(r, k).Room? <==> r.length + k < LARGEST
    ensures var r' := Checked(r, k); r'.Room? ==>
      (Sized(r') && r'.length == r.length + k && (r.length + k < r.size ==> r'.size == r.size))
  {
    hide Doubled, Ensured;
    if k > 1 { CheckedExact(r, k - 1); }
    var p := Checked(r, k - 1);
    if p.Room? {
      EnsuredExact(p, 1);
      if p.length + 1 < p.size { EnoughLeft(p, 1); }
    } else {
      NothingLeft(1);
    }
  }

  lemma EnoughLeft(r: Room, len: int)
    requires r.Room? && r.size > 0 && len <= r.size - r.length - 1
    ensures Ensured(r, len) == r
  {
  }

  lemma NothingLeft(len: int)
    ensures Ensured(Broken, len) == Broken
  {
  }

  // ----- the buffer ---------------------------------------------------------------------------------

  class StrBuf {
    var buf: array<byte>
    var length: nat

    /** strbuf_new. */
    constructor (len: int)
      requires len < INT_MAX
      ensures Valid() && fresh(buf) && Contents() == [] && buf.Length == if len <= 0 then DEFAULT_SIZE else len + 1
    {
      buf := new byte[if len <= 0 then DEFAULT_SIZE else len + 1];
      length := 0;
    }

    ghost predicate Valid()
      reads this
    {
      0 < buf.Length && length <= buf.Length
    }

    ghost function Contents(): seq<byte>
      reads this, buf
      requires Valid()
    {
      buf[..length]
    }

    ghost function Shape(): Room
      reads this
    {
      Room(buf.Length, length)
    }

    method Reset()
      requires Valid()
      modifies this
      ensures Valid() && Contents() == [] && buf == old(buf)
    {
      length := 0;
    }

    /** strbuf_resize, to no less than the contents. */
    method Resize(len: nat) returns (ok: bool)
      requires Valid() && length <= len && len > 0
      modifies this
      ensures Valid() && Contents() == old(Contents()) && length == old(length) && (buf == old(buf) || fresh(buf))
      ensures ok <==> Grown(old(buf.Length), len).Some?
      ensures if ok then buf.Length == Grown(old(buf.Length), len).value else buf == old(buf)
    {
      var n := NewSize(buf.Length, len);
      if n.None? { return false; }
      GrownEnough(buf.Length, len);
      var c := new byte[n.value];
      forall i | 0 <= i < length { c[i] := buf[i]; }
      assert c[..length] == buf[..length];
      buf := c;
      return true;
    }

    method EnsureEmpty(len: int) returns (ok: bool)
      requires Valid()
      modifies this
      ensures Valid() && Contents() == old(Contents()) && length == old(length) && (buf == old(buf) || fresh(buf))
      ensures ok <==> Ensured(old(Shape()), len).Room?
      ensures ok ==> Shape() == Ensured(old(Shape()), len)
    {
      if len <= buf.Length - length - 1 { return true; }
      if length + len > INT_MAX { return false; }
      ok := Resize(length + len);
    }

    method AppendCharUnsafe(c: byte) returns (ok: bool)
      requires Valid()
      modifies this`length, buf
      ensures Valid() && (ok <==> Unchecked(old(Shape()), 1).Room?)
      ensures ok ==> Shape() == Unchecked(old(Shape()), 1) && Contents() == old(Contents()) + [c]
    {
      if length >= buf.Length { return false; }
      buf[length] := c;
      length := length + 1;
      return true;
    }

    method AppendMemUnsafe(s: seq<byte>) returns (ok: bool)
      requires Valid()
      modifies this`length, buf
      ensures Valid() && (ok <==> Unchecked(old(Shape()), |s|).Room?)
      ensures ok ==> Shape() == Unchecked(old(Shape()), |s|) && Contents() == old(Contents()) + s
    {
      if length + |s| > buf.Length { return false; }
      ghost var was := buf[..length];
      forall i | 0 <= i < |s| { buf[length + i] := s[i]; }
      assert buf[..length + |s|] == was + s;
      length := length + |s|;
      return true;
    }

    /** strbuf_append_mem, and strbuf_append_char for a single byte. */
    method AppendMem(s: seq<byte>) returns (ok: bool)
      requires Valid()
      modifies this, buf
      ensures Valid() && (buf == old(buf) || fresh(buf))
      ensures ok <==> Unchecked(Ensured(old(Shape()), |s|), |s|).Room?
      ensures ok ==> Shape() == Unchecked(Ensured(old(Shape()), |s|), |s|) && Contents() == old(Contents()) + s
    {
      ok := EnsureEmpty(|s|);
      if ok { ok := AppendMemUnsafe(s); }
    }

    /** strbuf_append_string: byte by byte, growing only when no space is left. */
    method AppendString(s: seq<byte>) returns (ok: bool)
      requires Valid()
      modifies this, buf
      ensures Valid() && (buf == old(buf) || fresh(buf))
      ensures ok <==> Checked(old(Shape()), |s|).Room?
      ensures ok ==> Shape() == Checked(old(Shape()), |s|) && Contents() == old(Contents()) + s
    {
      hide Ensured, Unchecked, Checked;
      var space := buf.Length - length - 1;
      CheckedNone(Shape());
      for i := 0 to |s|
        invariant Valid() && Contents() == old(Contents()) + s[..i] && (buf == old(buf) || fresh(buf))
        invariant space == buf.Length - length - 1 && Shape() == Checked(old(Shape()), i)
      {
        ghost var r := Shape();
        CheckedNext(old(Shape()), i);
        EnsuredOne(r);
        if space < 1 {
          ok := Resize(length + 1);
          if !ok {
            CheckedBroken(old(Shape()), i + 1, |s|);
            return;
          }
          space := buf.Length - length - 1;
        }
        ok := AppendCharUnsafe(s[i]);
        if !ok {
          CheckedBroken(old(Shape()), i + 1, |s|);
          return;
        }
        space := space - 1;
      }
      assert s[..|s|] == s;
      return true;
    }
  }

  lemma GrownEnough(size: nat, len: nat)
    requires size > 0 && len > 0
    ensures Grown(size, len).Some? ==> Grown(size, len).value > len
  {
    if len < INT_MAX && size <= len + 1 { DoublingEnough(size, len + 1); }
  }

  lemma {:induction false} DoublingEnough(size: nat, req: nat)
    requires size > 0
    ensures Doubling(size, req).Some? ==> Doubling(size, req).value >= req
    decreases req - size
  {
    if size < req && 2 * size <= INT_MAX { DoublingEnough(2 * size, req); }
  }

  lemma CheckedNone(r: Room)
    requires r.Room? ==> r.size > 0
    ensures Checked(r, 0) == r
  {
  }

  lemma CheckedNext(r: Room, k: nat)
    requires r.Room? ==> r.size > 0
    ensures Checked(r, k + 1) == Unchecked(Ensured(Checked(r, k), 1), 1)
  {
  }

  lemma EnsuredOne(r: Room)
    requires r.Room? && r.size > 0 && r.length <= r.size
    ensures r.size - r.length - 1 >= 1 ==> Ensured(r, 1) == r
    ensures r.size - r.length - 1 < 1 ==>
      var g := Grown(r.size, r.length + 1); Ensured(r, 1) == if g.Some? then Room(g.value, r.length) else Broken
    ensures Unchecked(Broken, 1) == Broken
  {
  }

  lemma {:induction false} CheckedBroken(r: Room, k: nat, n: nat)
    requires (r.Room? ==> r.size > 0) && k <= n && Checked(r, k).Broken?
    ensures Checked(r, n).Broken?
  {
    if k < n { CheckedBroken(r, k, n - 1); }
  }
}
