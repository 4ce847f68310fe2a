/**
 mdb_freelist_save: writing the free list back into the free DB.

 Every write to the free DB is itself a B+tree operation, so it may free and allocate
 pages and thereby change the very lists being saved.  `Effect` is what one such
 operation did to them; the loop is run against an arbitrary sequence of effects, and
 the result holds for each of them.
 */
module FreeSave {
  import opened Common
  import Mvcc
  import MidlSort

  /** A free-DB record: an ID list, or space reserved for one (its length word is 0). */
  datatype Slot = Idl(pages: seq<nat>) | Reserved(room: nat)

  /** me_pghead, me_pglast and mt_free_pgs after a B+tree operation on the free DB. */
  datatype Effect = Effect(head: seq<nat>, pglast: nat, freed: seq<nat>)

  function RoomAt(db: map<nat, Slot>, k: nat): nat {
    if k in db && db[k].Reserved? then db[k].room else 0
  }

  /** Reserved space in the records lo..hi. */
  ghost function Rooms(db: map<nat, Slot>, lo: nat, hi: nat): nat
    decreases hi - lo
  {
    if lo > hi then 0 else RoomAt(db, lo) + Rooms(db, lo + 1, hi)
  }

  lemma {:induction false} RoomsSame(db: map<nat, Slot>, db': map<nat, Slot>, lo: nat, hi: nat)
    requires forall k :: lo <= k <= hi ==> RoomAt(db, k) == RoomAt(db', k)
    ensures Rooms(db, lo, hi) == Rooms(db', lo, hi)
    decreases hi - lo
  {
    if lo <= hi {
      assert RoomAt(db, lo) == RoomAt(db', lo);
      RoomsSame(db, db', lo + 1, hi);
    }
  }

  predicate IsMin(k: nat, keys: set<nat>) {
    k in keys && forall j :: j in keys ==> k <= j
  }

  lemma {:induction false} MinExists(keys: set<nat>)
    requires keys != {}
    ensures exists k :: IsMin(k, keys)
    decreases |keys|
  {
    var k :| k in keys;
    if keys == {k} {
      assert IsMin(k, keys);
    } else {
      MinExists(keys - {k});
      var m :| IsMin(m, keys - {k});
      var least := if k < m then k else m;
      forall j | j in keys ensures least <= j { assert j == k || j in keys - {k}; }
      assert IsMin(least, keys);
    }
  }

  /** Records above pglast and below the transaction's own id. */
  ghost predicate KeepsRecords(orig: map<nat, Slot>, db: map<nat, Slot>, pglast: nat, id: nat) {
    forall k :: pglast < k < id ==> (k in db <==> k in orig) && (k in db ==> db[k] == orig[k])
  }

  lemma KeepsOnDelete(orig: map<nat, Slot>, db: map<nat, Slot>, pglast: nat, id: nat, k: nat)
    requires KeepsRecords(orig, db, pglast, id) && k <= pglast
    ensures KeepsRecords(orig, db - {k}, pglast, id)
  {
  }

  lemma KeepsLater(orig: map<nat, Slot>, db: map<nat, Slot>, pglast: nat, pglast': nat, id: nat)
    requires KeepsRecords(orig, db, pglast, id) && pglast <= pglast'
    ensures KeepsRecords(orig, db, pglast', id)
  {
  }

  /** mt_free_pgs only ever gains entries at its end. */
  ghost predicate Grew(a: seq<nat>, b: seq<nat>) {
    |a| <= |b| && b[..|a|] == a
  }

  lemma GrewSame(a: seq<nat>)
    ensures Grew(a, a)
  {
  }

  lemma GrewTrans(a: seq<nat>, b: seq<nat>, c: seq<nat>)
    requires Grew(a, b) && Grew(b, c)
    ensures Grew(a, c)
  {
    assert c[..|a|] == c[..|b|][..|a|];
  }

  ghost predicate OnlyReserved(db: map<nat, Slot>, headId: nat, pglast: nat) {
    forall k :: k in db && k <= pglast ==> headId <= k && db[k].Reserved?
  }

  /** me_pghead, me_pglast and mt_free_pgs, and what is still to happen to them. */
  datatype Lists = Lists(head: seq<nat>, pglast: nat, freed: seq<nat>, effects: seq<Effect>)

  /** The lists have become what the effects that happened since made of them, mt_free_pgs in any order. */
  ghost predicate Came(a: Lists, b: Lists) {
    && |b.effects| <= |a.effects| && b.effects == a.effects[|a.effects| - |b.effects|..]
    && var n := |a.effects| - |b.effects|;
    if n == 0 then b.head == a.head && b.pglast == a.pglast && multiset(b.freed) == multiset(a.freed)
    else var e := a.effects[n - 1]; b.head == e.head && b.pglast == e.pglast && multiset(b.freed) == multiset(e.freed)
  }

  lemma CameSame(a: Lists)
    ensures Came(a, a)
  {
  }

  lemma CameOn(a: Lists, b: Lists, c: Lists)
    requires Came(a, b) && Came(b, c)
    ensures Came(a, c)
  {
    var m := |b.effects| - |c.effects|;
    if m > 0 { assert b.effects[m - 1] == a.effects[|a.effects| - |b.effects| + m - 1]; }
  }

  /** An operation can leave that: me_pglast only moves to a later record, mt_free_pgs only grows. */
  predicate Possible(e: Effect, db: map<nat, Slot>, pglast: nat, freed: seq<nat>, id: nat) {
    && (e.pglast == pglast || (pglast < e.pglast < id && e.pglast in db))
    && |freed| <= |e.freed| < 0x8000_0000 && e.freed[..|freed|] == freed
    && (forall i :: 0 < i < |e.head| ==> e.head[i - 1] > e.head[i]) && (e.head == [] || 0 < e.pglast)
  }

  class Saver {
    var db: map<nat, Slot>     // the free DB
    var head: seq<nat>         // me_pghead
    var pglast: nat            // me_pglast
    var freed: seq<nat>        // mt_free_pgs
    var effects: seq<Effect>   // what the B+tree operations to come will do
    const id: nat              // mt_txnid
    const maxfree: nat         // me_maxfree_1pg
    ghost const orig: map<nat, Slot>
    ghost var broken: bool     // an operation has failed

    constructor (db: map<nat, Slot>, id: nat, maxfree: nat, head: seq<nat>, pglast: nat, freed: seq<nat>,
                 effects: seq<Effect>)
      requires forall k :: k in db ==> 1 <= k < id && db[k].Idl?
      requires Descending(head) && (head != [] ==> 0 < pglast) && (pglast == 0 || pglast in db)
      requires 0 < maxfree && 0 < id && |freed| < 0x8000_0000
      ensures this.db == db == orig && this.id == id && this.maxfree == maxfree && this.head == head
      ensures this.pglast == pglast
      ensures this.freed == freed && this.effects == effects && Valid(0) && !broken
    {
      broken := false;
      this.db, this.id, this.maxfree, this.orig := db, id, maxfree, db;
      this.head, this.pglast, this.freed, this.effects := head, pglast, freed, effects;
    }

    /** `done` is how far consumed records have been deleted. */
    ghost predicate Valid(done: nat)
      reads this
    {
      && Descending(head) && (head != [] ==> 0 < pglast) && pglast < id && done <= pglast && 0 < maxfree
      && (forall k :: k in db ==> 1 <= k <= id) && |freed| < 0x8000_0000
      && KeepsRecords(orig, db, pglast, id)
      && (done < pglast ==> pglast in db)
    }

    ghost function Now(): Lists
      reads this
    {
      Lists(head, pglast, freed, effects)
    }

    /** One B+tree operation on the free DB happens; false when it fails (or the effects run out). */
    method Disturb(ghost done: nat) returns (ok: bool)
      requires Valid(done) && !broken
      modifies this`head, this`pglast, this`freed, this`effects, this`broken
      ensures Valid(done) && Grew(old(freed), freed)
      ensures old(pglast) <= pglast && |effects| <= |old(effects)| && |old(freed)| <= |freed|
      ensures ok ==> |effects| < |old(effects)| && Came(old(Now()), Now())
      ensures ok <==> old(effects) != [] && Possible(old(effects)[0], db, old(pglast), old(freed), id)
      ensures ok <==> !broken
    {
      hide KeepsRecords;
      broken := true;
      if effects == [] { return false; }
      var e := effects[0];
      effects := effects[1..];
      if !Possible(e, db, pglast, freed, id) { return false; }
      Adjacent(e.head);
      KeepsLater(orig, db, pglast, e.pglast, id);
      head, pglast, freed := e.head, e.pglast, e.freed;
      ok, broken := true, false;
    }

    /** Delete consumed records, and any reserved ones before them, until me_pglast is gone. */
    method DeleteConsumed(done0: nat) returns (ok: bool, done: nat, reset: bool)
      requires Valid(done0) && !broken
      modifies this
      ensures Valid(done) && Grew(old(freed), freed) && old(pglast) <= pglast
      ensures (ok <==> !broken) && (ok ==> Came(old(Now()), Now()))
      ensures |effects| <= |old(effects)| && (id in db <==> id in old(db)) && (id in db ==> db[id] == old(db)[id])
      ensures ok ==> done == pglast
      ensures reset ==> forall k :: k in db ==> k > done
      ensures !reset ==> db == old(db) && done == done0
    {
      hide KeepsRecords, Grew, Descending, Came, Possible;
      GrewSame(freed);
      CameSame(Now());
      done, ok, reset := done0, true, false;
      while ok && done < pglast
        invariant Valid(done) && Grew(old(freed), freed) && old(pglast) <= pglast
        invariant |effects| <= |old(effects)| && (id in db <==> id in old(db)) && (id in db ==> db[id] == old(db)[id])
        invariant !reset ==> db == old(db) && done == done0
        invariant reset ==> forall k :: k in db ==> k > done
        invariant (ok <==> !broken) && (ok ==> Came(old(Now()), Now()))
        decreases |db|, ok
      {
        MinExists(db.Keys);
        var k :| IsMin(k, db.Keys);
        KeepsOnDelete(orig, db, pglast, id, k);
        done, db, reset := k, db - {k}, true;
        ghost var f, was := freed, Now();
        ok := Disturb(done);
        GrewTrans(old(freed), f, freed);
        if ok { CameOn(old(Now()), was, Now()); }
      }
    }

    /** One record with every page this transaction freed, rewritten until the list stops growing. */
    method SaveOwn(done: nat, freecnt0: nat) returns (ok: bool, freecnt: nat)
      requires Valid(done) && freecnt0 < |freed| && !broken
      modifies this
      ensures (ok <==> !broken) && (ok ==> Came(old(Now()), Now()))
      ensures Valid(done) && old(pglast) <= pglast && |effects| <= |old(effects)|
      ensures ok ==> |effects| < |old(effects)| && 0 < freecnt == |freed|
      ensures ok ==> id in db && db == old(db)[id := db[id]] && OwnRecord(db[id], freed)
    {
      hide KeepsRecords, Grew, Descending, Came, Possible;
      ok, freecnt := true, freecnt0;
      CameSame(Now());
      if freecnt0 == 0 { ok := Disturb(done); }
      while ok && freecnt < |freed|
        invariant Valid(done) && old(pglast) <= pglast && |effects| <= |old(effects)| && db == old(db)
        invariant freecnt0 <= freecnt <= |freed| && (freecnt == freecnt0 ==> freecnt < |freed|)
        invariant freecnt != freecnt0 ==> 0 < freecnt && (ok ==> |effects| < |old(effects)|)
        invariant (ok <==> !broken) && (ok ==> Came(old(Now()), Now()))
        decreases |effects|, ok
      {
        freecnt := |freed|;
        ghost var was := Now();
        ok := Disturb(done);
        if ok { CameOn(old(Now()), was, Now()); }
      }
      if !ok { return; }
      var sorted := SortList(freed);
      CameSorted(old(Now()), Now(), sorted);
      KeepsOnOwn(orig, db, pglast, id, Idl(sorted));
      freed := sorted;
      db := db[id := Idl(sorted)];
    }

    /** Size and key of the next record to reserve, as in the code's two branches on maxfree_1pg. */
    method NextRoom(headId: nat, used: nat) returns (room: nat)
      requires headId > 0 && 0 < maxfree
      ensures room == 0 || used < |head|
    {
      if |head| < used { return 0; }
      room := |head| - used;
      if room > maxfree && headId > 1 {
        room := room / headId;
        room := room + maxfree - room % (maxfree + 1);
      }
    }

    /** Delete what was consumed; if anything was, all reservations are gone too. */
    method Refresh(done0: nat, headId0: nat, headRoom0: nat, totalRoom0: nat, ghost freecnt: nat)
      returns (ok: bool, done: nat, headId: nat, headRoom: nat, totalRoom: nat)
      requires Valid(done0) && Tracked(db, headId0, headRoom0, totalRoom0, done0) && OwnSaved(db, id, freed, freecnt)
      requires !broken
      modifies this
      ensures (ok <==> !broken) && (ok ==> Came(old(Now()), Now()))
      ensures Valid(done) && Tracked(db, headId, headRoom, totalRoom, done) && OwnSaved(db, id, freed, freecnt)
      ensures |effects| <= |old(effects)| && (ok ==> done == pglast) && freecnt <= |freed|
    {
      hide KeepsRecords, Grew, Descending, OnlyReserved, Rooms, OwnSaved, Tracked, OwnRecord, Came;
      var reset;
      ghost var f, was := freed, db;
      ok, done, reset := DeleteConsumed(done0);
      OwnGrew(was, id, f, freed, freecnt);
      OwnSame(was, db, id, freed, freecnt);
      headId, headRoom, totalRoom := headId0, headRoom0, totalRoom0;
      if reset {
        headId, headRoom, totalRoom := done, 0, 0;
        NothingTracked(db, done);
      }
    }

    /** (Re)write the record headId with the room still missing. */
    method ReserveOne(done: nat, headId: nat, headRoom0: nat, totalRoom0: nat, ghost freecnt: nat)
      returns (ok: bool, headRoom: nat, totalRoom: nat)
      requires Valid(done) && Tracked(db, headId, headRoom0, totalRoom0, done) && OwnSaved(db, id, freed, freecnt)
      requires (0 < totalRoom0 || 0 < done) && !broken
      modifies this
      ensures (ok <==> !broken) && (ok ==> Came(old(Now()), Now()))
      ensures Valid(done) && Tracked(db, headId, headRoom, totalRoom, done) && OwnSaved(db, id, freed, freecnt)
      ensures |effects| <= |old(effects)| && (ok ==> |effects| < |old(effects)|) && freecnt <= |freed|
    {
      hide KeepsRecords, Grew, Descending, OnlyReserved, Rooms, OwnSaved, Tracked, OwnRecord, Came, Possible;
      TrackedPositive(db, headId, headRoom0, totalRoom0, done);
      var used := totalRoom0 - headRoom0;
      headRoom := NextRoom(headId, used);
      TrackedPut(db, headId, headRoom0, totalRoom0, headRoom, done);
      totalRoom := used + headRoom;
      ghost var was, f := db, freed;
      KeepsOnReserve(orig, db, pglast, id, headId, Reserved(headRoom));
      db := db[headId := Reserved(headRoom)];
      OwnSame(was, db, id, freed, freecnt);
      ok := Disturb(done);
      OwnGrew(db, id, f, freed, freecnt);
    }

    /** Reserve records until there is room for me_pghead, redoing everything the puts disturb. */
    method Reserve() returns (ok: bool, headId: nat)
      requires Valid(0) && db == orig && id !in db && (forall k :: k in db ==> db[k].Idl?) && !broken
      modifies this
      ensures (ok <==> !broken) && (ok ==> Came(old(Now()), Now()))
      ensures ok ==> Valid(pglast) && headId <= pglast && (0 < pglast ==> 0 < headId)
      ensures ok ==> OnlyReserved(db, headId, pglast) && |head| <= Rooms(db, headId, pglast)
      ensures ok ==> OwnSaved(db, id, freed, |freed|)
    {
      hide KeepsRecords, Grew, Descending, OnlyReserved, Rooms, OwnSaved, Tracked, OwnRecord, Came, Possible;
      var done: nat, headRoom: nat, totalRoom: nat, freecnt: nat := 0, 0, 0, 0;
      var more := 1;
      headId, ok := 0, true;
      NothingTracked(db, 0);
      OwnNothing(db, id, freed);
      CameSame(Now());
      if pglast > 0 {
        ghost var f := freed;
        ok := Disturb(done);
        OwnGrew(db, id, f, freed, 0);
      }
      while true
        invariant Valid(done) && Tracked(db, headId, headRoom, totalRoom, done) && OwnSaved(db, id, freed, freecnt)
        invariant freecnt <= |freed| && done < id
        invariant (ok <==> !broken) && (ok ==> Came(old(Now()), Now()))
        decreases |effects|, ok
      {
        if !ok { return; }
        ghost var now := Now();
        ok, done, headId, headRoom, totalRoom := Refresh(done, headId, headRoom, totalRoom, freecnt);
        if !ok { return; }
        CameOn(old(Now()), now, Now());
        now := Now();
        if freecnt < |freed| {
          ghost var was := db;
          ok, freecnt := SaveOwn(done, freecnt);
          if !ok { return; }
          CameOn(old(Now()), now, Now());
          OwnDone(db, id, freed);
          TrackedOther(was, db, headId, headRoom, totalRoom, done, id);
          continue;
        }
        if totalRoom >= |head| {
          if totalRoom == |head| { break; }
          more := more - 1;
          if more < 0 { break; }
        } else if headRoom >= maxfree && headId > 1 {
          TrackedDown(db, headId, headRoom, totalRoom, done);
          headId, headRoom := headId - 1, 0;
        }
        ok, headRoom, totalRoom := ReserveOne(done, headId, headRoom, totalRoom, freecnt);
        if ok { CameOn(old(Now()), now, Now()); }
      }
      TrackedDone(db, headId, headRoom, totalRoom, done);
    }

    /** Fill the reserved records: the lowest key gets the tail of me_pghead. */
    method Fill(headId: nat)
      requires Valid(pglast) && headId <= pglast && OnlyReserved(db, headId, pglast)
      requires |head| <= Rooms(db, headId, pglast)
      modifies this`db
      ensures Valid(pglast) && JoinDown(db, headId, pglast) == head
      ensures db.Keys == old(db).Keys && forall k :: k in db && pglast < k ==> db[k] == old(db)[k]
      ensures forall k :: k in db && k <= pglast ==> headId <= k
    {
      hide KeepsRecords, Descending, JoinDown, Rooms;
      var k, mopLen: nat := headId, |head|;
      assert head[mopLen..] == [];
      JoinNothing(db, headId);
      while mopLen > 0
        invariant Valid(pglast) && headId <= k <= pglast + 1 && mopLen <= |head|
        invariant db.Keys == old(db).Keys && forall j :: j in db && k <= j ==> db[j] == old(db)[j]
        invariant mopLen <= Rooms(db, k, pglast)
        invariant JoinDown(db, headId, k - 1) == head[mopLen..]
        decreases pglast + 1 - k
      {
        RoomsStep(db, k, pglast);
        ghost var was := db;
        var len := 0;
        if k in db {
          len := if db[k].room > mopLen then mopLen else db[k].room;
          KeepsOnReserve(orig, db, pglast, id, k, Idl(head[mopLen - len..mopLen]));
          db := db[k := Idl(head[mopLen - len..mopLen])];
        }
        assert head[mopLen - len..] == head[mopLen - len..mopLen] + head[mopLen..];
        FilledStep(was, db, headId, k, pglast, head[mopLen - len..mopLen]);
        mopLen := mopLen - len;
        k := k + 1;
      }
      JoinRest(db, headId, k, pglast);
      assert head[0..] == head;
    }

    /** The whole of mdb_freelist_save. */
    method Save() returns (ok: bool)
      requires Valid(0) && db == orig && id !in db && (forall k :: k in db ==> db[k].Idl?) && !broken
      modifies this
      ensures ok ==> Valid(pglast) && Saved(orig, db, head, pglast, freed, id) && Came(old(Now()), Now())
      ensures ok <==> !broken
    {
      hide KeepsRecords, Descending, JoinDown, Rooms, OnlyReserved, OwnRecord, Came;
      var headId;
      ok, headId := Reserve();
      if !ok { return; }
      ghost var was := db;
      Fill(headId);
      OwnSame(was, db, id, freed, |freed|);
      JoinBelow(db, headId, pglast);
    }
  }

  function PagesAt(db: map<nat, Slot>, k: nat): seq<nat> {
    if k in db && db[k].Idl? then db[k].pages else []
  }

  /** The records hi, hi-1, ..., lo joined. */
  ghost function JoinDown(db: map<nat, Slot>, lo: nat, hi: int): seq<nat>
    decreases hi
  {
    if lo > hi then [] else PagesAt(db, hi) + JoinDown(db, lo, hi - 1)
  }

  /** What the free DB holds after a successful save: records not consumed are untouched, this
      transaction's pages are one record, and me_pghead is exactly the join of the older records. */
  ghost predicate Saved(orig: map<nat, Slot>, db: map<nat, Slot>, head: seq<nat>, pglast: nat, freed: seq<nat>,
                        id: nat) {
    && KeepsRecords(orig, db, pglast, id)
    && JoinDown(db, 1, pglast) == head
    && OwnSaved(db, id, freed, |freed|)
  }

  lemma CameSorted(a: Lists, b: Lists, sorted: seq<nat>)
    requires Came(a, b) && multiset(sorted) == multiset(b.freed)
    ensures Came(a, b.(freed := sorted))
  {
  }

  lemma JoinNothing(db: map<nat, Slot>, lo: nat)
    ensures JoinDown(db, lo, lo - 1) == []
  {
  }

  lemma RoomsStep(db: map<nat, Slot>, k: nat, hi: nat)
    requires 0 < Rooms(db, k, hi)
    ensures k <= hi && Rooms(db, k, hi) == RoomAt(db, k) + Rooms(db, k + 1, hi)
  {
  }

  lemma {:induction false} JoinSame(db: map<nat, Slot>, db': map<nat, Slot>, lo: nat, hi: int)
    requires forall k :: lo <= k <= hi ==> PagesAt(db, k) == PagesAt(db', k)
    ensures JoinDown(db, lo, hi) == JoinDown(db', lo, hi)
    decreases hi
  {
    if lo <= hi {
      assert PagesAt(db, hi) == PagesAt(db', hi);
      JoinSame(db, db', lo, hi - 1);
    }
  }

  lemma FilledStep(db: map<nat, Slot>, db': map<nat, Slot>, lo: nat, k: nat, hi: nat, pages: seq<nat>)
    requires lo <= k <= hi && (if k in db then db' == db[k := Idl(pages)] else db' == db && pages == [])
    ensures JoinDown(db', lo, k) == pages + JoinDown(db, lo, k - 1)
    ensures Rooms(db', k + 1, hi) == Rooms(db, k + 1, hi)
  {
    JoinSame(db, db', lo, k - 1);
    RoomsSame(db, db', k + 1, hi);
  }

  /** Reserved records that were not needed count as empty lists. */
  lemma {:induction false} JoinRest(db: map<nat, Slot>, lo: nat, k: nat, hi: int)
    requires lo <= k <= hi + 1 && forall j :: j in db && k <= j <= hi ==> db[j].Reserved?
    ensures JoinDown(db, lo, hi) == JoinDown(db, lo, k - 1)
    decreases hi
  {
    if k <= hi {
      JoinRest(db, lo, k, hi - 1);
    }
  }

  lemma {:induction false} JoinBelow(db: map<nat, Slot>, lo: nat, hi: int)
    requires (forall k :: k in db && k <= hi ==> lo <= k) && 0 !in db && lo <= hi
    ensures JoinDown(db, 1, hi) == JoinDown(db, lo, hi)
    decreases hi
  {
    if lo == 0 {
      JoinFromOne(db, hi);
    } else if lo < hi {
      JoinBelow(db, lo, hi - 1);
    } else {
      JoinEmpty(db, 1, hi - 1);
    }
  }

  lemma {:induction false} JoinFromOne(db: map<nat, Slot>, hi: int)
    requires 0 !in db
    ensures JoinDown(db, 0, hi) == JoinDown(db, 1, hi)
    decreases hi
  {
    if hi > 0 { JoinFromOne(db, hi - 1); }
  }

  lemma {:induction false} JoinEmpty(db: map<nat, Slot>, lo: nat, hi: int)
    requires forall k :: lo <= k <= hi ==> k !in db
    ensures JoinDown(db, lo, hi) == []
    decreases hi
  {
    if lo <= hi { JoinEmpty(db, lo, hi - 1); }
  }

  /** The reserved records are those in headId..done, and the counters agree with them. */
  ghost predicate Tracked(db: map<nat, Slot>, headId: nat, headRoom: nat, totalRoom: nat, done: nat) {
    && headId <= done && (0 < done ==> 0 < headId) && 0 !in db
    && OnlyReserved(db, headId, done) && headRoom == RoomAt(db, headId) && totalRoom == Rooms(db, headId, done)
  }

  lemma NothingTracked(db: map<nat, Slot>, done: nat)
    requires 0 !in db && forall k :: k in db ==> k > done
    ensures Tracked(db, done, 0, 0, done)
  {
    assert Rooms(db, done, done) == RoomAt(db, done) + Rooms(db, done + 1, done);
  }

  lemma TrackedOther(db: map<nat, Slot>, db': map<nat, Slot>, headId: nat, headRoom: nat, totalRoom: nat, done: nat,
                     id: nat)
    requires Tracked(db, headId, headRoom, totalRoom, done) && done < id && id in db' && db' == db[id := db'[id]]
    ensures Tracked(db', headId, headRoom, totalRoom, done)
  {
    RoomsSame(db, db', headId, done);
  }

  lemma TrackedDown(db: map<nat, Slot>, headId: nat, headRoom: nat, totalRoom: nat, done: nat)
    requires Tracked(db, headId, headRoom, totalRoom, done) && headId > 1
    ensures Tracked(db, headId - 1, 0, totalRoom, done)
  {
  }

  lemma TrackedPositive(db: map<nat, Slot>, headId: nat, headRoom: nat, totalRoom: nat, done: nat)
    requires Tracked(db, headId, headRoom, totalRoom, done)
    ensures headRoom <= totalRoom && headId <= done && (0 < totalRoom || 0 < done ==> 0 < headId)
  {
  }

  lemma TrackedPut(db: map<nat, Slot>, headId: nat, headRoom: nat, totalRoom: nat, room: nat, done: nat)
    requires Tracked(db, headId, headRoom, totalRoom, done) && headRoom <= totalRoom && 0 < headId
    ensures Tracked(db[headId := Reserved(room)], headId, room, totalRoom - headRoom + room, done)
  {
    RoomsSame(db, db[headId := Reserved(room)], headId + 1, done);
  }

  /** The record of this transaction's freed pages as of the first freecnt of them. */
  ghost predicate OwnSaved(db: map<nat, Slot>, id: nat, freed: seq<nat>, freecnt: nat) {
    freecnt <= |freed| && if freecnt == 0 then id !in db else id in db && OwnRecord(db[id], freed[..freecnt])
  }

  lemma OwnNothing(db: map<nat, Slot>, id: nat, freed: seq<nat>)
    requires id !in db
    ensures OwnSaved(db, id, freed, 0)
  {
  }

  lemma OwnDone(db: map<nat, Slot>, id: nat, freed: seq<nat>)
    requires id in db && OwnRecord(db[id], freed) && freed != []
    ensures OwnSaved(db, id, freed, |freed|)
  {
    assert freed[..|freed|] == freed;
  }

  lemma OwnGrew(db: map<nat, Slot>, id: nat, freed: seq<nat>, freed': seq<nat>, freecnt: nat)
    requires OwnSaved(db, id, freed, freecnt) && Grew(freed, freed')
    ensures OwnSaved(db, id, freed', freecnt) && freecnt <= |freed'|
  {
    assert freed'[..freecnt] == freed'[..|freed|][..freecnt];
  }

  lemma OwnSame(db: map<nat, Slot>, db': map<nat, Slot>, id: nat, freed: seq<nat>, freecnt: nat)
    requires OwnSaved(db, id, freed, freecnt) && (id in db' <==> id in db) && (id in db' ==> db'[id] == db[id])
    ensures OwnSaved(db', id, freed, freecnt)
  {
  }

  lemma TrackedDone(db: map<nat, Slot>, headId: nat, headRoom: nat, totalRoom: nat, done: nat)
    requires Tracked(db, headId, headRoom, totalRoom, done)
    ensures headId <= done && (0 < done ==> 0 < headId) && OnlyReserved(db, headId, done)
    ensures totalRoom == Rooms(db, headId, done)
  {
  }

  /** The slot lists these pages in descending order. */
  ghost predicate OwnRecord(slot: Slot, freed: seq<nat>) {
    slot.Idl? && multiset(slot.pages) == multiset(freed) &&
      forall i, j :: 0 <= i < j < |slot.pages| ==> slot.pages[i] >= slot.pages[j]
  }

  lemma KeepsOnOwn(orig: map<nat, Slot>, db: map<nat, Slot>, pglast: nat, id: nat, slot: Slot)
    requires KeepsRecords(orig, db, pglast, id)
    ensures KeepsRecords(orig, db[id := slot], pglast, id)
  {
  }

  lemma KeepsOnReserve(orig: map<nat, Slot>, db: map<nat, Slot>, pglast: nat, id: nat, k: nat, slot: Slot)
    requires KeepsRecords(orig, db, pglast, id) && k <= pglast
    ensures KeepsRecords(orig, db[k := slot], pglast, id)
  {
  }

  /** mdb_midl_sort on a list held as a value. */
  method SortList(s: seq<nat>) returns (r: seq<nat>)
    requires |s| < 0x8000_0000
    ensures multiset(r) == multiset(s) && |r| == |s|
    ensures forall i, j :: 0 <= i < j < |r| ==> r[i] >= r[j]
  {
    var ids := new nat[|s| + 1](i requires 0 <= i <= |s| => if i == 0 then |s| else s[i - 1]);
    ghost var was := ids[..];
    assert was[1..|s| + 1] == s;
    MidlSort.Sort(ids);
    r := ids[1..];
    assert ids[..][1..|s| + 1] == r;
    forall i, j | 0 <= i < j < |r| ensures r[i] >= r[j] {
      assert ids[..][i + 1] >= ids[..][j + 1];
    }
  }

  lemma {:induction false} Adjacent(s: seq<nat>)
    requires forall i :: 0 < i < |s| ==> s[i - 1] > s[i]
    ensures Descending(s)
  {
    if |s| > 1 {
      var front := s[..|s| - 1];
      assert forall i :: 0 < i < |front| ==> front[i - 1] > front[i];
      Adjacent(front);
      assert s == front + [s[|s| - 1]];
      assert s[|s| - 2] > s[|s| - 1];
    }
  }

  // ----- A successful save is the Save step of the protocol -------------------------------

  ghost function SetOf(s: seq<nat>): set<nat> {
    set x | x in s
  }

  ghost function SetView(db: map<nat, Slot>): map<nat, set<nat>> {
    map k | k in db :: SetOf(PagesAt(db, k))
  }

  ghost function Leftovers(db: map<nat, Slot>, pglast: nat): map<nat, set<nat>> {
    map k | k in db && k <= pglast :: SetOf(PagesAt(db, k))
  }

  lemma {:induction false} JoinMember(db: map<nat, Slot>, lo: nat, hi: int, k: nat, x: nat)
    requires lo <= k <= hi && x in PagesAt(db, k)
    ensures x in JoinDown(db, lo, hi)
    decreases hi
  {
    if k < hi { JoinMember(db, lo, hi - 1, k, x); }
  }

  lemma {:induction false} JoinSource(db: map<nat, Slot>, lo: nat, hi: int, x: nat) returns (k: nat)
    requires x in JoinDown(db, lo, hi)
    ensures lo <= k <= hi && x in PagesAt(db, k)
    decreases hi
  {
    hide PagesAt;
    if x in PagesAt(db, hi) { k := hi; } else { k := JoinSource(db, lo, hi - 1, x); }
  }

  lemma {:induction false} JoinDisjoint(db: map<nat, Slot>, lo: nat, hi: int, j: nat, k: nat)
    requires Descending(JoinDown(db, lo, hi)) && lo <= j < k <= hi
    ensures SetOf(PagesAt(db, j)) !! SetOf(PagesAt(db, k))
    decreases hi
  {
    hide Descending, PagesAt;
    var top, rest := PagesAt(db, hi), JoinDown(db, lo, hi - 1);
    DescendingApart(top, rest);
    if k < hi {
      JoinDisjoint(db, lo, hi - 1, j, k);
    } else {
      forall x | x in PagesAt(db, j) ensures x in rest {
        JoinMember(db, lo, hi - 1, j, x);
      }
    }
  }

  lemma DescendingApart(s: seq<nat>, t: seq<nat>)
    requires Descending(s + t)
    ensures SetOf(s) !! SetOf(t) && Descending(t)
  {
    var all := s + t;
    forall i, j | 0 <= i < |s| && 0 <= j < |t| ensures s[i] != t[j] {
      assert all[i] > all[|s| + j];
    }
    forall i, j | 0 <= i < j < |t| ensures t[i] > t[j] {
      assert all[|s| + i] > all[|s| + j];
    }
  }

  lemma LeftoverPages(db: map<nat, Slot>, pglast: nat)
    requires 0 !in db && Descending(JoinDown(db, 1, pglast))
    ensures Mvcc.RecPages(Leftovers(db, pglast)) == SetOf(JoinDown(db, 1, pglast))
    ensures Mvcc.RecsDisjoint(Leftovers(db, pglast))
  {
    hide Descending, JoinDown, PagesAt, Mvcc.RecPages;
    LeftoverSets(db, pglast);
    var left := Leftovers(db, pglast);
    forall j, k | j in left && k in left && j != k ensures left[j] !! left[k] {
      if j < k { JoinDisjoint(db, 1, pglast, j, k); } else { JoinDisjoint(db, 1, pglast, k, j); }
    }
  }

  lemma LeftoverSets(db: map<nat, Slot>, pglast: nat)
    requires 0 !in db
    ensures Mvcc.RecPages(Leftovers(db, pglast)) == SetOf(JoinDown(db, 1, pglast))
  {
    hide JoinDown;
    var left, all := Leftovers(db, pglast), JoinDown(db, 1, pglast);
    forall x ensures x in Mvcc.RecPages(left) <==> x in SetOf(all) {
      if x in Mvcc.RecPages(left) {
        var k := Mvcc.RecordOf(left, x);
        JoinMember(db, 1, pglast, k, x);
      }
      if x in all {
        var k := JoinSource(db, 1, pglast, x);
        Mvcc.InRecord(left, k, x);
      }
    }
  }

  /** The free DB a successful save leaves behind, read as sets, is what the protocol's Save
      step writes: mdb_freelist_save refines Mvcc.Save. */
  lemma SaveRefines(orig: map<nat, Slot>, db: map<nat, Slot>, head: seq<nat>, freed: seq<nat>, s: Mvcc.State,
                    w: Mvcc.Writer)
    requires Saved(orig, db, head, w.pglast, freed, w.id) && Descending(head) && w.pglast < w.id
    requires (forall k :: k in db ==> 1 <= k <= w.id) && (forall k :: k in orig ==> k < w.id && orig[k].Idl?)
    requires s.writer == Some(w) && w.phase.Active? && w.spare == {}
    requires w.recs == SetView(orig) && w.loose == SetOf(head) && w.freed == SetOf(freed)
    ensures Mvcc.Save(s, s.(writer := Some(w.(recs := SetView(db), freed := {}, loose := {}, pglast := 0,
                                              phase := Mvcc.Saved))),
                      Leftovers(db, w.pglast))
  {
    var left := Leftovers(db, w.pglast);
    LeftoverPages(db, w.pglast);
    var rest, own := Mvcc.Remaining(w.recs, w.pglast), Mvcc.OwnRecord(w.id, w.freed);
    assert SetView(db) == left + rest + own by { SavedView(orig, db, head, freed, w.pglast, w.id); }
  }

  lemma SavedView(orig: map<nat, Slot>, db: map<nat, Slot>, head: seq<nat>, freed: seq<nat>, pglast: nat, id: nat)
    requires Saved(orig, db, head, pglast, freed, id) && pglast < id
    requires (forall k :: k in db ==> 1 <= k <= id) && (forall k :: k in orig ==> k < id && orig[k].Idl?)
    ensures SetView(db) ==
      Leftovers(db, pglast) + Mvcc.Remaining(SetView(orig), pglast) + Mvcc.OwnRecord(id, SetOf(freed))
  {
    hide JoinDown;
    var all := Leftovers(db, pglast) + Mvcc.Remaining(SetView(orig), pglast) + Mvcc.OwnRecord(id, SetOf(freed));
    if freed != [] {
      assert freed[..|freed|] == freed;
      SameSet(PagesAt(db, id), freed);
      assert freed[0] in SetOf(freed);
    }
    forall k ensures (k in SetView(db) <==> k in all) && (k in all ==> SetView(db)[k] == all[k]) {
    }
  }

  lemma SameSet(s: seq<nat>, t: seq<nat>)
    requires multiset(s) == multiset(t)
    ensures SetOf(s) == SetOf(t)
  {
    forall x ensures x in s <==> x in t {
      assert x in multiset(s) <==> x in multiset(t);
    }
  }
}
