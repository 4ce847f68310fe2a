/**
 mdb_page_alloc, as it works on lists and records, is a sequence of steps of the page protocol:
 ask for the oldest reader, fetch records one by one, take the pages.
 */
module FreeRefine {
  import opened Common
  import opened FreeList
  import Mvcc

  ghost function Support(m: multiset<nat>): set<nat> {
    set x | x in m
  }

  /** The free DB as the protocol sees it. */
  ghost function RecMap(recs: seq<Rec>): map<nat, set<nat>> {
    map T | T in IdSet(recs) :: PagesOf(recs, T)
  }

  ghost function IdSet(recs: seq<Rec>): set<nat> {
    set i | 0 <= i < |recs| :: recs[i].id
  }

  ghost function PagesOf(recs: seq<Rec>, T: nat): set<nat> {
    set i, p | 0 <= i < |recs| && recs[i].id == T && p in multiset(recs[i].pages) :: p
  }

  lemma IdOrder(recs: seq<Rec>, i: nat, n: nat)
    requires FreeDb(recs) && i < |recs| && n < |recs|
    ensures recs[i].id < recs[n].id <==> i < n
  {
    hide Descending, Pages, Apart;
    if n < i { assert recs[n].id < recs[i].id; }
  }

  lemma PagesAt(recs: seq<Rec>, n: nat)
    requires FreeDb(recs) && n < |recs|
    ensures recs[n].id in RecMap(recs) && RecMap(recs)[recs[n].id] == Support(multiset(recs[n].pages))
  {
    hide Descending, Pages, Apart;
    var T := recs[n].id;
    assert T in IdSet(recs);
    forall p ensures p in PagesOf(recs, T) <==> p in multiset(recs[n].pages) {
      if p in PagesOf(recs, T) {
        var i :| 0 <= i < |recs| && recs[i].id == T && p in multiset(recs[i].pages);
        IdOrder(recs, i, n);
      }
    }
  }

  /** The writer's state shows the lists of the allocator. */
  ghost predicate Shows(s: Mvcc.State, recs: seq<Rec>, pglast: nat, loose: multiset<nat>, next: nat) {
    && s.writer.Some? && s.writer.value.phase.Active?
    && var w := s.writer.value;
    w.recs == RecMap(recs) && w.pglast == pglast && w.loose == Support(loose) && w.next == next
  }

  ghost predicate Steps(states: seq<Mvcc.State>, steps: seq<Mvcc.Step>) {
    |states| == |steps| + 1 && forall i :: 0 <= i < |steps| ==> Mvcc.Next(states[i], states[i + 1], steps[i])
  }

  /** Steps that only look for pages. */
  predicate Looks(step: Mvcc.Step) {
    step.SFindOldest? || step.SFetch?
  }

  /** An allocation: looking for pages, then taking them if there were any. */
  ghost predicate AllocSteps(steps: seq<Mvcc.Step>, r: Option<nat>, num: nat, content: Mvcc.Page) {
    && (r.Some? ==> steps != [] && steps[|steps| - 1] == Mvcc.SAlloc(r.value, num, content))
    && forall i :: 0 <= i < (if r.Some? then |steps| - 1 else |steps|) ==> Looks(steps[i])
  }

  /** Fetching the next record is the protocol's step for it. */
  lemma FetchRefines(s: Mvcc.State, recs: seq<Rec>, n: nat, pglast: nat, oldest: nat, loose: multiset<nat>, next: nat)
    returns (s': Mvcc.State)
    requires FreeDb(recs) && n < |recs| && n == After(recs, pglast) && recs[n].id < oldest
    requires Shows(s, recs, pglast, loose, next) && s.writer.value.oldest == Some(oldest)
    ensures Mvcc.Next(s, s', Mvcc.SFetch(recs[n].id)) && s'.writer.Some? && s'.writer.value.oldest == Some(oldest)
    ensures Shows(s', recs, recs[n].id, loose + multiset(recs[n].pages), next)
  {
    hide Descending, Pages, Apart;
    var w, T := s.writer.value, recs[n].id;
    PagesAt(recs, n);
    forall U | U in w.recs && w.pglast < U ensures T <= U {
      var i :| 0 <= i < |recs| && recs[i].id == U;
      IdOrder(recs, i, n);
    }
    s' := s.(writer := Some(w.(loose := w.loose + w.recs[T], pglast := T)));
    assert Support(loose + multiset(recs[n].pages)) == Support(loose) + Support(multiset(recs[n].pages));
  }

  lemma {:induction false} FetchAllRefines(s: Mvcc.State, recs: seq<Rec>, n: nat, upto: nat, pglast: nat, oldest: nat,
                                           loose: multiset<nat>, next: nat)
    returns (states: seq<Mvcc.State>, steps: seq<Mvcc.Step>)
    requires FreeDb(recs) && n <= upto <= |recs| && n == After(recs, pglast)
    requires forall k :: n <= k < upto ==> recs[k].id < oldest
    requires Shows(s, recs, pglast, loose, next) && s.writer.value.oldest == Some(oldest)
    ensures Steps(states, steps) && states[0] == s && forall i :: 0 <= i < |steps| ==> Looks(steps[i])
    ensures Shows(states[|states| - 1], recs, if n == upto then pglast else recs[upto - 1].id,
                  loose + RecPages(recs[n..upto]), next)
    decreases upto - n
  {
    hide FreeDb, RecMap, Support, Mvcc.Next, RecPages, After, Shows;
    if n == upto {
      NoRecords(recs, n);
      assert loose + multiset{} == loose;
      return [s], [];
    }
    var s1 := FetchRefines(s, recs, n, pglast, oldest, loose, next);
    AfterNext(recs, n);
    states, steps := FetchAllRefines(s1, recs, n + 1, upto, recs[n].id, oldest, loose + multiset(recs[n].pages), next);
    PagesCons(recs, n, upto);
    assert (loose + multiset(recs[n].pages)) + RecPages(recs[n + 1..upto]) ==
      loose + (multiset(recs[n].pages) + RecPages(recs[n + 1..upto]));
    Before(s, s1, states, steps, Mvcc.SFetch(recs[n].id));
    states, steps := [s] + states, [Mvcc.SFetch(recs[n].id)] + steps;
  }

  lemma Before(s: Mvcc.State, s1: Mvcc.State, states: seq<Mvcc.State>, steps: seq<Mvcc.Step>, step: Mvcc.Step)
    requires Steps(states, steps) && states[0] == s1 && Mvcc.Next(s, s1, step)
    ensures Steps([s] + states, [step] + steps)
  {
    hide Mvcc.Next;
    var a, b := [s] + states, [step] + steps;
    forall i | 0 <= i < |b| ensures Mvcc.Next(a[i], a[i + 1], b[i]) {
      if i > 0 { assert Mvcc.Next(states[i - 1], states[i], steps[i - 1]); }
    }
  }

  lemma {:induction false} PagesCons(recs: seq<Rec>, n: nat, upto: nat)
    requires n < upto <= |recs|
    ensures RecPages(recs[n..upto]) == multiset(recs[n].pages) + RecPages(recs[n + 1..upto])
    decreases upto
  {
    hide RecPages;
    LastRecord(recs, n, upto);
    if n + 1 == upto {
      NoRecords(recs, n);
      NoRecords(recs, upto);
    } else {
      PagesCons(recs, n, upto - 1);
      LastRecord(recs, n + 1, upto);
    }
  }

  lemma LastRecord(recs: seq<Rec>, n: nat, upto: nat)
    requires n < upto <= |recs|
    ensures RecPages(recs[n..upto]) == RecPages(recs[n..upto - 1]) + multiset(recs[upto - 1].pages)
  {
    var s := recs[n..upto];
    assert s[..|s| - 1] == recs[n..upto - 1];
  }

  lemma NoRecords(recs: seq<Rec>, n: nat)
    requires n <= |recs|
    ensures RecPages(recs[n..n]) == multiset{}
  {
    assert recs[n..n] == [];
  }

  /** Taking the pages is the protocol's allocation step. */
  lemma TakeRefines(s: Mvcc.State, recs: seq<Rec>, pglast: nat, num: nat, p: nat, avail: multiset<nat>,
                    loose: multiset<nat>, next: nat, next': nat, content: Mvcc.Page)
    returns (s': Mvcc.State)
    requires Shows(s, recs, pglast, avail, next) && 1 <= num && Once(avail)
    requires AllocResult(Some(p), num, avail, loose, next, next')
    ensures Mvcc.Next(s, s', Mvcc.SAlloc(p, num, content)) && Shows(s', recs, pglast, loose, next')
  {
    hide RecMap, Shows, Mvcc.Next, Support, RunIn;
    if exists q: nat :: RunIn(avail, q, num) {
      Taken(avail, loose, p, num);
      s' := ReuseRefines(s, recs, pglast, num, p, avail, loose, next, content);
    } else {
      s' := ExtendRefines(s, recs, pglast, num, avail, next, content);
    }
  }

  lemma ReuseRefines(s: Mvcc.State, recs: seq<Rec>, pglast: nat, num: nat, p: nat, avail: multiset<nat>,
                     loose: multiset<nat>, next: nat, content: Mvcc.Page)
    returns (s': Mvcc.State)
    requires Shows(s, recs, pglast, avail, next) && 1 <= num
    requires Support(loose) == Support(avail) - Interval(p, p + num) && Interval(p, p + num) <= Support(avail)
    ensures Mvcc.Next(s, s', Mvcc.SAlloc(p, num, content)) && Shows(s', recs, pglast, loose, next)
  {
    hide RecMap, Support, Interval;
    var w, run := s.writer.value, Interval(p, p + num);
    var more: map<nat, Mvcc.Page> := map q | q in run :: content;
    var w' := w.(loose := w.loose - run, spare := w.spare + run, dirty := w.dirty + more);
    s' := s.(writer := Some(w'));
    assert Mvcc.AllocReuse(w, w', run, more);
  }

  lemma ExtendRefines(s: Mvcc.State, recs: seq<Rec>, pglast: nat, num: nat, avail: multiset<nat>, next: nat,
                      content: Mvcc.Page)
    returns (s': Mvcc.State)
    requires Shows(s, recs, pglast, avail, next) && 1 <= num
    ensures Mvcc.Next(s, s', Mvcc.SAlloc(next, num, content)) && Shows(s', recs, pglast, avail, next + num)
  {
    hide RecMap, Support, Interval;
    var w, run := s.writer.value, Interval(next, next + num);
    var more: map<nat, Mvcc.Page> := map q | q in run :: content;
    var w' := w.(next := w.next + num, spare := w.spare + run, dirty := w.dirty + more);
    s' := s.(writer := Some(w'));
    assert Mvcc.AllocExtend(w, w', run, num, more);
  }

  lemma RunSet(p: nat, num: nat)
    ensures forall q: nat :: q in multiset(Run(p, num)) <==> p <= q < p + num
  {
    forall q: nat ensures q in multiset(Run(p, num)) <==> p <= q < p + num {
      var r := Run(p, num);
      if p <= q < p + num { assert r[p + num - 1 - q] == q; }
      if q in r { var i :| 0 <= i < num && r[i] == q; }
    }
  }

  lemma Taken(avail: multiset<nat>, loose: multiset<nat>, p: nat, num: nat)
    requires Once(avail) && avail == loose + multiset(Run(p, num))
    ensures Support(loose) == Support(avail) - Interval(p, p + num) && Interval(p, p + num) <= Support(avail)
  {
    RunSet(p, num);
    forall x: nat ensures x in loose <==> x in avail && !(p <= x < p + num) {
      assert avail[x] <= 1;
    }
  }

  /** Asking for the oldest reader and fetching records. */
  lemma LookRefines(s: Mvcc.State, recs: seq<Rec>, pglast: nat, upto: nat, oldest: nat, was: multiset<nat>,
                    avail: multiset<nat>, next: nat)
    returns (states: seq<Mvcc.State>, steps: seq<Mvcc.Step>)
    requires FreeDb(recs) && Shows(s, recs, pglast, was, next) && Mvcc.IsOldest(s, s.writer.value.id, oldest)
    requires Fetched(recs, After(recs, pglast), upto, oldest, was, avail)
    ensures Steps(states, steps) && states[0] == s
    ensures Shows(states[|steps|], recs, LastFetched(recs, pglast, upto), avail, next)
    ensures forall i :: 0 <= i < |steps| ==> Looks(steps[i])
  {
    hide FreeDb, RecMap, Support, Mvcc.IsOldest, After;
    var s1 := s.(writer := Some(s.writer.value.(oldest := Some(oldest))));
    states, steps := FetchAllRefines(s1, recs, After(recs, pglast), upto, pglast, oldest, was, next);
    Before(s, s1, states, steps, Mvcc.SFindOldest(oldest));
    states, steps := [s] + states, [Mvcc.SFindOldest(oldest)] + steps;
  }

  /** All of mdb_page_alloc: what it promises is a run of protocol steps to what it leaves behind. */
  lemma AllocRefines(s: Mvcc.State, recs: seq<Rec>, pglast: nat, upto: nat, oldest: nat, was: multiset<nat>,
                     avail: multiset<nat>, loose: multiset<nat>, next: nat, next': nat, num: nat, r: Option<nat>,
                     content: Mvcc.Page)
    returns (states: seq<Mvcc.State>, steps: seq<Mvcc.Step>)
    requires FreeDb(recs) && 1 <= num && Once(avail) && Shows(s, recs, pglast, was, next)
    requires Mvcc.IsOldest(s, s.writer.value.id, oldest)
    requires Fetched(recs, After(recs, pglast), upto, oldest, was, avail)
    requires AllocResult(r, num, avail, loose, next, next')
    ensures Steps(states, steps) && states[0] == s
    ensures Shows(states[|steps|], recs, LastFetched(recs, pglast, upto), loose, next')
    ensures AllocSteps(steps, r, num, content)
  {
    hide FreeDb, RecMap, Support, AllocResult, Once, Fetched, LastFetched, Shows, Mvcc.Next, Mvcc.IsOldest, Looks;
    states, steps := LookRefines(s, recs, pglast, upto, oldest, was, avail, next);
    NoneTaken(r, num, avail, loose, next, next');
    if r.Some? {
      var last := states[|steps|];
      var s2 := TakeRefines(last, recs, LastFetched(recs, pglast, upto), num, r.value, avail, loose, next, next',
                            content);
      After1(states, steps, s2, Mvcc.SAlloc(r.value, num, content));
      states, steps := states + [s2], steps + [Mvcc.SAlloc(r.value, num, content)];
    }
  }

  lemma NoneTaken(r: Option<nat>, num: nat, avail: multiset<nat>, loose: multiset<nat>, next: nat, next': nat)
    requires AllocResult(r, num, avail, loose, next, next')
    ensures r == None ==> loose == avail && next' == next
  {
  }

  lemma After1(states: seq<Mvcc.State>, steps: seq<Mvcc.Step>, s: Mvcc.State, step: Mvcc.Step)
    requires Steps(states, steps) && Mvcc.Next(states[|states| - 1], s, step)
    ensures Steps(states + [s], steps + [step])
  {
    hide Mvcc.Next;
    var a, b := states + [s], steps + [step];
    forall i | 0 <= i < |b| ensures Mvcc.Next(a[i], a[i + 1], b[i]) {
      if i < |steps| { assert Mvcc.Next(states[i], states[i + 1], steps[i]); }
    }
  }

  lemma Chained(states: seq<Mvcc.State>, steps: seq<Mvcc.Step>, more: seq<Mvcc.State>, moreSteps: seq<Mvcc.Step>)
    requires Steps(states, steps) && Steps(more, moreSteps) && more[0] == states[|steps|]
    ensures Steps(states + more[1..], steps + moreSteps) && (states + more[1..])[0] == states[0]
    ensures (states + more[1..])[|steps + moreSteps|] == more[|moreSteps|]
  {
    hide Mvcc.Next;
    var a, b := states + more[1..], steps + moreSteps;
    forall i | 0 <= i < |b| ensures Mvcc.Next(a[i], a[i + 1], b[i]) {
      if i < |steps| {
        assert Mvcc.Next(states[i], states[i + 1], steps[i]);
      } else {
        var j := i - |steps|;
        assert Mvcc.Next(more[j], more[j + 1], moreSteps[j]);
      }
    }
  }

  /** The reader table shows the readers of the protocol. */
  ghost predicate ShowsReaders(readers: seq<Reader>, s: Mvcc.State) {
    && (forall i :: 0 <= i < |readers| && readers[i].pid != 0 ==> readers[i].txnid in s.readers.Values)
    && (forall k :: k in s.readers ==>
      exists i :: 0 <= i < |readers| && readers[i].pid != 0 && readers[i].txnid == s.readers[k])
  }

  lemma OldestShown(readers: seq<Reader>, s: Mvcc.State, id: nat, oldest: nat)
    requires ShowsReaders(readers, s) && 0 < id && oldest <= id - 1
    requires forall r :: r in readers && r.pid != 0 ==> oldest <= r.txnid
    requires oldest == id - 1 || exists r :: r in readers && r.pid != 0 && oldest == r.txnid
    ensures Mvcc.IsOldest(s, id, oldest)
  {
    forall k | k in s.readers ensures oldest <= s.readers[k] {
      var i :| 0 <= i < |readers| && readers[i].pid != 0 && readers[i].txnid == s.readers[k];
      assert readers[i] in readers;
    }
  }

  /** The record is too recent for somebody: this transaction's predecessor or a reader. */
  ghost predicate Pinned(readers: seq<Reader>, txnid: nat, id: nat) {
    txnid <= id + 1 || exists r :: r in readers && r.pid != 0 && r.txnid <= id
  }

  /** No pages to be had: the dirty list is full, or nothing free is long enough, the records left are too recent
      and the map ends. */
  ghost predicate NoneLeft(src: PageSource, readers: seq<Reader>, txnid: nat, num: nat)
    reads src, src.head
    requires IsList(src.head)
  {
    src.dirtyRoom == 0 ||
    (&& (forall q: nat :: !RunIn(multiset(src.Loose()), q, num)) && src.next + num >= src.maxpg
     && var n := After(src.recs, src.pglast);
     n < |src.recs| ==> Pinned(readers, txnid, src.recs[n].id))
  }

  lemma WhyNone(src: PageSource, readers: seq<Reader>, txnid: nat, num: nat, oldest: nat, avail: multiset<nat>,
                next: nat)
    requires src.Valid() && 0 < txnid && AllocResult(None, num, avail, multiset(src.Loose()), next, src.next)
    requires !AllocSucceeds(num, avail, next, src.maxpg, src.dirtyRoom)
    requires var n := After(src.recs, src.pglast); 0 < src.dirtyRoom && n < |src.recs| ==> oldest <= src.recs[n].id
    requires oldest == txnid - 1 || exists r :: r in readers && r.pid != 0 && oldest == r.txnid
    ensures NoneLeft(src, readers, txnid, num)
  {
    hide RunIn, IsList, ApartFrom, FreeDb;
  }

  /** The code and the protocol side by side: finding the oldest reader and allocating, from a state that shows the
      lists, leads by protocol steps, the last one taking the pages returned, to one that shows the lists left. */
  method AllocInStep(src: PageSource, readers: array<Reader>, txnid: nat, num: nat, ghost s: Mvcc.State,
                     ghost content: Mvcc.Page)
    returns (r: Option<nat>, ghost states: seq<Mvcc.State>, ghost steps: seq<Mvcc.Step>)
    requires src.Valid() && 1 <= num && 0 < txnid && ShowsReaders(readers[..], s)
    requires Shows(s, src.recs, src.pglast, multiset(src.Loose()), src.next) && s.writer.value.id == txnid
    modifies src`head, src`pglast, src`next, src`dirtyRoom, src.head
    ensures src.Valid() && (src.head == old(src.head) || fresh(src.head)) && Steps(states, steps) && states[0] == s
    ensures Shows(states[|steps|], src.recs, src.pglast, multiset(src.Loose()), src.next)
    ensures AllocSteps(steps, r, num, content) && (r.None? ==> NoneLeft(src, readers[..], txnid, num))
  {
    hide FreeDb, RecMap, Support, AllocResult, Once, Fetched, IsList, ApartFrom, NeededAll, Mvcc.IsOldest,
         ShowsReaders, Steps, AllocSteps, AllocSucceeds, NoneLeft, RunIn;
    var oldest := FindOldest(txnid, readers);
    OldestShown(readers[..], s, txnid, oldest);
    ghost var was, pglast, next := multiset(src.Loose()), src.pglast, src.next;
    ghost var upto, avail;
    SourceDb(src);
    r, upto, avail := src.Alloc(num, oldest);
    states, steps := AllocRefines(s, src.recs, pglast, upto, oldest, was, avail, multiset(src.Loose()), next, src.next,
                                  num, r, content);
    if r.None? { WhyNone(src, readers[..], txnid, num, oldest, avail, next); }
  }

  lemma SourceDb(src: PageSource)
    requires src.Valid()
    ensures FreeDb(src.recs) && IsList(src.head)
  {
  }
}
