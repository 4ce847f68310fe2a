/**
 A whole insertion next to the protocol: pages come from the allocator, the pages of the descent are copied from the
 root down, the pages that the cuts need are allocated, and one edit links them.  Every one of these is a step of
 the protocol, so that its invariant holds all along.
 */
module TreeRun {
  import opened Common
  import opened BTree
  import opened BTreeInsert
  import FreeList
  import opened TreeStep
  import FreeRefine
  import Mvcc

  /** The protocol's state shows the allocator's lists and the reader table. */
  ghost predicate InStep(s: Mvcc.State, src: FreeList.PageSource, readers: seq<FreeList.Reader>, txnid: nat)
    reads src, src.head
  {
    && src.Valid() && Mvcc.Inv(s) && FreeRefine.ShowsReaders(readers, s) && 0 < txnid
    && FreeRefine.Shows(s, src.recs, src.pglast, multiset(src.Loose()), src.next) && s.writer.value.id == txnid
  }

  /** Steps before the edit. */
  ghost predicate Prepares(step: Mvcc.Step) {
    FreeRefine.Looks(step) || step.SAlloc? || step.STouch?
  }

  ghost predicate Leads(s: Mvcc.State, states: seq<Mvcc.State>, steps: seq<Mvcc.Step>, s': Mvcc.State) {
    && FreeRefine.Steps(states, steps) && states[0] == s && states[|steps|] == s'
    && forall i :: 0 <= i < |steps| ==> Prepares(steps[i])
  }

  lemma Stays(s: Mvcc.State)
    ensures Leads(s, [s], [], s)
  {
  }

  lemma Onwards(s: Mvcc.State, states: seq<Mvcc.State>, steps: seq<Mvcc.Step>, s1: Mvcc.State,
                more: seq<Mvcc.State>, moreSteps: seq<Mvcc.Step>, s2: Mvcc.State)
    requires Leads(s, states, steps, s1) && Leads(s1, more, moreSteps, s2)
    ensures |more| > 0 && Leads(s, states + more[1..], steps + moreSteps, s2)
  {
    hide FreeRefine.Steps, Prepares;
    StepsLength(more, moreSteps);
    FreeRefine.Chained(states, steps, more, moreSteps);
  }

  lemma StepsLength(states: seq<Mvcc.State>, steps: seq<Mvcc.Step>)
    requires FreeRefine.Steps(states, steps)
    ensures |states| == |steps| + 1
  {
  }

  lemma OneMore(s: Mvcc.State, states: seq<Mvcc.State>, steps: seq<Mvcc.Step>, s1: Mvcc.State, s2: Mvcc.State,
                step: Mvcc.Step)
    requires Leads(s, states, steps, s1) && Mvcc.Next(s1, s2, step) && Prepares(step)
    ensures Leads(s, states + [s2], steps + [step], s2)
  {
    hide Mvcc.Next, Prepares;
    FreeRefine.After1(states, steps, s2, step);
  }

  // ----- one page from the allocator ---------------------------------------------------------------------------

  /** What looking for pages does not change. */
  ghost predicate Same(s: Mvcc.State, s': Mvcc.State) {
    && s.writer.Some? && s'.writer.Some? && s'.file == s.file && s'.readers == s.readers
    && var w, w' := s.writer.value, s'.writer.value;
    && w'.id == w.id && w'.phase == w.phase && w'.roots == w.roots
    && w'.owned == w.owned && w'.spare == w.spare && w'.dirty == w.dirty
  }

  lemma {:induction false} LooksSame(states: seq<Mvcc.State>, steps: seq<Mvcc.Step>, n: nat)
    requires FreeRefine.Steps(states, steps) && n <= |steps| && states[0].writer.Some? && Mvcc.Inv(states[0])
    requires forall i :: 0 <= i < n ==> FreeRefine.Looks(steps[i])
    ensures Same(states[0], states[n]) && Mvcc.Inv(states[n])
  {
    hide Mvcc.Inv;
    if n > 0 {
      LooksSame(states, steps, n - 1);
      assert Mvcc.Next(states[n - 1], states[n], steps[n - 1]);
      Mvcc.StepInv(states[n - 1], states[n], steps[n - 1]);
    }
  }

  /** The writer with the page that an allocation returned, if it did. */
  ghost predicate Gained(w: Mvcc.Writer, w': Mvcc.Writer, r: Option<nat>) {
    && w'.owned == w.owned && (r.None? ==> w'.spare == w.spare && w'.dirty.Keys == w.dirty.Keys)
    && (r.Some? ==>
      r.value !in w.owned + w.spare && w'.spare == w.spare + {r.value} && w'.dirty.Keys == w.dirty.Keys + {r.value})
  }

  /** All that an allocation keeps. */
  ghost predicate Allocated(s: Mvcc.State, s': Mvcc.State, r: Option<nat>) {
    && s.writer.Some? && s'.writer.Some? && s'.file == s.file && s'.readers == s.readers
    && var w, w' := s.writer.value, s'.writer.value;
    && Gained(w, w', r) && w'.id == w.id && w'.phase == w.phase && w'.roots == w.roots
    && forall q :: q in w.dirty && Some(q) != r ==> q in w'.dirty && w'.dirty[q] == w.dirty[q]
  }

  /** A page taken is none of those in use. */
  lemma AllocGains(s: Mvcc.State, s': Mvcc.State, p: nat, content: Mvcc.Page)
    requires Mvcc.Inv(s) && Mvcc.Next(s, s', Mvcc.SAlloc(p, 1, content))
    ensures Allocated(s, s', Some(p))
  {
    hide Mvcc.Inv, Mvcc.Division, Interval, Mvcc.AllocReuse, Mvcc.AllocExtend, Mvcc.Next, Gained;
    NextAllocs(s, s', p, content);
    OnePage(p);
    Divided(s);
    var run := Interval(p, p + 1);
    var more: map<nat, Mvcc.Page> := map q | q in run :: content;
    GainedBy(s.writer.value, s'.writer.value, p, more);
  }

  lemma NextAllocs(s: Mvcc.State, s': Mvcc.State, p: nat, content: Mvcc.Page)
    requires Mvcc.Next(s, s', Mvcc.SAlloc(p, 1, content))
    ensures Mvcc.Alloc(s, s', p, 1, content)
  {
    hide Mvcc.Alloc;
  }

  lemma GainedBy(w: Mvcc.Writer, w': Mvcc.Writer, p: nat, more: map<nat, Mvcc.Page>)
    requires Mvcc.AllocReuse(w, w', {p}, more) || (p == w.next && Mvcc.AllocExtend(w, w', {p}, 1, more))
    requires w.loose !! w.owned + w.spare && more.Keys == {p} && forall q :: q in w.owned + w.spare ==> q < w.next
    ensures Gained(w, w', Some(p)) && w'.id == w.id && w'.phase == w.phase && w'.roots == w.roots
    ensures forall q :: q in w.dirty && q != p ==> q in w'.dirty && w'.dirty[q] == w.dirty[q]
  {
  }

  lemma OnePage(p: nat)
    ensures Interval(p, p + 1) == {p}
  {
  }

  lemma Divided(s: Mvcc.State)
    requires Mvcc.Inv(s) && s.writer.Some? && s.writer.value.phase.Active?
    ensures var w := s.writer.value; w.loose !! w.owned + w.spare && forall p :: p in w.owned + w.spare ==> p < w.next
  {
    hide Mvcc.Inv, Mvcc.WriterInv, Mvcc.Division, Mvcc.RecPages, Mvcc.Remaining;
    Mvcc.InvWriter(s);
    var w := s.writer.value;
    Mvcc.WriterNext(s, w);
    InOnePart(w.owned, w.spare, w.freed, w.loose, Mvcc.RecPages(Mvcc.Remaining(w.recs, w.pglast)), w.next);
  }

  lemma InOnePart(owned: set<nat>, spare: set<nat>, freed: set<nat>, loose: set<nat>, rest: set<nat>, next: nat)
    requires Mvcc.Division(owned, spare, freed, loose, rest, next)
    ensures loose !! owned + spare && forall p :: p in owned + spare ==> p < next
  {
    forall p | p in owned + spare ensures p !in loose && p < next {
      assert Mvcc.Bit(p in owned) + Mvcc.Bit(p in spare) + Mvcc.Bit(p in freed) + Mvcc.Bit(p in loose) +
        Mvcc.Bit(p in rest) == Mvcc.Bit(2 <= p < next);
    }
  }

  /** The tree is where it was. */
  lemma GainShown(s: Mvcc.State, s': Mvcc.State, r: Option<nat>, t: Placed, rest: map<nat, Mvcc.Page>,
                  others: set<nat>, pay: Body -> int)
    requires Shown(s, t, rest, others, pay) && Allocated(s, s', r)
    ensures Shown(s', t, rest, others, pay)
  {
    hide Holds, Nums, Apart, Mvcc.Tree;
    var w, w' := s.writer.value, s'.writer.value;
    assert Mvcc.View(s'.file, w'.owned, w'.dirty) == Mvcc.View(s.file, w.owned, w.dirty);
  }

  /** What the steps of an allocation do. */
  lemma AllocatedOne(states: seq<Mvcc.State>, steps: seq<Mvcc.Step>, r: Option<nat>, content: Mvcc.Page)
    requires FreeRefine.Steps(states, steps) && FreeRefine.AllocSteps(steps, r, 1, content)
    requires Mvcc.Inv(states[0]) && states[0].writer.Some?
    ensures Mvcc.Inv(states[|steps|]) && Allocated(states[0], states[|steps|], r)
    ensures Leads(states[0], states, steps, states[|steps|])
  {
    hide Mvcc.Inv, Mvcc.Next;
    var n := if r.Some? then |steps| - 1 else |steps|;
    LooksSame(states, steps, n);
    if r.Some? {
      assert Mvcc.Next(states[n], states[n + 1], steps[n]);
      Mvcc.StepInv(states[n], states[n + 1], steps[n]);
      AllocGains(states[n], states[n + 1], r.value, content);
    }
  }

  lemma ShownWriter(s: Mvcc.State, t: Placed, rest: map<nat, Mvcc.Page>, others: set<nat>, pay: Body -> int)
    requires Shown(s, t, rest, others, pay)
    ensures s.writer.Some? && s.writer.value.phase.Active? && Nums(t) <= s.writer.value.owned
  {
    hide Holds, Nums, Apart, Mvcc.Tree;
  }

  /** mdb_page_alloc for one page. */
  method NewPage(src: FreeList.PageSource, readers: array<FreeList.Reader>, txnid: nat, ghost s: Mvcc.State,
                 ghost content: Mvcc.Page)
    returns (r: Option<nat>, ghost s': Mvcc.State, ghost states: seq<Mvcc.State>, ghost steps: seq<Mvcc.Step>)
    requires InStep(s, src, readers[..], txnid)
    modifies src`head, src`pglast, src`next, src`dirtyRoom, src.head
    ensures InStep(s', src, readers[..], txnid) && (src.head == old(src.head) || fresh(src.head))
    ensures readers[..] == old(readers[..])
    ensures Leads(s, states, steps, s') && Allocated(s, s', r)
    ensures r.None? ==> FreeRefine.NoneLeft(src, readers[..], txnid, 1)
  {
    hide Mvcc.Inv, Mvcc.Next, Leads, FreeRefine.Steps, FreeRefine.AllocSteps, Gained, FreeRefine.NoneLeft;
    ghost var was := readers[..];
    r, states, steps := FreeRefine.AllocInStep(src, readers, txnid, 1, s, content);
    assert readers[..] == was;
    AllocatedOne(states, steps, r, content);
    StepsLength(states, steps);
    s' := states[|steps|];
    SameReaders(readers[..], s, s');
  }

  lemma SameReaders(readers: seq<FreeList.Reader>, s: Mvcc.State, s': Mvcc.State)
    requires FreeRefine.ShowsReaders(readers, s) && s'.readers == s.readers
    ensures FreeRefine.ShowsReaders(readers, s')
  {
  }

  // ----- copying the descent ---------------------------------------------------------------------------------------

  /** A page that is not in the tree makes no difference to which of its pages are clean. */
  lemma {:induction false} CleanSame(t: Placed, k: int, dirty: set<nat>, q: nat)
    requires q !in Nums(t)
    ensures Clean(t, k, dirty + {q}) == Clean(t, k, dirty) && CleanCount(t, k, dirty + {q}) == CleanCount(t, k, dirty)
  {
    hide NumsAll;
    if t.PBranch? {
      var i := ChildOf(t.keys, k);
      if i < |t.kids| {
        NumsOf(t.kids, i);
        CleanSame(t.kids[i], k, dirty, q);
      }
    }
  }

  /** Copying a page changes no list of the allocator and no reader. */
  lemma TouchInStep(s: Mvcc.State, p: nat, q: nat, recs: seq<FreeList.Rec>, pglast: nat, loose: multiset<nat>,
                    next: nat)
    requires FreeRefine.Shows(s, recs, pglast, loose, next) && p in s.file && Mvcc.Inv(s)
    requires Mvcc.Next(s, Touched(s, p, q), Mvcc.STouch(p, q)) && q in s.writer.value.dirty
    ensures var s' := Touched(s, p, q);
      && FreeRefine.Shows(s', recs, pglast, loose, next) && Mvcc.Inv(s') && s'.readers == s.readers
      && s'.writer.value.id == s.writer.value.id && s'.writer.value.spare == s.writer.value.spare - {q}
      && s'.writer.value.dirty.Keys == s.writer.value.dirty.Keys
  {
    hide Mvcc.Inv, Mvcc.Next, FreeRefine.RecMap, FreeRefine.Support;
    Mvcc.StepInv(s, Touched(s, p, q), Mvcc.STouch(p, q));
  }

  /** How far the copying is: t of the same tree is on the writer's pages, and nothing spare is left over. */
  ghost predicate Copying(s: Mvcc.State, s': Mvcc.State, t: Placed, t': Placed, dirty: set<nat>,
                          rest: map<nat, Mvcc.Page>, others: set<nat>, pay: Body -> int) {
    && s.writer.Some? && Shown(s', t', rest, others, pay) && Forget(t') == Forget(t)
    && dirty == s'.writer.value.dirty.Keys && s'.writer.value.spare == s.writer.value.spare
  }

  /** The page copied. */
  lemma CopyOne(s: Mvcc.State, s1: Mvcc.State, s2: Mvcc.State, t: Placed, t1: Placed, k: int, dirty: set<nat>, q: nat,
                rest: map<nat, Mvcc.Page>, others: set<nat>, pay: Body -> int)
    returns (s3: Mvcc.State, p: nat)
    requires Copying(s, s1, t, t1, dirty, rest, others, pay) && Clean(t1, k, dirty).Some?
    requires Shown(s2, t1, rest, others, pay)
    requires Gained(s1.writer.value, s2.writer.value, Some(q))
    ensures p in s2.file && s2.writer.Some? && s3 == Touched(s2, p, q) && Mvcc.Next(s2, s3, Mvcc.STouch(p, q))
    ensures q in s2.writer.value.dirty
    ensures var t2 := Moved(t1, k, dirty + {q}, q);
      && Copying(s, s3, t, t2, dirty + {q}, rest, others, pay)
      && CleanCount(t2, k, dirty + {q}) == CleanCount(t1, k, dirty) - 1
  {
    hide Shown, Mvcc.Next, Clean, CleanCount, Moved, Forget, Mvcc.Relink;
    ShownWriter(s1, t1, rest, others, pay);
    ShownWriter(s2, t1, rest, others, pay);
    CleanSame(t1, k, dirty, q);
    s3 := TouchShown(s2, t1, k, q, rest, others, pay);
    p := Clean(t1, k, dirty + {q}).value;
    MovedForgets(t1, k, dirty + {q}, q);
    OneLess(t1, k, dirty + {q}, q);
    assert s2.writer.value.spare - {q} == s1.writer.value.spare;
  }

  /** mdb_cursor_touch: every page of the descent that is not dirty is copied, from the root down. */
  method CopyDescent(src: FreeList.PageSource, readers: array<FreeList.Reader>, txnid: nat, t: Placed, k: int,
                     dirty: set<nat>, ghost s: Mvcc.State, ghost rest: map<nat, Mvcc.Page>, ghost others: set<nat>,
                     ghost pay: Body -> int, ghost content: Mvcc.Page)
    returns (ok: bool, t': Placed, ghost s': Mvcc.State, ghost states: seq<Mvcc.State>, ghost steps: seq<Mvcc.Step>)
    requires InStep(s, src, readers[..], txnid) && Shown(s, t, rest, others, pay) && dirty == s.writer.value.dirty.Keys
    modifies src`head, src`pglast, src`next, src`dirtyRoom, src.head
    ensures InStep(s', src, readers[..], txnid) && (src.head == old(src.head) || fresh(src.head))
    ensures readers[..] == old(readers[..])
    ensures Leads(s, states, steps, s') && Copying(s, s', t, t', s'.writer.value.dirty.Keys, rest, others, pay)
    ensures if ok then Path(t', k) <= s'.writer.value.dirty.Keys else FreeRefine.NoneLeft(src, readers[..], txnid, 1)
  {
    hide Shown, Leads, Mvcc.Next, Clean, CleanCount, Moved, Forget, Mvcc.Inv, Gained, Path, FreeRefine.Shows,
         FreeRefine.ShowsReaders, FreeRefine.NoneLeft;
    t', s', states, steps := t, s, [s], [];
    var dirty' := dirty;
    Stays(s);
    ShownWriter(s, t, rest, others, pay);
    while Clean(t', k, dirty').Some?
      invariant InStep(s', src, readers[..], txnid) && (src.head == old(src.head) || fresh(src.head))
      invariant readers[..] == old(readers[..])
      invariant Leads(s, states, steps, s') && Copying(s, s', t, t', dirty', rest, others, pay)
      decreases CleanCount(t', k, dirty')
    {
      var r;
      ghost var s1, more, moreSteps;
      r, s1, more, moreSteps := NewPage(src, readers, txnid, s', content);
      GainShown(s', s1, r, t', rest, others, pay);
      Onwards(s, states, steps, s', more, moreSteps, s1);
      states, steps := states + more[1..], steps + moreSteps;
      if r.None? {
        NoGain(s, s', s1, t, t', dirty', rest, others, pay);
        s' := s1;
        return false, t', s', states, steps;
      }
      ghost var s2, p := CopyOne(s, s', s1, t, t', k, dirty', r.value, rest, others, pay);
      TouchInStep(s1, p, r.value, src.recs, src.pglast, multiset(src.Loose()), src.next);
      OneMore(s, states, steps, s1, s2, Mvcc.STouch(p, r.value));
      SameReaders(readers[..], s1, s2);
      states, steps, s' := states + [s2], steps + [Mvcc.STouch(p, r.value)], s2;
      dirty' := dirty' + {r.value};
      t' := Moved(t', k, dirty', r.value);
    }
    AllDirty(t', k, dirty');
    ok := true;
  }

  lemma NoGain(s: Mvcc.State, s1: Mvcc.State, s2: Mvcc.State, t: Placed, t1: Placed, dirty: set<nat>,
               rest: map<nat, Mvcc.Page>, others: set<nat>, pay: Body -> int)
    requires Copying(s, s1, t, t1, dirty, rest, others, pay) && Shown(s2, t1, rest, others, pay)
    requires s2.writer.Some? && Gained(s1.writer.value, s2.writer.value, None)
    ensures Copying(s, s2, t, t1, dirty, rest, others, pay)
  {
    hide Shown, Forget;
  }

  lemma {:induction false} AllDirty(t: Placed, k: int, dirty: set<nat>)
    requires Clean(t, k, dirty).None?
    ensures Path(t, k) <= dirty
  {
    if t.PBranch? {
      var i := ChildOf(t.keys, k);
      if i < |t.kids| { AllDirty(t.kids[i], k, dirty); }
    }
  }

  // ----- the pages for the cuts ------------------------------------------------------------------------------------

  ghost predicate Grabbed(w: Mvcc.Writer, w': Mvcc.Writer, more: seq<nat>) {
    && Stock(w', more) && w'.owned == w.owned && w'.spare == w.spare + Taken(more, |more|)
    && w.dirty.Keys <= w'.dirty.Keys && Taken(more, |more|) !! w.spare
  }

  lemma GrabNone(w: Mvcc.Writer)
    ensures Grabbed(w, w, [])
  {
  }

  lemma GrabOne(w: Mvcc.Writer, w1: Mvcc.Writer, w2: Mvcc.Writer, more: seq<nat>, r: Option<nat>)
    requires Grabbed(w, w1, more) && Gained(w1, w2, r)
    ensures Grabbed(w, w2, if r.Some? then more + [r.value] else more)
  {
    if r.Some? {
      var all := more + [r.value];
      forall i | 0 <= i < |more| ensures more[i] in Taken(more, |more|) {}
      assert forall i :: 0 <= i < |more| ==> all[i] == more[i];
      TakenMore(all, |more|);
      assert Taken(all, |more|) == Taken(more, |more|);
    }
  }

  /** Pages one by one, as the cuts take them from the leaf up. */
  method SparePages(src: FreeList.PageSource, readers: array<FreeList.Reader>, txnid: nat, n: nat, ghost s: Mvcc.State,
                    ghost t: Placed, ghost rest: map<nat, Mvcc.Page>, ghost others: set<nat>, ghost pay: Body -> int,
                    ghost content: Mvcc.Page)
    returns (more: seq<nat>, ghost s': Mvcc.State, ghost states: seq<Mvcc.State>, ghost steps: seq<Mvcc.Step>)
    requires InStep(s, src, readers[..], txnid) && Shown(s, t, rest, others, pay)
    modifies src`head, src`pglast, src`next, src`dirtyRoom, src.head
    ensures InStep(s', src, readers[..], txnid) && (src.head == old(src.head) || fresh(src.head))
    ensures readers[..] == old(readers[..])
    ensures Leads(s, states, steps, s') && Shown(s', t, rest, others, pay) && |more| <= n
    ensures s.writer.Some? && s'.writer.Some? && Grabbed(s.writer.value, s'.writer.value, more)
    ensures |more| < n ==> FreeRefine.NoneLeft(src, readers[..], txnid, 1)
  {
    hide Shown, Leads, Mvcc.Inv, Gained, Grabbed, FreeRefine.Shows, FreeRefine.ShowsReaders, FreeRefine.NoneLeft;
    more, s', states, steps := [], s, [s], [];
    Stays(s);
    ShownWriter(s, t, rest, others, pay);
    GrabNone(s.writer.value);
    while |more| < n
      invariant InStep(s', src, readers[..], txnid) && (src.head == old(src.head) || fresh(src.head))
      invariant readers[..] == old(readers[..])
      invariant Leads(s, states, steps, s') && Shown(s', t, rest, others, pay) && |more| <= n
      invariant s.writer.Some? && s'.writer.Some? && Grabbed(s.writer.value, s'.writer.value, more)
    {
      var r;
      ghost var s1, moreStates, moreSteps;
      r, s1, moreStates, moreSteps := NewPage(src, readers, txnid, s', content);
      GainShown(s', s1, r, t, rest, others, pay);
      Onwards(s, states, steps, s', moreStates, moreSteps, s1);
      GrabOne(s.writer.value, s'.writer.value, s1.writer.value, more, r);
      states, steps, s' := states + moreStates[1..], steps + moreSteps, s1;
      if r.None? { return; }
      more := more + [r.value];
    }
  }

  // ----- the insertion ---------------------------------------------------------------------------------------------

  datatype Rc = Done | Full | NoPages

  /** An edit that only links pages changes no list of the allocator and no reader. */
  lemma EditInStep(s: Mvcc.State, s': Mvcc.State, roots: set<nat>, dirty: map<nat, Mvcc.Page>, added: set<nat>,
                   recs: seq<FreeList.Rec>, pglast: nat, loose: multiset<nat>, next: nat)
    requires FreeRefine.Shows(s, recs, pglast, loose, next) && Mvcc.Inv(s)
    requires Mvcc.Next(s, s', Mvcc.SEdit(roots, dirty, added, {}, {}))
    ensures FreeRefine.Shows(s', recs, pglast, loose, next) && Mvcc.Inv(s') && s'.readers == s.readers
    ensures s'.writer.value.id == s.writer.value.id && s'.writer.value.spare == s.writer.value.spare - added
  {
    hide Mvcc.Inv, FreeRefine.RecMap, FreeRefine.Support, Mvcc.Tree, Mvcc.View;
    Mvcc.StepInv(s, s', Mvcc.SEdit(roots, dirty, added, {}, {}));
    assert s.writer.value.loose + {} == s.writer.value.loose;
  }

  /** What the insertion leaves, in either case. */
  ghost predicate Result(rc: Rc, s: Mvcc.State, s': Mvcc.State, t: Placed, t': Placed, e: Entry, psize: nat,
                         states: seq<Mvcc.State>, steps: seq<Mvcc.Step>) {
    && s.writer.Some? && s'.writer.Some?
    && FreeRefine.Steps(states, steps) && states[0] == s && states[|steps|] == s'
    && (rc.Full? ==> Overflows(Forget(t), e, psize))
    && if rc.Done? then
         && !Overflows(Forget(t), e, psize) && steps != [] && steps[|steps| - 1].SEdit?
         && (forall i :: 0 <= i < |steps| - 1 ==> Prepares(steps[i]))
         && s'.writer.value.spare == s.writer.value.spare
       else
         Forget(t') == Forget(t) && forall i :: 0 <= i < |steps| ==> Prepares(steps[i])
  }

  lemma NotDone(rc: Rc, s: Mvcc.State, s': Mvcc.State, t: Placed, t': Placed, e: Entry, psize: nat,
                states: seq<Mvcc.State>, steps: seq<Mvcc.Step>)
    requires s.writer.Some? && s'.writer.Some? && Leads(s, states, steps, s') && Forget(t') == Forget(t)
    requires rc.NoPages? || (rc.Full? && Overflows(Forget(t), e, psize))
    ensures Result(rc, s, s', t, t', e, psize, states, steps)
  {
    hide Overflows, Forget, Prepares;
  }

  lemma EditLast(s: Mvcc.State, s1: Mvcc.State, s': Mvcc.State, t: Placed, t': Placed, e: Entry, psize: nat,
                 states: seq<Mvcc.State>, steps: seq<Mvcc.Step>, edit: Mvcc.Step)
    requires s.writer.Some? && s'.writer.Some? && Leads(s, states, steps, s1) && Mvcc.Next(s1, s', edit) && edit.SEdit?
    requires !Overflows(Forget(t), e, psize) && s'.writer.value.spare == s.writer.value.spare
    ensures Result(Done, s, s', t, t', e, psize, states + [s'], steps + [edit])
  {
    hide Overflows, Forget, Prepares, Mvcc.Next;
    FreeRefine.After1(states, steps, s', edit);
  }

  /** The code and the protocol side by side, for a whole mdb_cursor_put of a new key: allocating, copying the descent,
      cutting pages and linking them.  Whatever comes of it, the protocol's invariant holds, its state shows the
      allocator's lists, and the writer's pages hold a tree: the one with the entry, every page taken being part of
      it, or the old one. */
  method PutInSteps(src: FreeList.PageSource, readers: array<FreeList.Reader>, txnid: nat, t: Placed, e: Entry,
                    psize: nat, dirty: set<nat>, ghost s: Mvcc.State, ghost rest: map<nat, Mvcc.Page>,
                    ghost others: set<nat>, ghost pay: Body -> int, ghost content: Mvcc.Page)
    returns (rc: Rc, tree: Tree, ghost t': Placed, ghost s': Mvcc.State, ghost states: seq<Mvcc.State>,
             ghost steps: seq<Mvcc.Step>)
    requires InStep(s, src, readers[..], txnid) && Shown(s, t, rest, others, pay) && dirty == s.writer.value.dirty.Keys
    requires PageSize(psize) && WellFormed(Forget(t)) && Fits(Forget(t), psize) && e.key.len <= MAXKEYSIZE
    requires Absent(Entries(Forget(t)), e.key.rank)
    modifies src`head, src`pglast, src`next, src`dirtyRoom, src.head
    ensures InStep(s', src, readers[..], txnid) && Shown(s', t', rest, others, pay)
    ensures Result(rc, s, s', t, t', e, psize, states, steps)
    ensures rc.Done? ==> tree == Forget(t') && WellFormed(tree) && Fits(tree, psize)
    ensures rc.Done? ==> Entries(tree) == Inserted(Entries(Forget(t)), e)
    ensures rc.NoPages? ==> FreeRefine.NoneLeft(src, readers[..], txnid, 1)
  {
    hide Shown, Leads, Path, Shape, Fits, Absent, Entries, Inserted, After, Overflows, Result, NewPages, Stock, Taken,
         Mvcc.Next, Mvcc.Inv, FreeRefine.Shows, FreeRefine.ShowsReaders, FreeRefine.NoneLeft, Forget, Height, Rooted;
    ShownWriter(s, t, rest, others, pay);
    var ok, t1;
    ghost var s1;
    ok, t1, s1, states, steps := CopyDescent(src, readers, txnid, t, e.key.rank, dirty, s, rest, others, pay, content);
    t', s' := t1, s1;
    ShownWriter(s1, t1, rest, others, pay);
    if !ok {
      rc, tree := NoPages, Leaf([]);
      NotDone(rc, s, s', t, t', e, psize, states, steps);
      return;
    }
    var n;
    ok, tree, n := BTreeInsert.Put(Forget(t1), e, psize);
    if !ok {
      rc := Full;
      NotDone(rc, s, s', t, t', e, psize, states, steps);
      return;
    }
    var more;
    ghost var s2, moreStates, moreSteps;
    more, s2, moreStates, moreSteps := SparePages(src, readers, txnid, n, s1, t1, rest, others, pay, content);
    Onwards(s, states, steps, s1, moreStates, moreSteps, s2);
    states, steps, s' := states + moreStates[1..], steps + moreSteps, s2;
    if |more| < n {
      rc := NoPages;
      NotDone(rc, s, s', t, t', e, psize, states, steps);
      return;
    }
    rc := Done;
    WellShaped(Forget(t1));
    ghost var u;
    s', u := PutIsEdit(s2, t1, e, psize, more, rest, others, pay);
    ShownWriter(s', u, rest, others, pay);
    ghost var edit := Mvcc.SEdit({u.pg} + others, s'.writer.value.dirty, Taken(more, |more|), {}, {});
    EditInStep(s2, s', edit.roots, edit.dirty, edit.added, src.recs, src.pglast, multiset(src.Loose()), src.next);
    SameReaders(readers[..], s2, s');
    EditLast(s, s2, s', t, u, e, psize, states, steps, edit);
    t', states, steps := u, states + [s'], steps + [edit];
  }

  lemma WellShaped(t: Tree)
    requires WellFormed(t)
    ensures Shape(t) && t != Leaf([])
  {
  }

  // ----- the first key ---------------------------------------------------------------------------------------------

  /** The writer's pages hold the other trees only: this one is empty and has no root. */
  ghost predicate NoTree(s: Mvcc.State, rest: map<nat, Mvcc.Page>, others: set<nat>) {
    && s.writer.Some? && s.writer.value.phase.Active?
    && var w := s.writer.value;
    && w.owned <= s.file.Keys + w.dirty.Keys && w.owned == rest.Keys && w.roots == others
    && Mvcc.Tree(rest, others) && Mvcc.View(s.file, w.owned, w.dirty) == rest
  }

  lemma GainNoTree(s: Mvcc.State, s': Mvcc.State, r: Option<nat>, rest: map<nat, Mvcc.Page>, others: set<nat>)
    requires NoTree(s, rest, others) && Allocated(s, s', r)
    ensures NoTree(s', rest, others)
  {
    hide Mvcc.Tree;
    var w, w' := s.writer.value, s'.writer.value;
    assert Mvcc.View(s'.file, w'.owned, w'.dirty) == Mvcc.View(s.file, w.owned, w.dirty);
  }

  /** A root leaf with one entry, on a spare page. */
  lemma FirstIsEdit(s: Mvcc.State, e: Entry, q: nat, rest: map<nat, Mvcc.Page>, others: set<nat>, pay: Body -> int)
    returns (s': Mvcc.State)
    requires NoTree(s, rest, others) && Stock(s.writer.value, [q])
    ensures Shown(s', PLeaf(q, [e]), rest, others, pay)
    ensures Mvcc.Next(s, s', Mvcc.SEdit({q} + others, s'.writer.value.dirty, {q}, {}, {}))
  {
    hide Mvcc.Tree, Mvcc.View, Mvcc.Next;
    var w, t := s.writer.value, PLeaf(q, [e]);
    assert [q][0] == q;
    var writes := map[q := PageOf(t, pay)];
    var view := Mvcc.View(s.file, w.owned + {q}, w.dirty + writes);
    s' := s.(writer := Some(w.(roots := {q} + others, owned := w.owned + {q}, spare := w.spare - {q},
                               dirty := w.dirty + writes)));
    forall x | x in w.owned + {q} ensures x in view && x in rest + writes && view[x] == (rest + writes)[x] {
      ViewAfter(s.file, w.owned, w.dirty, {q}, writes, x);
    }
    ViewKeys(s.file, w.owned + {q}, w.dirty + writes);
    TreeHeld(view, t, rest, others, pay);
    EditTaken(s, s', {q} + others, {q}, writes);
  }

  /** The first key of a tree: a page is allocated and becomes its root. */
  method FirstInSteps(src: FreeList.PageSource, readers: array<FreeList.Reader>, txnid: nat, e: Entry,
                      ghost s: Mvcc.State, ghost rest: map<nat, Mvcc.Page>, ghost others: set<nat>,
                      ghost pay: Body -> int, ghost content: Mvcc.Page)
    returns (r: Option<nat>, ghost s': Mvcc.State, ghost states: seq<Mvcc.State>, ghost steps: seq<Mvcc.Step>)
    requires InStep(s, src, readers[..], txnid) && NoTree(s, rest, others)
    modifies src`head, src`pglast, src`next, src`dirtyRoom, src.head
    ensures InStep(s', src, readers[..], txnid) && FreeRefine.Steps(states, steps) && states[0] == s
    ensures states[|steps|] == s'
    ensures if r.Some? then Shown(s', PLeaf(r.value, [e]), rest, others, pay) else NoTree(s', rest, others)
    ensures s.writer.Some? && s'.writer.Some? && s'.writer.value.spare == s.writer.value.spare
    ensures r.None? ==> FreeRefine.NoneLeft(src, readers[..], txnid, 1)
  {
    hide Shown, NoTree, Mvcc.Next, Mvcc.Inv, FreeRefine.Shows, FreeRefine.ShowsReaders, FreeRefine.NoneLeft, Prepares,
         FreeRefine.Steps;
    r, s', states, steps := NewPage(src, readers, txnid, s, content);
    GainNoTree(s, s', r, rest, others);
    if r.Some? {
      ghost var s1, q := s', r.value;
      ghost var w := GainedStock(s, s1, q);
      s' := FirstIsEdit(s1, e, q, rest, others, pay);
      ShownWriter(s', PLeaf(q, [e]), rest, others, pay);
      ghost var edit := Mvcc.SEdit({q} + others, s'.writer.value.dirty, {q}, {}, {});
      EditInStep(s1, s', edit.roots, edit.dirty, edit.added, src.recs, src.pglast, multiset(src.Loose()), src.next);
      SameReaders(readers[..], s1, s');
      StepsLength(states, steps);
      FreeRefine.After1(states, steps, s', edit);
      states, steps := states + [s'], steps + [edit];
    }
  }

  lemma GainedStock(s: Mvcc.State, s': Mvcc.State, q: nat) returns (w: Mvcc.Writer)
    requires Allocated(s, s', Some(q))
    ensures w == s'.writer.value && Stock(w, [q]) && w.spare - {q} == s.writer.value.spare
  {
    w := s'.writer.value;
  }
}
