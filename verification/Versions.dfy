/**
 What a write transaction commits.  The version it publishes is the version published before it, changed by the steps
 of the transaction that touch pages or edit trees and by nothing else; the two versions agree on every page they
 share; and a reader sees, as long as it lasts, the version that was published last when it began.
 */
module Versions {
  import opened Common
  import opened Mvcc

  /** The trees of a version: their roots and their pages. */
  datatype Version = Version(roots: set<nat>, pages: map<nat, Page>)

  function VersionOf(sn: Snapshot): Version {
    Version(sn.roots, sn.pages)
  }

  // ----- the changes ---------------------------------------------------------------------------------------

  /** Page p is now q, here and in every page that points to it. */
  ghost function Renamed(pages: map<nat, Page>, p: nat, q: nat): map<nat, Page> {
    map x | x in pages.Keys - {p} + {q} && (if x == q then p else x) in pages ::
      var pg := pages[if x == q then p else x];
      Page(seq(|pg.kids|, i requires 0 <= i < |pg.kids| => if pg.kids[i] == p then q else pg.kids[i]), pg.payload)
  }

  /** Pages that an edit wrote, and the others as they were. */
  ghost function Rewritten(pages: map<nat, Page>, nums: set<nat>, written: map<nat, Page>): map<nat, Page> {
    map x | x in nums && (x in written || x in pages) :: if x in written then written[x] else pages[x]
  }

  /** What a step of a write transaction does to its version. */
  ghost function Changed(v: Version, st: Step): Version {
    match st
    case STouch(p, q) =>
      Version(if p in v.roots then v.roots - {p} + {q} else v.roots, Renamed(v.pages, p, q))
    case SEdit(roots, dirty, added, dropped, returned) =>
      Version(roots, Rewritten(v.pages, v.pages.Keys + added - dropped - returned, dirty))
    case _ => v
  }

  ghost function Replay(v: Version, steps: seq<Step>): Version {
    if steps == [] then v else Changed(Replay(v, steps[..|steps| - 1]), steps[|steps| - 1])
  }

  // ----- what the writer sees ------------------------------------------------------------------------------

  ghost function Seen(file: map<nat, Page>, owned: set<nat>, dirty: map<nat, Page>): map<nat, Page> {
    map p | p in owned && (p in dirty || p in file) :: if p in dirty then dirty[p] else file[p]
  }

  /** The version the writer has, dirty pages before the file. */
  ghost function Current(s: State): Version
    requires s.writer.Some?
  {
    var w := s.writer.value;
    Version(w.roots, Seen(s.file, w.owned, w.dirty))
  }

  lemma SeenIsView(file: map<nat, Page>, owned: set<nat>, dirty: map<nat, Page>)
    requires owned <= file.Keys + dirty.Keys
    ensures Seen(file, owned, dirty) == View(file, owned, dirty) && Seen(file, owned, dirty).Keys == owned
  {
  }

  /** A writer starts with the published version. */
  lemma BeginsWithPublished(s: State, s': State)
    requires Inv(s) && Next(s, s', SBeginWrite)
    ensures s.committed in s.hist && s'.writer.Some? && Current(s') == VersionOf(s.hist[s.committed])
    ensures !WroteMeta(s') && s'.committed == s.committed && s'.hist == s.hist
  {
    hide Inv, Tree, Partition, RecSafe, Live;
    CommittedFacts(s);
    BeginWriteView(s);
    SeenIsView(s.file, s.hist[s.committed].pages.Keys, map[]);
  }

  lemma TouchRenames(s: State, s': State, p: nat, q: nat)
    requires Inv(s) && Next(s, s', STouch(p, q))
    ensures s.writer.Some? && s'.writer.Some? && Current(s') == Changed(Current(s), STouch(p, q))
  {
    hide Inv, Tree, View, Seen, WriterInv;
    InvWriter(s);
    var w, w' := s.writer.value, s'.writer.value;
    WriterHas(s);
    TouchView(s.file, w.owned, w.dirty, p, q);
    SeenIsView(s.file, w.owned, w.dirty);
    SeenIsView(s.file, w'.owned, w'.dirty);
    RelinkedIsRenamed(View(s.file, w.owned, w.dirty), View(s.file, w'.owned, w'.dirty), p, q);
  }

  lemma WriterHas(s: State)
    requires Inv(s) && s.writer.Some? && !WroteMeta(s)
    ensures s.writer.value.owned <= s.file.Keys + s.writer.value.dirty.Keys
    ensures s.writer.value.spare <= s.writer.value.dirty.Keys
  {
    hide Inv, Tree, RecSafe, View, RecPages, RecsDisjoint, Fresh, Division, Remaining, Published, Range, WriterPhase;
    InvWriter(s);
  }

  lemma RelinkedIsRenamed(pages: map<nat, Page>, pages': map<nat, Page>, p: nat, q: nat)
    requires p in pages && q !in pages && pages'.Keys == pages.Keys - {p} + {q} && pages'[q] == Relink(pages[p], p, q)
    requires forall x :: x in pages && x != p ==> pages'[x] == Relink(pages[x], p, q)
    ensures pages' == Renamed(pages, p, q)
  {
    forall x | x in pages' ensures pages'[x] == Renamed(pages, p, q)[x] {
      RelinkIs(pages[if x == q then p else x], p, q);
    }
  }

  lemma RelinkIs(pg: Page, p: nat, q: nat)
    ensures Relink(pg, p, q) ==
      Page(seq(|pg.kids|, i requires 0 <= i < |pg.kids| => if pg.kids[i] == p then q else pg.kids[i]), pg.payload)
  {
  }

  lemma EditRewrites(s: State, s': State, st: Step)
    requires Inv(s) && Next(s, s', st) && st.SEdit?
    ensures s.writer.Some? && s'.writer.Some? && Current(s') == Changed(Current(s), st)
  {
    hide Inv, Tree, Seen, Rewritten, View;
    WriterHas(s);
    var w := s.writer.value;
    EditSeen(s.file, w.owned, w.dirty, st.dirty, w.spare, st.added, st.dropped, st.returned);
  }

  lemma EditSeen(file: map<nat, Page>, owned: set<nat>, dirty: map<nat, Page>, dirty': map<nat, Page>, spare: set<nat>,
                 added: set<nat>, dropped: set<nat>, returned: set<nat>)
    requires owned <= file.Keys + dirty.Keys && added <= spare <= dirty.Keys && dirty'.Keys == dirty.Keys - returned
    ensures var v := Seen(file, owned, dirty);
      Seen(file, owned + added - dropped - returned, dirty') ==
      Rewritten(v, v.Keys + added - dropped - returned, dirty')
  {
    assert Seen(file, owned, dirty).Keys == owned;
  }

  // ----- every step ----------------------------------------------------------------------------------------

  /** Steps that neither begin nor end the write transaction. */
  predicate Within(st: Step) {
    !st.SBeginWrite? && !st.SPublish? && !st.SAbort? && !st.SCrash?
  }

  /** Once its meta page is written, the new version is what the writer has. */
  ghost predicate Named(s: State) {
    s.writer.Some? &&
    (WroteMeta(s) ==> s.writer.value.id in s.hist && VersionOf(s.hist[s.writer.value.id]) == Current(s))
  }

  lemma AllocSeen(s: State, s': State, st: Step)
    requires Inv(s) && Next(s, s', st) && st.SAlloc?
    ensures s.writer.Some? && s'.writer.Some? && Current(s') == Current(s)
  {
    hide Inv, Tree, View, Seen, Division, WriterInv, Interval, Remaining, RecPages, AllocReuse, AllocExtend;
    WriterHas(s);
    InvWriter(s);
    var w, w' := s.writer.value, s'.writer.value;
    WriterNext(s, w);
    var run := Interval(st.pgno, st.pgno + st.num);
    var more := map p | p in run :: st.content;
    AllocApart(w, w', st.pgno, st.num, more, RecPages(Remaining(w.recs, w.pglast)));
    SeenMore(s.file, w.owned, w.dirty, more);
  }

  lemma AllocApart(w: Writer, w': Writer, pgno: nat, num: nat, more: map<nat, Page>, rest: set<nat>)
    requires Division(w.owned, w.spare, w.freed, w.loose, rest, w.next) && more.Keys == Interval(pgno, pgno + num)
    requires AllocReuse(w, w', more.Keys, more) || (pgno == w.next && AllocExtend(w, w', more.Keys, num, more))
    ensures more.Keys !! w.owned && w'.owned == w.owned && w'.roots == w.roots && w'.dirty == w.dirty + more
  {
    forall p | p in more.Keys ensures p !in w.owned {
      assert Bit(p in w.owned) + Bit(p in w.spare) + Bit(p in w.freed) + Bit(p in w.loose) + Bit(p in rest) ==
        Bit(2 <= p < w.next);
    }
  }

  lemma SeenMore(file: map<nat, Page>, owned: set<nat>, dirty: map<nat, Page>, more: map<nat, Page>)
    requires more.Keys !! owned
    ensures Seen(file, owned, dirty + more) == Seen(file, owned, dirty)
  {
  }

  lemma FlushSeen(s: State, s': State, st: Step)
    requires Next(s, s', st) && st.SFlush? && s.writer.Some?
    ensures s'.writer == s.writer && s'.hist == s.hist && Current(s') == Current(s)
  {
    var w := s.writer.value;
    assert Seen(s'.file, w.owned, w.dirty) == Seen(s.file, w.owned, w.dirty);
  }

  /** Steps that leave pages, roots and file alone. */
  predicate Aside(st: Step) {
    Within(st) && !st.SFlush? && !st.STouch? && !st.SEdit? && !st.SAlloc? && !st.SWriteMeta?
  }

  lemma AsideSame(s: State, s': State, st: Step)
    requires Next(s, s', st) && Aside(st) && s.writer.Some?
    ensures s'.writer.Some? && s'.hist == s.hist && s'.file == s.file && s'.committed == s.committed
    ensures var w, w' := s.writer.value, s'.writer.value;
      w'.roots == w.roots && w'.owned == w.owned && w'.dirty == w.dirty && w'.id == w.id
    ensures WroteMeta(s') == WroteMeta(s)
  {
    hide Tree, View, RecPages, RecsDisjoint, Remaining, OwnRecord, IsOldest;
  }

  /** A step within a write transaction changes the writer's version as it says. */
  lemma StepChanges(s: State, s': State, st: Step)
    requires Inv(s) && Next(s, s', st) && Within(st) && Named(s)
    ensures Named(s') && Current(s') == Changed(Current(s), st) && s'.committed == s.committed
    ensures forall t :: t in s.hist && t <= s.committed ==> t in s'.hist && s'.hist[t] == s.hist[t]
  {
    hide Inv, Next, Seen, Renamed, Rewritten;
    HistoryKept(s, s', st);
    StaysOpen(s, s', st);
    match st
    case STouch(p, q) => TouchRenames(s, s', p, q);
    case SEdit(_, _, _, _, _) => EditRewrites(s, s', st);
    case SAlloc(_, _, _) => AllocSeen(s, s', st);
    case SFlush(_) => FlushSeen(s, s', st);
    case SWriteMeta => MetaNames(s, s');
    case _ => AsideSame(s, s', st);
  }

  lemma StaysOpen(s: State, s': State, st: Step)
    requires Next(s, s', st) && Within(st) && s.writer.Some?
    ensures s'.writer.Some? && s'.committed == s.committed
    ensures st.STouch? || st.SEdit? || st.SAlloc? || st.SFlush? ==> !WroteMeta(s')
  {
    hide Tree, View, RecPages, RecsDisjoint, Remaining, OwnRecord, IsOldest, Relink;
  }

  lemma MetaNames(s: State, s': State)
    requires Inv(s) && Next(s, s', SWriteMeta) && s.writer.Some?
    ensures Named(s') && Current(s') == Current(s)
  {
    hide Inv, Tree, View, Seen;
    WriterHas(s);
    SeenIsView(s.file, s.writer.value.owned, s.writer.value.dirty);
  }

  // ----- whole transactions --------------------------------------------------------------------------------

  /** Steps i to j of the run are a write transaction that commits. */
  ghost predicate Commits(states: seq<State>, steps: seq<Step>, i: nat, j: nat) {
    && Run(states, steps) && i < j < |steps| && steps[i] == SBeginWrite && steps[j] == SPublish
    && forall k :: i < k < j ==> Within(steps[k])
  }

  lemma {:induction false} VersionBuilt(states: seq<State>, steps: seq<Step>, i: nat, k: nat)
    requires Run(states, steps) && i < k <= |steps| && steps[i] == SBeginWrite
    requires forall m :: i < m < k ==> Within(steps[m])
    ensures Named(states[k]) && states[k].committed == states[i].committed && states[i].committed in states[i].hist
    ensures Current(states[k]) == Replay(VersionOf(states[i].hist[states[i].committed]), steps[i + 1..k])
    decreases k
  {
    hide Inv, Next, Current, Changed;
    RunInv(states, steps, k - 1);
    if k == i + 1 {
      BeginsWithPublished(states[i], states[k]);
      assert steps[i + 1..k] == [];
    } else {
      VersionBuilt(states, steps, i, k - 1);
      StepChanges(states[k - 1], states[k], steps[k - 1]);
      assert steps[i + 1..k][..k - i - 2] == steps[i + 1..k - 1];
    }
  }

  /** What is committed is the version published before, changed by the transaction and by nothing else. */
  lemma CommitIsReplay(states: seq<State>, steps: seq<Step>, i: nat, j: nat)
    requires Commits(states, steps, i, j)
    ensures var s, s' := states[i], states[j + 1];
      && s'.committed == s.committed + 1 && s.committed in s.hist && s'.committed in s'.hist
      && VersionOf(s'.hist[s'.committed]) == Replay(VersionOf(s.hist[s.committed]), steps[i + 1..j])
  {
    hide Inv, Next, Current, Changed, Replay;
    VersionBuilt(states, steps, i, j);
    RunInv(states, steps, j);
    WriterId(states[j]);
    Publishes(states[j], states[j + 1]);
  }

  lemma Publishes(s: State, s': State)
    requires Next(s, s', SPublish)
    ensures WroteMeta(s) && s'.committed == s.writer.value.id && s'.hist == s.hist
  {
  }

  /** A transaction that touches and edits nothing publishes what was there. */
  lemma {:induction false} NothingChanged(v: Version, steps: seq<Step>)
    requires forall k :: 0 <= k < |steps| ==> !steps[k].STouch? && !steps[k].SEdit?
    ensures Replay(v, steps) == v
  {
    if steps != [] { NothingChanged(v, steps[..|steps| - 1]); }
  }

  lemma CommitOfNothing(states: seq<State>, steps: seq<Step>, i: nat, j: nat)
    requires Commits(states, steps, i, j) && forall k :: i < k < j ==> !steps[k].STouch? && !steps[k].SEdit?
    ensures var s, s' := states[i], states[j + 1];
      && s.committed in s.hist && s'.committed in s'.hist
      && VersionOf(s'.hist[s'.committed]) == VersionOf(s.hist[s.committed])
  {
    hide Inv, Next, Replay;
    CommitIsReplay(states, steps, i, j);
    NothingChanged(VersionOf(states[i].hist[states[i].committed]), steps[i + 1..j]);
  }

  // ----- shared pages --------------------------------------------------------------------------------------

  /** The writer has the pages of the published version as they are there. */
  ghost predicate Shares(s: State) {
    && s.writer.Some? && s.committed in s.hist
    && forall p :: p in Current(s).pages && p in s.hist[s.committed].pages ==>
      Current(s).pages[p] == s.hist[s.committed].pages[p]
  }

  lemma ClearShares(s: State)
    requires Inv(s) && s.writer.Some? && !WroteMeta(s)
    ensures Shares(s)
  {
    hide Inv, Live, Alive;
    CommittedMeta(s);
    IsLive(s);
    LiveAlive(s, s.committed);
    WriterAvoidsLive(s, s.committed);
    forall p | p in Current(s).pages && p in s.hist[s.committed].pages
      ensures Current(s).pages[p] == s.hist[s.committed].pages[p]
    {
      AliveAt(s.file, s.disk, s.hist[s.committed], p);
    }
  }

  lemma IsLive(s: State)
    ensures s.committed in Live(s)
  {
  }

  lemma {:induction false} AlwaysShares(states: seq<State>, steps: seq<Step>, i: nat, k: nat)
    requires Run(states, steps) && i < k <= |steps| && steps[i] == SBeginWrite
    requires forall m :: i < m < k ==> Within(steps[m])
    ensures Shares(states[k])
    decreases k
  {
    hide Inv, Next, Current, Changed, Replay;
    RunInv(states, steps, k);
    VersionBuilt(states, steps, i, k);
    if !WroteMeta(states[k]) {
      ClearShares(states[k]);
    } else {
      RunInv(states, steps, k - 1);
      if k == i + 1 { BeginsWithPublished(states[i], states[k]); }
      AlwaysShares(states, steps, i, k - 1);
      VersionBuilt(states, steps, i, k - 1);
      StepChanges(states[k - 1], states[k], steps[k - 1]);
      StaysOpen(states[k - 1], states[k], steps[k - 1]);
      SameVersion(Current(states[k - 1]), steps[k - 1]);
    }
  }

  lemma SameVersion(v: Version, st: Step)
    requires !st.STouch? && !st.SEdit?
    ensures Changed(v, st) == v
  {
  }

  /** Copy on write: a version and the one before it agree on every page number they share. */
  lemma SharedPages(states: seq<State>, steps: seq<Step>, i: nat, j: nat, p: nat)
    requires Commits(states, steps, i, j)
    ensures var s, s' := states[i], states[j + 1];
      && s.committed in s.hist && s'.committed in s'.hist
      && (p in s.hist[s.committed].pages && p in s'.hist[s'.committed].pages ==>
          s'.hist[s'.committed].pages[p] == s.hist[s.committed].pages[p])
  {
    hide Inv, Next, Current, Changed, Replay;
    AlwaysShares(states, steps, i, j);
    VersionBuilt(states, steps, i, j);
    CommitIsReplay(states, steps, i, j);
    Durability(states, steps, i, j);
    RunInv(states, steps, j);
    WriterId(states[j]);
    Publishes(states[j], states[j + 1]);
  }

  // ----- readers -------------------------------------------------------------------------------------------

  /** A reader sees, as long as it lasts, the version published last when it began. */
  lemma ReadsLatest(states: seq<State>, steps: seq<Step>, i: nat, j: nat, slot: nat)
    requires Run(states, steps) && i < j < |states| && steps[i] == SBeginRead(slot)
    requires forall k :: i < k <= j ==> slot in states[k].readers
    ensures var t := states[i].committed;
      && t in states[i].hist && states[j].readers[slot] == t && PagesIntact(states[j].file, states[i].hist[t])
      && WalksAgree(states[j].file, states[i].hist[t])
  {
    hide Inv, Next, PagesIntact, WalksAgree;
    Begins(states[i], states[i + 1], slot);
    RunInv(states, steps, i);
    CommittedMeta(states[i]);
    SnapshotIsolation(states, steps, i + 1, j, slot);
  }

  lemma Begins(s: State, s': State, slot: nat)
    requires Next(s, s', SBeginRead(slot))
    ensures slot in s'.readers && s'.readers[slot] == s.committed && s'.hist == s.hist
  {
  }

  /** The last thing that happened to the slot was that a reader began. */
  ghost predicate Reading(steps: seq<Step>, i: nat, slot: nat)
    requires i <= |steps|
  {
    exists k :: 0 <= k < i && steps[k] == SBeginRead(slot) && Untouched(steps, k + 1, i, slot)
  }

  ghost predicate Untouched(steps: seq<Step>, lo: nat, hi: nat, slot: nat)
    requires hi <= |steps|
  {
    forall k :: lo <= k < hi ==> steps[k] != SEndRead(slot) && !steps[k].SCrash?
  }

  /** A slot is in use exactly from the begin of its reader to its end or a crash. */
  lemma {:induction false} SlotInUse(states: seq<State>, steps: seq<Step>, i: nat, slot: nat)
    requires Run(states, steps) && i < |states|
    ensures slot in states[i].readers <==> Reading(steps, i, slot)
  {
    hide Next, Reading;
    if i == 0 {
      NobodyReads(steps, slot);
    } else {
      SlotInUse(states, steps, i - 1, slot);
      SlotStep(states[i - 1], states[i], steps[i - 1], slot);
      ReadingStep(steps, i - 1, slot);
    }
  }

  lemma NobodyReads(steps: seq<Step>, slot: nat)
    ensures !Reading(steps, 0, slot)
  {
  }

  lemma SlotStep(s: State, s': State, st: Step, slot: nat)
    requires Next(s, s', st)
    ensures slot in s'.readers <==> st == SBeginRead(slot) || (slot in s.readers && st != SEndRead(slot) && !st.SCrash?)
  {
    hide Tree, View, RecPages, RecsDisjoint, Remaining, OwnRecord, IsOldest, AllocReuse, AllocExtend, Relink;
  }

  lemma ReadingStep(steps: seq<Step>, i: nat, slot: nat)
    requires i < |steps|
    ensures var st := steps[i];
      Reading(steps, i + 1, slot) <==>
      st == SBeginRead(slot) || (Reading(steps, i, slot) && st != SEndRead(slot) && !st.SCrash?)
  {
    if steps[i] == SBeginRead(slot) { assert Untouched(steps, i + 1, i + 1, slot); }
    if Reading(steps, i, slot) && steps[i] != SEndRead(slot) && !steps[i].SCrash? {
      var k :| 0 <= k < i && steps[k] == SBeginRead(slot) && Untouched(steps, k + 1, i, slot);
      assert Untouched(steps, k + 1, i + 1, slot);
    }
    if Reading(steps, i + 1, slot) && steps[i] != SBeginRead(slot) {
      var k :| 0 <= k < i + 1 && steps[k] == SBeginRead(slot) && Untouched(steps, k + 1, i + 1, slot);
      assert Untouched(steps, k + 1, i, slot);
      assert steps[i] != SEndRead(slot);
    }
  }
}
