/**
 The multi-version page protocol of LMDB: one writer and any number of lock-free
 readers share a file of pages.

 The state holds the page cache that every reader maps (`file`), what would survive
 a crash (`disk`), both copies of the two meta pages, the published transaction id,
 the reader table and the writer's private state.  `hist` is a history variable: the
 snapshot that every commit named, with the contents its pages had at that time.

 Each step below is one atomic action of the code.  `Next` is their disjunction, and
 the theorems at the end hold in every state of every run.
 */
module Mvcc {
  import opened Common

  /** A page as the protocol sees it: the pages it points to, in order, and everything else. */
  datatype Page = Page(kids: seq<nat>, payload: int)

  /** The fields of a meta page that a commit changes. */
  datatype Meta = Meta(txnid: nat, roots: set<nat>, next: nat)

  /** One committed version: its pages with their contents, the free records
      (transaction id -> page numbers) stored in its free DB, and mm_last_pg+1. */
  datatype Snapshot = Snapshot(roots: set<nat>, pages: map<nat, Page>, free: map<nat, set<nat>>, next: nat)

  datatype Phase = Active | Saved | Synced | MetaWritten

  /** The write transaction together with the environment fields only it may use.
      `owned` are the pages of its trees, `spare` pages it allocated but has not yet
      linked, `dirty` the dirty list, `freed` mt_free_pgs, `loose` me_pghead,
      `oldest` the value mdb_find_oldest gave the current allocation. */
  datatype Writer = Writer(
    id: nat, roots: set<nat>, owned: set<nat>, spare: set<nat>, dirty: map<nat, Page>,
    freed: set<nat>, loose: set<nat>, pglast: nat, recs: map<nat, set<nat>>, next: nat,
    oldest: Option<nat>, phase: Phase)

  datatype State = State(
    file: map<nat, Page>, disk: map<nat, Page>,
    fmeta: seq<Meta>, dmeta: seq<Meta>,
    committed: nat, readers: map<nat, nat>, writer: Option<Writer>,
    hist: map<nat, Snapshot>)

  // ----- Vocabulary -------------------------------------------------------------

  ghost function Kids(pg: Page): (r: set<nat>)
    ensures forall p :: p in r <==> p in pg.kids
  {
    set p | p in pg.kids
  }

  /** `path` follows page pointers from a root. */
  ghost predicate IsPath(pages: map<nat, Page>, roots: set<nat>, path: seq<nat>) {
    && path != []
    && path[0] in roots
    && (forall i :: 0 <= i < |path| ==> path[i] in pages)
    && (forall i :: 0 <= i < |path| - 1 ==> path[i + 1] in pages[path[i]].kids)
  }

  ghost predicate Reached(pages: map<nat, Page>, roots: set<nat>, p: nat) {
    exists path :: IsPath(pages, roots, path) && path[|path| - 1] == p
  }

  /** No dangling pointer and no unreachable page. */
  ghost predicate Tree(pages: map<nat, Page>, roots: set<nat>) {
    && roots <= pages.Keys
    && (forall p :: p in pages ==> Kids(pages[p]) <= pages.Keys)
    && (forall p :: p in pages ==> Reached(pages, roots, p))
  }

  ghost function RecPages(free: map<nat, set<nat>>): set<nat> {
    set T, p | T in free && p in free[T] :: p
  }

  ghost predicate RecsDisjoint(free: map<nat, set<nat>>) {
    forall T, U :: T in free && U in free && T != U ==> free[T] !! free[U]
  }

  ghost function Range(next: nat): set<nat> {
    Interval(2, next)
  }

  /** mdb_audit: tree pages and free-record pages share out exactly the pages in use. */
  ghost predicate Partition(pages: set<nat>, free: map<nat, set<nat>>, next: nat) {
    && pages !! RecPages(free)
    && RecsDisjoint(free)
    && pages + RecPages(free) == Range(next)
  }

  function Prev(c: nat): nat { if c == 0 then 0 else c - 1 }

  function MetaOf(t: nat, sn: Snapshot): Meta { Meta(t, sn.roots, sn.next) }

  ghost predicate WroteMeta(s: State) {
    s.writer.Some? && s.writer.value.phase.MetaWritten?
  }

  /** Snapshots somebody may still need: every reader's, the published one, the one
      before it (still named by the other meta page) and one whose meta page is
      written but not yet published. */
  ghost function Live(s: State): set<nat> {
    s.readers.Values + {s.committed, Prev(s.committed)} + if WroteMeta(s) then {s.committed + 1} else {}
  }

  /** The writer's view of its pages: the dirty list first, then the map (mdb_page_get). */
  ghost function View(file: map<nat, Page>, owned: set<nat>, dirty: map<nat, Page>): map<nat, Page>
    requires owned <= file.Keys + dirty.Keys
  {
    map p | p in owned :: if p in dirty then dirty[p] else file[p]
  }

  /** Records not yet merged into me_pghead. */
  ghost function Remaining(recs: map<nat, set<nat>>, pglast: nat): map<nat, set<nat>> {
    map T | T in recs && pglast < T :: recs[T]
  }

  ghost predicate IsOldest(s: State, id: nat, o: nat) {
    && (o == id - 1 || o in s.readers.Values)
    && o <= id - 1
    && (forall r :: r in s.readers ==> o <= s.readers[r])
  }

  // ----- Steps ------------------------------------------------------------------

  ghost predicate Init(s: State) {
    && s.fmeta == s.dmeta == [Meta(0, {}, 2), Meta(0, {}, 2)]
    && s.committed == 0 && s.readers == map[] && s.writer == None
    && s.hist == map[0 := Snapshot({}, map[], map[], 2)]
  }

  ghost predicate BeginRead(s: State, s': State, slot: nat) {
    && slot !in s.readers
    && s' == s.(readers := s.readers[slot := s.committed])
  }

  ghost predicate EndRead(s: State, s': State, slot: nat) {
    && slot in s.readers
    && s' == s.(readers := s.readers - {slot})
  }

  ghost predicate BeginWrite(s: State, s': State) {
    && s.writer.None?
    && s.committed in s.hist
    && |s.fmeta| == 2
    && var meta := s.fmeta[s.committed % 2];
       var sn := s.hist[s.committed];
       s' == s.(writer := Some(Writer(s.committed + 1, meta.roots, sn.pages.Keys, {}, map[], {}, {}, 0,
                                      sn.free, meta.next, None, Active)))
  }

  /** An allocation starts by asking for the oldest transaction still referenced. */
  ghost predicate FindOldest(s: State, s': State, o: nat) {
    && s.writer.Some? && s.writer.value.phase.Active?
    && IsOldest(s, s.writer.value.id, o)
    && s' == s.(writer := Some(s.writer.value.(oldest := Some(o))))
  }

  /** Merge the next free record into me_pghead unless it is too recent. */
  ghost predicate FetchRecord(s: State, s': State, T: nat) {
    && s.writer.Some? && s.writer.value.phase.Active?
    && var w := s.writer.value;
    && w.oldest.Some?
    && T in w.recs && w.pglast < T && (forall U :: U in w.recs && w.pglast < U ==> T <= U)
    && T < w.oldest.value
    && s' == s.(writer := Some(w.(loose := w.loose + w.recs[T], pglast := T)))
  }

  ghost predicate AllocReuse(w: Writer, w': Writer, run: set<nat>, more: map<nat, Page>) {
    run <= w.loose && w' == w.(loose := w.loose - run, spare := w.spare + run, dirty := w.dirty + more)
  }

  ghost predicate AllocExtend(w: Writer, w': Writer, run: set<nat>, num: nat, more: map<nat, Page>) {
    w' == w.(next := w.next + num, spare := w.spare + run, dirty := w.dirty + more)
  }

  /** Take `num` consecutive pages, from me_pghead or from the end of the file. */
  ghost predicate Alloc(s: State, s': State, pgno: nat, num: nat, content: Page) {
    && s.writer.Some? && s.writer.value.phase.Active? && s'.writer.Some?
    && 1 <= num
    && s' == s.(writer := s'.writer)
    && var w, w' := s.writer.value, s'.writer.value;
    && var run := Interval(pgno, pgno + num);
    && var more := map p | p in run :: content;
    && (AllocReuse(w, w', run, more) || (pgno == w.next && AllocExtend(w, w', run, num, more)))
  }

  /** What mdb_page_touch does to the pointers: every reference to p becomes q. */
  ghost function Relink(pg: Page, p: nat, q: nat): Page {
    if p in pg.kids then pg.(kids := Redirect(pg.kids, p, q)) else pg
  }

  function Redirect(ks: seq<nat>, p: nat, q: nat): (r: seq<nat>)
    ensures |r| == |ks| && forall i :: 0 <= i < |ks| ==> r[i] == if ks[i] == p then q else ks[i]
    ensures forall x :: x in r <==> (x in ks && x != p) || (x == q && p in ks)
  {
    if ks == [] then [] else
      var n := |ks| - 1;
      assert ks == ks[..n] + [ks[n]];
      Redirect(ks[..n], p, q) + [if ks[n] == p then q else ks[n]]
  }

  /** Copy the clean page p to the new page q, point its (dirty) parent at q and free p. */
  ghost predicate Touch(s: State, s': State, p: nat, q: nat) {
    && s.writer.Some? && s.writer.value.phase.Active?
    && var w := s.writer.value;
    && p in w.owned && p !in w.dirty && q in w.spare && p in s.file && q in w.dirty && q !in w.owned
    && (forall x :: x in w.owned && x !in w.dirty && x in s.file ==> p !in s.file[x].kids)
    && var d := map x | x in w.dirty :: if x == q then s.file[p] else Relink(w.dirty[x], p, q);
    && var roots := if p in w.roots then w.roots - {p} + {q} else w.roots;
    && s' == s.(writer := Some(w.(roots := roots, owned := w.owned - {p} + {q}, spare := w.spare - {q},
                                  dirty := d, freed := w.freed + {p})))
  }

  /** A B+tree operation rewrites dirty pages, links spare pages and unlinks others.
      Unlinked pages go to mt_free_pgs; dirty overflow pages may instead return to
      me_pghead (mdb_ovpage_free), provided me_pghead exists. */
  ghost predicate Edit(s: State, s': State, roots: set<nat>, dirty: map<nat, Page>,
                       added: set<nat>, dropped: set<nat>, returned: set<nat>) {
    && s.writer.Some? && s.writer.value.phase.Active?
    && var w := s.writer.value;
    && added <= w.spare && dropped <= w.owned && returned <= w.owned * w.dirty.Keys && dropped !! returned
    && (returned != {} ==> 0 < w.pglast)
    && dirty.Keys == w.dirty.Keys - returned
    && var w' := w.(roots := roots, owned := w.owned + added - dropped - returned, spare := w.spare - added,
                    dirty := dirty, freed := w.freed + dropped, loose := w.loose + returned);
    && w'.owned <= s.file.Keys + dirty.Keys
    && Tree(View(s.file, w'.owned, dirty), roots)
    && s' == s.(writer := Some(w'))
  }

  /** The record of the pages this transaction freed; none if it freed nothing. */
  ghost function OwnRecord(id: nat, freed: set<nat>): map<nat, set<nat>> {
    if freed == {} then map[] else map[id := freed]
  }

  /** mdb_freelist_save once it is stable: consumed records are gone, this transaction's
      pages are one record, and me_pghead is spread over records with keys in [1, pglast]. */
  ghost predicate Save(s: State, s': State, left: map<nat, set<nat>>) {
    && s.writer.Some? && s.writer.value.phase.Active?
    && var w := s.writer.value;
    && w.spare == {}
    && (forall T :: T in left ==> 1 <= T <= w.pglast)
    && RecsDisjoint(left) && RecPages(left) == w.loose
    && s' == s.(writer := Some(w.(recs := left + Remaining(w.recs, w.pglast) + OwnRecord(w.id, w.freed), freed := {},
                                  loose := {}, pglast := 0, phase := Saved)))
  }

  ghost predicate FlushPage(s: State, s': State, p: nat) {
    && s.writer.Some? && s.writer.value.phase.Saved? && p in s.writer.value.dirty
    && s' == s.(file := s.file[p := s.writer.value.dirty[p]])
  }

  /** The operating system may write a cached page out at any time. */
  ghost predicate WriteBack(s: State, s': State, p: nat) {
    && p in s.file
    && s' == s.(disk := s.disk[p := s.file[p]])
  }

  ghost predicate WriteBackMeta(s: State, s': State, i: nat) {
    && |s.fmeta| == |s.dmeta| && i < |s.fmeta|
    && s' == s.(dmeta := s.dmeta[i := s.fmeta[i]])
  }

  ghost predicate Sync(s: State, s': State) {
    && s.writer.Some? && s.writer.value.phase.Saved?
    && var w := s.writer.value;
    && (forall p :: p in w.dirty ==> p in s.file && s.file[p] == w.dirty[p])
    && s' == s.(disk := s.file, dmeta := s.fmeta, writer := Some(w.(phase := Synced)))
  }

  ghost predicate WriteMeta(s: State, s': State) {
    && s.writer.Some? && s.writer.value.phase.Synced? && |s.fmeta| == 2
    && var w := s.writer.value;
    && w.owned <= s.file.Keys + w.dirty.Keys
    && var sn := Snapshot(w.roots, View(s.file, w.owned, w.dirty), w.recs, w.next);
    && s' == s.(fmeta := s.fmeta[w.id % 2 := MetaOf(w.id, sn)], hist := s.hist[w.id := sn],
                writer := Some(w.(phase := MetaWritten)))
  }

  /** The meta page went through the synchronous descriptor: it is durable here. */
  ghost predicate Publish(s: State, s': State) {
    && WroteMeta(s) && |s.fmeta| == |s.dmeta| == 2
    && var w := s.writer.value;
    && s.dmeta[w.id % 2] == s.fmeta[w.id % 2]
    && s' == s.(committed := w.id, writer := None)
  }

  ghost predicate Abort(s: State, s': State) {
    && s.writer.Some? && !s.writer.value.phase.MetaWritten?
    && s' == s.(writer := None)
  }

  /** mdb_env_pick_meta */
  function PickMeta(metas: seq<Meta>): nat
    requires |metas| == 2
  {
    if metas[0].txnid < metas[1].txnid then 1 else 0
  }

  /** Everything volatile is lost; the next open picks the newer durable meta page. */
  ghost predicate Crash(s: State, s': State) {
    && |s.dmeta| == 2
    && var c := s.dmeta[PickMeta(s.dmeta)].txnid;
    && s' == State(s.disk, s.disk, s.dmeta, s.dmeta, c, map[], None, map t | t in s.hist && t <= c :: s.hist[t])
  }

  datatype Step =
    | SBeginRead(slot: nat) | SEndRead(slot: nat) | SBeginWrite | SFindOldest(o: nat) | SFetch(T: nat)
    | SAlloc(pgno: nat, num: nat, content: Page) | STouch(p: nat, q: nat)
    | SEdit(roots: set<nat>, dirty: map<nat, Page>, added: set<nat>, dropped: set<nat>, returned: set<nat>)
    | SSave(left: map<nat, set<nat>>) | SFlush(p: nat) | SWriteBack(p: nat) | SWriteBackMeta(i: nat)
    | SSync | SWriteMeta | SPublish | SAbort | SCrash

  ghost predicate Next(s: State, s': State, st: Step) {
    match st
    case SBeginRead(slot) => BeginRead(s, s', slot)
    case SEndRead(slot) => EndRead(s, s', slot)
    case SBeginWrite => BeginWrite(s, s')
    case SFindOldest(o) => FindOldest(s, s', o)
    case SFetch(T) => FetchRecord(s, s', T)
    case SAlloc(pgno, num, content) => Alloc(s, s', pgno, num, content)
    case STouch(p, q) => Touch(s, s', p, q)
    case SEdit(roots, dirty, added, dropped, returned) => Edit(s, s', roots, dirty, added, dropped, returned)
    case SSave(left) => Save(s, s', left)
    case SFlush(p) => FlushPage(s, s', p)
    case SWriteBack(p) => WriteBack(s, s', p)
    case SWriteBackMeta(i) => WriteBackMeta(s, s', i)
    case SSync => Sync(s, s')
    case SWriteMeta => WriteMeta(s, s')
    case SPublish => Publish(s, s')
    case SAbort => Abort(s, s')
    case SCrash => Crash(s, s')
  }

  /** A run: states and the steps between them. */
  ghost predicate Run(states: seq<State>, steps: seq<Step>) {
    && |states| == |steps| + 1
    && Init(states[0])
    && (forall i :: 0 <= i < |steps| ==> Next(states[i], states[i + 1], steps[i]))
  }

  // ----- The inductive invariant -------------------------------------------------

  ghost predicate PagesIntact(store: map<nat, Page>, sn: Snapshot) {
    forall p :: p in sn.pages ==> p in store && store[p] == sn.pages[p]
  }

  /** A snapshot that can still be read, now or after a crash. */
  ghost predicate Alive(file: map<nat, Page>, disk: map<nat, Page>, sn: Snapshot) {
    PagesIntact(file, sn) && PagesIntact(disk, sn) && Tree(sn.pages, sn.roots)
  }

  /** A page in free record T is in no live snapshot that is T or newer. */
  ghost predicate RecSafe(free: map<nat, set<nat>>, live: set<nat>, hist: map<nat, Snapshot>) {
    forall T, t, p :: T in free && t in live && t in hist && T <= t && p in free[T] ==> p !in hist[t].pages
  }

  ghost function UpTo(live: set<nat>, t: nat): set<nat> {
    set u | u in live && u <= t
  }

  ghost predicate SnapshotOk(t: nat, sn: Snapshot, live: set<nat>, hist: map<nat, Snapshot>) {
    && 2 <= sn.next
    && Partition(sn.pages.Keys, sn.free, sn.next)
    && Tree(sn.pages, sn.roots)
    && (forall T :: T in sn.free ==> 1 <= T <= t)
    && RecSafe(sn.free, UpTo(live, t), hist)
  }

  ghost predicate MetaInv(s: State) {
    && |s.fmeta| == |s.dmeta| == 2
    && Live(s) <= s.hist.Keys
    && var c := s.committed;
    && var before := MetaOf(Prev(c), s.hist[Prev(c)]);
    && s.fmeta[c % 2] == s.dmeta[c % 2] == MetaOf(c, s.hist[c])
    && (if WroteMeta(s)
        then s.fmeta[(c + 1) % 2] == MetaOf(c + 1, s.hist[c + 1])
             && s.dmeta[(c + 1) % 2] in {s.fmeta[(c + 1) % 2], before}
        else s.fmeta[(c + 1) % 2] == s.dmeta[(c + 1) % 2] == before)
  }

  ghost predicate HistInv(s: State)
    requires Live(s) <= s.hist.Keys
  {
    && SnapshotsOk(s.committed, WroteMeta(s), Live(s), s.hist)
    && (forall t :: t in s.hist ==> t <= s.committed + 1)
    && (forall r :: r in s.readers ==> s.readers[r] <= s.committed)
    && (forall t :: t in Live(s) && t in s.hist ==> Alive(s.file, s.disk, s.hist[t]))
  }

  /** The published snapshot is sound and bounds the live ones; so is the one about to be. */
  ghost predicate SnapshotsOk(c: nat, wrote: bool, live: set<nat>, hist: map<nat, Snapshot>)
    requires c in hist && (wrote ==> c + 1 in hist)
  {
    && (forall t :: t in live && t in hist && t <= c ==> hist[t].pages.Keys <= Range(hist[c].next))
    && SnapshotOk(c, hist[c], live, hist)
    && (wrote ==> SnapshotOk(c + 1, hist[c + 1], live, hist) && hist[c].next <= hist[c + 1].next)
  }

  /** None of the pages `ps` is in any of the snapshots `live`. */
  ghost predicate Fresh(ps: set<nat>, live: set<nat>, hist: map<nat, Snapshot>) {
    forall t, p :: t in live && t in hist && p in ps ==> p !in hist[t].pages
  }

  function Bit(b: bool): nat { if b then 1 else 0 }

  /** The five sets divide the pages in use: each page is in exactly one. */
  ghost predicate Division(owned: set<nat>, spare: set<nat>, freed: set<nat>, loose: set<nat>, rest: set<nat>,
                           next: nat) {
    forall p ::
      Bit(p in owned) + Bit(p in spare) + Bit(p in freed) + Bit(p in loose) + Bit(p in rest) == Bit(2 <= p < next)
  }

  ghost function Published(s: State): set<nat> {
    UpTo(Live(s), s.committed)
  }

  /** Published snapshots lie below the end of the file. */
  ghost predicate PagesBelow(s: State)
    requires s.committed in s.hist
  {
    forall t :: t in Published(s) ==> t in s.hist && s.hist[t].pages.Keys <= Range(s.hist[s.committed].next)
  }

  ghost predicate WriterPages(s: State, w: Writer)
    requires s.committed in s.hist
  {
    var c := s.hist[s.committed];
    && w.id == s.committed + 1
    && c.next <= w.next
    && w.spare <= w.dirty.Keys <= Range(w.next)
    && w.owned <= w.dirty.Keys + c.pages.Keys
    && w.owned <= s.file.Keys + w.dirty.Keys
    && (w.loose != {} ==> 0 < w.pglast)
    && w.pglast < w.id
  }

  ghost predicate WriterOldest(s: State, w: Writer) {
    w.oldest.Some? ==>
      w.oldest.value <= s.committed && forall r :: r in s.readers ==> w.oldest.value <= s.readers[r]
  }

  ghost predicate WriterPhase(s: State, w: Writer)
    requires s.committed in s.hist
  {
    if w.phase.Active?
    then w.recs == s.hist[s.committed].free
    else
      && w.spare == w.freed == w.loose == {} && w.pglast == 0
      && (forall T :: T in w.recs ==> 1 <= T <= w.id)
      && RecSafe(w.recs, Published(s), s.hist)
      && (w.phase.Synced? ==>
            forall p :: p in w.dirty ==> p in s.file && p in s.disk && s.file[p] == w.dirty[p] == s.disk[p])
  }

  ghost predicate WriterInv(s: State, w: Writer)
    requires s.committed in s.hist
  {
    && WriterPages(s, w)
    && WriterOldest(s, w)
    && WriterPhase(s, w)
    && Fresh(w.dirty.Keys + w.loose, Published(s), s.hist)
    && RecsDisjoint(Remaining(w.recs, w.pglast))
    && Division(w.owned, w.spare, w.freed, w.loose, RecPages(Remaining(w.recs, w.pglast)), w.next)
    && Tree(View(s.file, w.owned, w.dirty), w.roots)
  }

  ghost predicate Inv(s: State) {
    && MetaInv(s)
    && HistInv(s)
    && (s.writer.Some? && !WroteMeta(s) ==> WriterInv(s, s.writer.value))
    && (WroteMeta(s) ==> s.writer.value.id == s.committed + 1)
  }

  // ----- Every step keeps the invariant ------------------------------------------

  lemma InitInv(s: State)
    requires Init(s)
    ensures Inv(s)
  {
    hide Range, RecPages;
    assert RecPages(map[]) == {} by { NoRecords(); }
    assert Range(2) == {} by { NoPages(); }
  }

  lemma NoPages()
    ensures Range(2) == {}
  {
  }

  lemma SnapshotOkMono(t: nat, sn: Snapshot, live: set<nat>, live': set<nat>, hist: map<nat, Snapshot>)
    requires SnapshotOk(t, sn, live, hist) && live' <= live
    ensures SnapshotOk(t, sn, live', hist)
  {
    assert UpTo(live', t) <= UpTo(live, t);
  }

  lemma RecSafeMono(free: map<nat, set<nat>>, live: set<nat>, live': set<nat>, hist: map<nat, Snapshot>)
    requires RecSafe(free, live, hist) && live' <= live
    ensures RecSafe(free, live', hist)
  {
  }

  lemma HistShrink(s: State, s': State)
    requires Live(s) <= s.hist.Keys && HistInv(s) && Live(s') <= Live(s)
    requires s'.readers.Values <= s.readers.Values + {s.committed}
    requires s' == s.(readers := s'.readers)
    ensures HistInv(s')
  {
    hide SnapshotOk, Tree, PagesIntact, Range;
    SnapshotOkMono(s.committed, s.hist[s.committed], Live(s), Live(s'), s.hist);
    if WroteMeta(s) {
      SnapshotOkMono(s.committed + 1, s.hist[s.committed + 1], Live(s), Live(s'), s.hist);
    }
    forall r | r in s'.readers ensures s'.readers[r] <= s'.committed {
      assert s'.readers[r] in s'.readers.Values;
    }
  }

  lemma FreshMono(ps: set<nat>, ps': set<nat>, live: set<nat>, live': set<nat>, hist: map<nat, Snapshot>)
    requires Fresh(ps, live, hist) && ps' <= ps && live' <= live
    ensures Fresh(ps', live', hist)
  {
  }

  lemma WriterShrink(s: State, s': State, w: Writer)
    requires s.committed in s.hist && WriterInv(s, w) && Live(s') <= Live(s)
    requires s'.readers.Values <= s.readers.Values + {s.committed}
    requires s' == s.(readers := s'.readers)
    ensures WriterInv(s', w)
  {
    hide Tree, Division, View, RecSafe, Fresh, Range, Remaining, RecPages, RecsDisjoint;
    FreshMono(w.dirty.Keys + w.loose, w.dirty.Keys + w.loose, Published(s), Published(s'), s.hist);
    if !w.phase.Active? {
      RecSafeMono(w.recs, Published(s), Published(s'), s.hist);
    }
    if w.oldest.Some? {
      forall r | r in s'.readers ensures w.oldest.value <= s'.readers[r] {
        assert s'.readers[r] in s'.readers.Values;
      }
    }
  }

  lemma ReadSteps(s: State, s': State, slot: nat)
    requires Inv(s) && (BeginRead(s, s', slot) || EndRead(s, s', slot))
    ensures Inv(s')
  {
    hide HistInv, WriterInv;
    assert s'.readers.Values <= s.readers.Values + {s.committed};
    assert Live(s') <= Live(s);
    HistShrink(s, s');
    if s.writer.Some? && !WroteMeta(s) {
      WriterShrink(s, s', s.writer.value);
    }
  }

  /** Steps of the writer that touch neither the file nor the meta pages. */
  lemma WriterOnly(s: State, s': State)
    requires Inv(s) && !WroteMeta(s) && s' == s.(writer := s'.writer) && !WroteMeta(s')
    requires s'.writer.Some? ==> WriterInv(s, s'.writer.value)
    ensures Inv(s')
  {
    hide Tree, Division, View, RecSafe, Range, SnapshotOk, PagesIntact, Fresh, Remaining, RecPages, RecsDisjoint;
    assert Live(s') == Live(s);
  }

  lemma RecPagesUpdate(free: map<nat, set<nat>>, T: nat, ps: set<nat>)
    requires T !in free
    ensures RecPages(free[T := ps]) == RecPages(free) + ps
    ensures RecsDisjoint(free[T := ps]) <==> RecsDisjoint(free) && RecPages(free) !! ps
  {
    var g := free[T := ps];
    forall p ensures p in RecPages(g) <==> p in RecPages(free) + ps {
      if p in ps { assert T in g && p in g[T]; }
      if p in RecPages(free) { var U :| U in free && p in free[U]; assert U in g && p in g[U]; }
    }
    if RecsDisjoint(g) {
      forall U, V | U in free && V in free && U != V ensures free[U] !! free[V] {
        assert g[U] !! g[V];
      }
      forall p | p in RecPages(free) ensures p !in ps {
        var U :| U in free && p in free[U];
        assert g[U] !! g[T];
      }
    }
    if RecsDisjoint(free) && RecPages(free) !! ps {
      forall U, V | U in g && V in g && U != V ensures g[U] !! g[V] {
        if V == T { assert forall p :: p in free[U] ==> p in RecPages(free); }
        if U == T { assert forall p :: p in free[V] ==> p in RecPages(free); }
      }
    }
  }

  lemma DivisionOfPartition(pages: set<nat>, free: map<nat, set<nat>>, next: nat)
    requires Partition(pages, free, next)
    ensures Division(pages, {}, {}, {}, RecPages(free), next) && RecsDisjoint(free)
  {
    hide RecPages, RecsDisjoint;
    forall p ensures Bit(p in pages) + Bit(p in RecPages(free)) == Bit(2 <= p < next) {
      assert p in pages + RecPages(free) <==> p in Range(next);
    }
  }

  lemma PartitionOfDivision(pages: set<nat>, free: map<nat, set<nat>>, next: nat)
    requires Division(pages, {}, {}, {}, RecPages(free), next) && RecsDisjoint(free)
    ensures Partition(pages, free, next)
  {
    hide RecPages, RecsDisjoint;
    forall p ensures p in pages + RecPages(free) <==> p in Range(next) {
      assert Bit(p in pages) + Bit(p in RecPages(free)) == Bit(2 <= p < next);
    }
  }

  lemma DivisionFetch(owned: set<nat>, spare: set<nat>, freed: set<nat>, loose: set<nat>, rest: set<nat>, ps: set<nat>,
                      next: nat)
    requires Division(owned, spare, freed, loose, rest + ps, next) && rest !! ps
    ensures Division(owned, spare, freed, loose + ps, rest, next)
  {
  }

  lemma FreshUnion(ps: set<nat>, qs: set<nat>, live: set<nat>, hist: map<nat, Snapshot>)
    requires Fresh(ps, live, hist) && Fresh(qs, live, hist)
    ensures Fresh(ps + qs, live, hist)
  {
  }

  /** What the invariant says about the published snapshot. */
  lemma CommittedFacts(s: State)
    requires Inv(s)
    ensures s.committed in s.hist && |s.fmeta| == |s.dmeta| == 2
    ensures var c := s.hist[s.committed];
            && s.fmeta[s.committed % 2] == MetaOf(s.committed, c)
            && Partition(c.pages.Keys, c.free, c.next)
            && Tree(c.pages, c.roots)
            && PagesIntact(s.file, c) && PagesIntact(s.disk, c)
            && 2 <= c.next
            && PagesBelow(s)
            && RecSafe(c.free, Published(s), s.hist)
            && (forall T :: T in c.free ==> 1 <= T <= s.committed)
  {
    hide Inv, Tree, Partition, PagesIntact, RecSafe, PagesBelow;
    CommittedMeta(s);
    CommittedSound(s);
    CommittedBelow(s);
  }

  lemma CommittedMeta(s: State)
    requires Inv(s)
    ensures s.committed in s.hist && |s.fmeta| == |s.dmeta| == 2
    ensures s.fmeta[s.committed % 2] == MetaOf(s.committed, s.hist[s.committed])
  {
    hide HistInv, WriterInv;
  }

  lemma CommittedSound(s: State)
    requires Inv(s)
    ensures s.committed in s.hist
    ensures var c := s.hist[s.committed];
            && Partition(c.pages.Keys, c.free, c.next)
            && Tree(c.pages, c.roots)
            && PagesIntact(s.file, c) && PagesIntact(s.disk, c)
  {
    hide Tree, Partition, PagesIntact, RecSafe, WriterInv, Range;
  }

  lemma CommittedBelow(s: State)
    requires Inv(s)
    ensures s.committed in s.hist
    ensures var c := s.hist[s.committed];
            && 2 <= c.next
            && PagesBelow(s)
            && RecSafe(c.free, Published(s), s.hist)
            && (forall T :: T in c.free ==> 1 <= T <= s.committed)
  {
    hide Tree, Partition, PagesIntact, RecSafe, WriterInv, Range;
  }

  lemma InvWriter(s: State)
    requires Inv(s) && s.writer.Some? && !WroteMeta(s)
    ensures s.committed in s.hist && WriterInv(s, s.writer.value)
  {
    hide HistInv, WriterInv;
  }

  lemma BeginWriteView(s: State)
    requires s.committed in s.hist && PagesIntact(s.file, s.hist[s.committed])
    ensures var c := s.hist[s.committed];
            c.pages.Keys <= s.file.Keys && View(s.file, c.pages.Keys, map[]) == c.pages
  {
  }

  lemma BeginWriteWriter(s: State, s': State)
    requires Inv(s) && BeginWrite(s, s')
    ensures s.committed in s.hist && WriterInv(s, s'.writer.value)
  {
    hide Inv, RecSafe, RecPages, RecsDisjoint, Tree, Division, Live, PagesIntact, View, Partition;
    CommittedFacts(s);
    var w := s'.writer.value;
    var c := s.hist[s.committed];
    DivisionOfPartition(c.pages.Keys, c.free, c.next);
    assert Remaining(w.recs, w.pglast) == c.free;
    BeginWriteView(s);
  }

  lemma FindOldestWriter(s: State, s': State, o: nat)
    requires s.committed in s.hist && FindOldest(s, s', o) && WriterInv(s, s.writer.value)
    ensures WriterInv(s, s'.writer.value)
  {
    hide Tree, RecSafe, Fresh, View, RecPages, RecsDisjoint, Division, Remaining, Range, Live;
  }

  lemma FetchedIsFresh(s: State, T: nat)
    requires Inv(s) && s.writer.Some? && s.writer.value.phase.Active?
    requires T in s.writer.value.recs
    requires s.writer.value.oldest.Some? && T < s.writer.value.oldest.value
    ensures Fresh(s.writer.value.recs[T], Published(s), s.hist)
  {
    hide Tree, Partition, PagesIntact, Division, View, Range;
    assert forall t :: t in Published(s) ==> T <= t;
  }

  lemma RemainingFetch(recs: map<nat, set<nat>>, pglast: nat, T: nat)
    requires T in recs && pglast < T && (forall U :: U in recs && pglast < U ==> T <= U)
    requires RecsDisjoint(Remaining(recs, pglast))
    ensures RecPages(Remaining(recs, pglast)) == RecPages(Remaining(recs, T)) + recs[T]
    ensures RecPages(Remaining(recs, T)) !! recs[T] && RecsDisjoint(Remaining(recs, T))
  {
    hide RecPages, RecsDisjoint;
    RecPagesUpdate(Remaining(recs, T), T, recs[T]);
    assert Remaining(recs, pglast) == Remaining(recs, T)[T := recs[T]];
  }

  /** A fetched record is older than the oldest reader, so its pages are in no live snapshot. */
  lemma FetchWriter(s: State, s': State, T: nat)
    requires s.committed in s.hist && FetchRecord(s, s', T) && WriterInv(s, s.writer.value)
    requires Fresh(s.writer.value.recs[T], Published(s), s.hist)
    requires T < s.committed + 1
    ensures WriterInv(s, s'.writer.value)
  {
    hide Tree, RecSafe, View, RecPages, RecsDisjoint, Range, Fresh, Division, Remaining, Live;
    var w, w' := s.writer.value, s'.writer.value;
    RemainingFetch(w.recs, w.pglast, T);
    DivisionFetch(w.owned, w.spare, w.freed, w.loose, RecPages(Remaining(w.recs, T)), w.recs[T], w.next);
    FreshUnion(w.dirty.Keys + w.loose, w.recs[T], Published(s), s.hist);
    assert w'.dirty.Keys + w'.loose == w.dirty.Keys + w.loose + w.recs[T];
  }

  lemma DivisionReuse(owned: set<nat>, spare: set<nat>, freed: set<nat>, loose: set<nat>, rest: set<nat>, next: nat,
                      run: set<nat>)
    requires Division(owned, spare, freed, loose, rest, next) && run <= loose
    ensures Division(owned, spare + run, freed, loose - run, rest, next)
    ensures run !! owned && run <= Range(next)
  {
    forall p | p in run ensures p !in owned && 2 <= p < next {
      assert Bit(p in owned) + Bit(p in spare) + Bit(p in freed) + Bit(p in loose) + Bit(p in rest) ==
        Bit(2 <= p < next);
    }
  }

  lemma DivisionExtend(owned: set<nat>, spare: set<nat>, freed: set<nat>, loose: set<nat>, rest: set<nat>, next: nat,
                       num: nat)
    requires Division(owned, spare, freed, loose, rest, next) && 2 <= next
    ensures Division(owned, spare + Interval(next, next + num), freed, loose, rest, next + num)
    ensures Interval(next, next + num) !! owned
  {
    forall p ensures
      var n := Bit(p in owned) + Bit(p in freed) + Bit(p in loose) + Bit(p in rest);
      && n + Bit(p in spare) == Bit(2 <= p < next)
      && n + Bit(p in spare + Interval(next, next + num)) == Bit(2 <= p < next + num)
    {
      assert Bit(p in owned) + Bit(p in spare) + Bit(p in freed) + Bit(p in loose) + Bit(p in rest) ==
        Bit(2 <= p < next);
    }
  }

  lemma ViewAlloc(file: map<nat, Page>, owned: set<nat>, dirty: map<nat, Page>, more: map<nat, Page>)
    requires owned <= file.Keys + dirty.Keys && more.Keys !! owned
    ensures View(file, owned, dirty + more) == View(file, owned, dirty)
  {
  }

  lemma RangeGrow(next: nat, num: nat)
    requires 2 <= next
    ensures Range(next) + Interval(next, next + num) == Range(next + num)
  {
  }

  lemma NewPagesFresh(s: State, lo: nat, hi: nat)
    requires s.committed in s.hist && s.hist[s.committed].next <= lo
    requires PagesBelow(s)
    ensures Fresh(Interval(lo, hi), Published(s), s.hist)
  {
    hide Published;
  }

  lemma AllocReuseWriter(s: State, w: Writer, w': Writer, run: set<nat>, more: map<nat, Page>)
    requires s.committed in s.hist && AllocReuse(w, w', run, more) && more.Keys == run
    requires WriterInv(s, w) && w.phase.Active?
    ensures WriterInv(s, w') && w'.phase.Active?
  {
    hide Tree, RecSafe, View, RecPages, RecsDisjoint, Fresh, Division, Remaining, Published, Range;
    DivisionReuse(w.owned, w.spare, w.freed, w.loose, RecPages(Remaining(w.recs, w.pglast)), w.next, run);
    ViewAlloc(s.file, w.owned, w.dirty, more);
    FreshMono(w.dirty.Keys + w.loose, w'.dirty.Keys + w'.loose, Published(s), Published(s), s.hist);
  }

  lemma WriterNext(s: State, w: Writer)
    requires s.committed in s.hist && WriterInv(s, w)
    ensures s.hist[s.committed].next <= w.next
    ensures Division(w.owned, w.spare, w.freed, w.loose, RecPages(Remaining(w.recs, w.pglast)), w.next)
  {
    hide Tree, RecSafe, View, RecPages, RecsDisjoint, Fresh, Division, Remaining, Published, Range, WriterPhase;
  }

  lemma AllocExtendWriter(s: State, w: Writer, w': Writer, run: set<nat>, num: nat, more: map<nat, Page>)
    requires s.committed in s.hist && WriterInv(s, w) && w.phase.Active? && more.Keys == run
    requires AllocExtend(w, w', run, num, more)
    requires run !! w.owned && Range(w.next) + run == Range(w.next + num)
    requires Division(w.owned, w.spare + run, w.freed, w.loose, RecPages(Remaining(w.recs, w.pglast)), w.next + num)
    requires Fresh(run, Published(s), s.hist)
    ensures WriterInv(s, w') && w'.phase.Active?
  {
    hide Tree, RecSafe, View, RecPages, RecsDisjoint, Fresh, Division, Remaining, Published, Range;
    ViewAlloc(s.file, w.owned, w.dirty, more);
    FreshUnion(w.dirty.Keys + w.loose, run, Published(s), s.hist);
    assert w'.dirty.Keys + w'.loose == w.dirty.Keys + w.loose + run;
  }

  lemma AllocWriter(s: State, s': State, pgno: nat, num: nat, content: Page)
    requires s.committed in s.hist && Alloc(s, s', pgno, num, content) && WriterInv(s, s.writer.value)
    requires 2 <= s.hist[s.committed].next
    requires PagesBelow(s)
    ensures WriterInv(s, s'.writer.value) && s'.writer.value.phase.Active?
  {
    hide WriterInv, PagesBelow, Interval, AllocReuse, AllocExtend, Division, Fresh, RecPages, Remaining, Range,
         Published;
    var w, w' := s.writer.value, s'.writer.value;
    var run := Interval(pgno, pgno + num);
    var more := map p | p in run :: content;
    if AllocReuse(w, w', run, more) {
      AllocReuseWriter(s, w, w', run, more);
    } else {
      WriterNext(s, w);
      RangeGrow(w.next, num);
      DivisionExtend(w.owned, w.spare, w.freed, w.loose, RecPages(Remaining(w.recs, w.pglast)), w.next, num);
      NewPagesFresh(s, w.next, w.next + num);
      AllocExtendWriter(s, w, w', run, num, more);
    }
  }

  // ----- Touch: copying a page keeps the tree connected ----------------------------

  ghost function RelinkPath(path: seq<nat>, p: nat, q: nat): seq<nat> {
    seq(|path|, i requires 0 <= i < |path| => if path[i] == p then q else path[i])
  }

  lemma TouchPath(pages: map<nat, Page>, pages': map<nat, Page>, roots: set<nat>, p: nat, q: nat, path: seq<nat>)
    requires IsPath(pages, roots, path) && p in pages && q !in pages
    requires pages'.Keys == pages.Keys - {p} + {q} && pages'[q] == Relink(pages[p], p, q)
    requires forall x :: x in pages && x != p ==> pages'[x] == Relink(pages[x], p, q)
    ensures IsPath(pages', if p in roots then roots - {p} + {q} else roots, RelinkPath(path, p, q))
  {
    var path' := RelinkPath(path, p, q);
    forall i | 0 <= i < |path'| - 1 ensures path'[i + 1] in pages'[path'[i]].kids {
      assert path[i + 1] in pages[path[i]].kids;
      assert pages'[path'[i]] == Relink(pages[path[i]], p, q);
    }
  }

  lemma TouchReached(pages: map<nat, Page>, pages': map<nat, Page>, roots: set<nat>, p: nat, q: nat, x: nat)
    requires Reached(pages, roots, x) && p in pages && q !in pages
    requires pages'.Keys == pages.Keys - {p} + {q} && pages'[q] == Relink(pages[p], p, q)
    requires forall x :: x in pages && x != p ==> pages'[x] == Relink(pages[x], p, q)
    ensures Reached(pages', if p in roots then roots - {p} + {q} else roots, if x == p then q else x)
  {
    hide Relink;
    var path :| IsPath(pages, roots, path) && path[|path| - 1] == x;
    TouchPath(pages, pages', roots, p, q, path);
    var path' := RelinkPath(path, p, q);
    assert path'[|path'| - 1] == if x == p then q else x;
  }

  lemma TouchTree(pages: map<nat, Page>, pages': map<nat, Page>, roots: set<nat>, p: nat, q: nat)
    requires Tree(pages, roots) && p in pages && q !in pages
    requires pages'.Keys == pages.Keys - {p} + {q} && pages'[q] == Relink(pages[p], p, q)
    requires forall x :: x in pages && x != p ==> pages'[x] == Relink(pages[x], p, q)
    ensures Tree(pages', if p in roots then roots - {p} + {q} else roots)
  {
    hide Reached;
    var roots' := if p in roots then roots - {p} + {q} else roots;
    forall y | y in pages' ensures Reached(pages', roots', y) {
      TouchReached(pages, pages', roots, p, q, if y == q then p else y);
    }
  }

  lemma TouchView(file: map<nat, Page>, owned: set<nat>, dirty: map<nat, Page>, p: nat, q: nat)
    requires owned <= file.Keys + dirty.Keys && p in owned && p !in dirty && q in dirty && q !in owned && p in file
    requires forall x :: x in owned && x !in dirty && x in file ==> p !in file[x].kids
    ensures var d := map x | x in dirty :: if x == q then file[p] else Relink(dirty[x], p, q);
            var pages, pages' := View(file, owned, dirty), View(file, owned - {p} + {q}, d);
            && p in pages && q !in pages
            && pages'.Keys == pages.Keys - {p} + {q}
            && pages'[q] == Relink(pages[p], p, q)
            && (forall x :: x in pages && x != p ==> pages'[x] == Relink(pages[x], p, q))
  {
  }

  lemma DivisionTouch(owned: set<nat>, spare: set<nat>, freed: set<nat>, loose: set<nat>, rest: set<nat>, next: nat,
                      p: nat, q: nat)
    requires Division(owned, spare, freed, loose, rest, next) && p in owned && q in spare
    ensures Division(owned - {p} + {q}, spare - {q}, freed + {p}, loose, rest, next)
  {
  }

  lemma TouchWriter(s: State, s': State, p: nat, q: nat)
    requires s.committed in s.hist && Touch(s, s', p, q) && WriterInv(s, s.writer.value)
    ensures WriterInv(s, s'.writer.value)
  {
    hide Tree, RecSafe, View, RecPages, RecsDisjoint, Fresh, Division, Remaining, Published, Range, Relink;
    var w, w' := s.writer.value, s'.writer.value;
    DivisionTouch(w.owned, w.spare, w.freed, w.loose, RecPages(Remaining(w.recs, w.pglast)), w.next, p, q);
    TouchView(s.file, w.owned, w.dirty, p, q);
    TouchTree(View(s.file, w.owned, w.dirty), View(s.file, w'.owned, w'.dirty), w.roots, p, q);
    assert w'.dirty.Keys == w.dirty.Keys;
  }

  lemma DivisionEdit(owned: set<nat>, spare: set<nat>, freed: set<nat>, loose: set<nat>, rest: set<nat>, next: nat,
                     added: set<nat>, dropped: set<nat>, returned: set<nat>)
    requires Division(owned, spare, freed, loose, rest, next)
    requires added <= spare && dropped <= owned && returned <= owned && dropped !! returned
    ensures Division(owned + added - dropped - returned, spare - added, freed + dropped, loose + returned, rest, next)
    ensures owned !! spare
  {
    forall p ensures
      Bit(p in owned + added - dropped - returned) + Bit(p in spare - added) + Bit(p in freed + dropped)
      + Bit(p in loose + returned) + Bit(p in rest) == Bit(2 <= p < next) && !(p in owned && p in spare)
    {
      assert Bit(p in owned) + Bit(p in spare) + Bit(p in freed) + Bit(p in loose) + Bit(p in rest) ==
        Bit(2 <= p < next);
    }
  }

  lemma EditWriter(s: State, s': State, roots: set<nat>, dirty: map<nat, Page>, added: set<nat>, dropped: set<nat>,
                   returned: set<nat>)
    requires s.committed in s.hist && Edit(s, s', roots, dirty, added, dropped, returned)
    requires WriterInv(s, s.writer.value)
    ensures WriterInv(s, s'.writer.value)
  {
    hide Tree, RecSafe, View, RecPages, RecsDisjoint, Fresh, Division, Remaining, Published, Range;
    var w, w' := s.writer.value, s'.writer.value;
    DivisionEdit(w.owned, w.spare, w.freed, w.loose, RecPages(Remaining(w.recs, w.pglast)), w.next, added, dropped,
                 returned);
    FreshMono(w.dirty.Keys + w.loose, w'.dirty.Keys + w'.loose, Published(s), Published(s), s.hist);
  }

  // ----- Saving the free list -------------------------------------------------------

  lemma InRecord(free: map<nat, set<nat>>, T: nat, p: nat)
    requires T in free && p in free[T]
    ensures p in RecPages(free)
  {
  }

  lemma RecordOf(free: map<nat, set<nat>>, p: nat) returns (T: nat)
    requires p in RecPages(free)
    ensures T in free && p in free[T]
  {
    T :| T in free && p in free[T];
  }

  lemma RecPagesAppend(a: map<nat, set<nat>>, b: map<nat, set<nat>>)
    requires a.Keys !! b.Keys
    ensures RecPages(a + b) == RecPages(a) + RecPages(b)
  {
    hide RecPages;
    forall p ensures p in RecPages(a + b) <==> p in RecPages(a) + RecPages(b) {
      if p in RecPages(a + b) {
        var T := RecordOf(a + b, p);
        if T in a { InRecord(a, T, p); } else { InRecord(b, T, p); }
      }
      if p in RecPages(a) { var T := RecordOf(a, p); InRecord(a + b, T, p); }
      if p in RecPages(b) { var T := RecordOf(b, p); InRecord(a + b, T, p); }
    }
  }

  lemma RecsDisjointAppend(a: map<nat, set<nat>>, b: map<nat, set<nat>>)
    requires a.Keys !! b.Keys && RecsDisjoint(a) && RecsDisjoint(b) && RecPages(a) !! RecPages(b)
    ensures RecsDisjoint(a + b)
  {
    hide RecPages;
    var c := a + b;
    forall T, U | T in c && U in c && T != U ensures c[T] !! c[U] {
      forall p | p in c[T] && p in c[U] ensures false {
        if T in a { InRecord(a, T, p); } else { InRecord(b, T, p); }
        if U in a { InRecord(a, U, p); } else { InRecord(b, U, p); }
      }
    }
  }

  lemma OwnRecordPages(id: nat, freed: set<nat>)
    ensures RecPages(OwnRecord(id, freed)) == freed && RecsDisjoint(OwnRecord(id, freed))
  {
    RecPagesUpdate(map[], id, freed);
    assert RecPages(map[]) == {};
    assert freed != {} ==> OwnRecord(id, freed) == map[][id := freed];
  }

  lemma DivisionSave(owned: set<nat>, freed: set<nat>, loose: set<nat>, rest: set<nat>, next: nat)
    requires Division(owned, {}, freed, loose, rest, next)
    ensures Division(owned, {}, {}, {}, loose + rest + freed, next)
    ensures loose !! rest && (loose + rest) !! freed
  {
    forall p ensures
      && Bit(p in owned) + Bit(p in loose + rest + freed) == Bit(2 <= p < next)
      && !(p in loose && p in rest) && !(p in loose + rest && p in freed)
    {
      assert Bit(p in owned) + Bit(p in freed) + Bit(p in loose) + Bit(p in rest) == Bit(2 <= p < next);
    }
  }

  /** Re-keying leftovers downward is safe because no live snapshot holds them at all. */
  lemma SaveRecSafe(left: map<nat, set<nat>>, rest: map<nat, set<nat>>, own: map<nat, set<nat>>,
                    live: set<nat>, hist: map<nat, Snapshot>, id: nat)
    requires Fresh(RecPages(left), live, hist) && RecSafe(rest, live, hist)
    requires forall t :: t in live ==> t < id
    requires own.Keys <= {id}
    ensures RecSafe(left + rest + own, live, hist)
  {
    var all := left + rest + own;
    forall T, t, p | T in all && t in live && t in hist && T <= t && p in all[T] ensures p !in hist[t].pages {
      if T !in own && T !in rest {
        assert p in RecPages(left);
      }
    }
  }

  lemma SaveRecords(left: map<nat, set<nat>>, recs: map<nat, set<nat>>, pglast: nat, id: nat, freed: set<nat>,
                    owned: set<nat>, loose: set<nat>, next: nat)
    requires forall T :: T in left ==> 1 <= T <= pglast
    requires forall T :: T in recs ==> 1 <= T < id
    requires RecsDisjoint(left) && RecPages(left) == loose && RecsDisjoint(Remaining(recs, pglast)) && pglast < id
    requires Division(owned, {}, freed, loose, RecPages(Remaining(recs, pglast)), next)
    ensures var all := left + Remaining(recs, pglast) + OwnRecord(id, freed);
            && RecsDisjoint(all) && Division(owned, {}, {}, {}, RecPages(all), next)
            && Remaining(all, 0) == all && (forall T :: T in all ==> 1 <= T <= id)
  {
    hide RecsDisjoint, RecPages, Division;
    var rest, own := Remaining(recs, pglast), OwnRecord(id, freed);
    OwnRecordPages(id, freed);
    DivisionSave(owned, freed, loose, RecPages(rest), next);
    RecPagesAppend(left, rest);
    RecsDisjointAppend(left, rest);
    RecPagesAppend(left + rest, own);
    RecsDisjointAppend(left + rest, own);
  }

  lemma SaveWriter(s: State, s': State, left: map<nat, set<nat>>)
    requires s.committed in s.hist && Save(s, s', left) && WriterInv(s, s.writer.value)
    requires RecSafe(s.hist[s.committed].free, Published(s), s.hist)
    requires forall T :: T in s.hist[s.committed].free ==> 1 <= T <= s.committed
    ensures WriterInv(s, s'.writer.value)
  {
    hide RecsDisjoint, RecPages, Division, Tree, View, RecSafe, Fresh, Remaining, Range, Live;
    var w, w' := s.writer.value, s'.writer.value;
    SaveRecords(left, w.recs, w.pglast, w.id, w.freed, w.owned, w.loose, w.next);
    FreshMono(w.dirty.Keys + w.loose, w.loose, Published(s), Published(s), s.hist);
    FreshMono(w.dirty.Keys + w.loose, w'.dirty.Keys + w'.loose, Published(s), Published(s), s.hist);
    RemainingSafe(w.recs, w.pglast, Published(s), s.hist);
    SaveRecSafe(left, Remaining(w.recs, w.pglast), OwnRecord(w.id, w.freed), Published(s), s.hist, w.id);
  }

  lemma RemainingSafe(recs: map<nat, set<nat>>, pglast: nat, live: set<nat>, hist: map<nat, Snapshot>)
    requires RecSafe(recs, live, hist)
    ensures RecSafe(Remaining(recs, pglast), live, hist)
  {
  }

  // ----- Steps that reach the file, the disk or the meta pages ------------------------

  lemma IntactUpdate(store: map<nat, Page>, sn: Snapshot, p: nat, pg: Page)
    requires PagesIntact(store, sn) && (p !in sn.pages || sn.pages[p] == pg)
    ensures PagesIntact(store[p := pg], sn)
  {
  }

  /** If only the stores change and every live snapshot stays intact, so does the history. */
  lemma HistStore(s: State, s': State)
    requires Live(s) <= s.hist.Keys && HistInv(s)
    requires s'.hist == s.hist && s'.readers == s.readers && s'.committed == s.committed
    requires Live(s') == Live(s) && WroteMeta(s') == WroteMeta(s)
    requires forall t :: t in Live(s) ==> PagesIntact(s'.file, s.hist[t]) && PagesIntact(s'.disk, s.hist[t])
    ensures HistInv(s')
  {
    hide SnapshotOk, Tree, PagesIntact, Range, Live, WroteMeta;
  }

  lemma LiveIsPublished(s: State)
    requires Inv(s) && !WroteMeta(s)
    ensures Live(s) == Published(s)
  {
    hide SnapshotOk, Tree, PagesIntact, Range, WriterInv;
    forall t | t in Live(s) ensures t <= s.committed {
    }
  }

  lemma FlushHist(s: State, s': State, p: nat)
    requires Live(s) <= s.hist.Keys && HistInv(s) && FlushPage(s, s', p) && Live(s) == Published(s)
    requires Fresh(s.writer.value.dirty.Keys + s.writer.value.loose, Published(s), s.hist)
    ensures HistInv(s')
  {
    hide SnapshotOk, Tree, PagesIntact, Range, UpTo;
    assert Live(s') == Live(s);
    forall t | t in Live(s) ensures PagesIntact(s'.file, s.hist[t]) {
      IntactUpdate(s.file, s.hist[t], p, s.writer.value.dirty[p]);
    }
    HistStore(s, s');
  }

  lemma FlushView(file: map<nat, Page>, owned: set<nat>, dirty: map<nat, Page>, p: nat)
    requires owned <= file.Keys + dirty.Keys && p in dirty
    ensures View(file[p := dirty[p]], owned, dirty) == View(file, owned, dirty)
  {
  }

  lemma FlushWriter(s: State, s': State, p: nat)
    requires s.committed in s.hist && FlushPage(s, s', p) && WriterInv(s, s.writer.value)
    ensures WriterInv(s', s.writer.value)
  {
    hide Tree, RecSafe, View, RecPages, RecsDisjoint, Fresh, Division, Remaining, Range;
    var w := s.writer.value;
    FlushView(s.file, w.owned, w.dirty, p);
    assert Live(s') == Live(s);
  }

  lemma FlushStep(s: State, s': State, p: nat)
    requires Inv(s) && FlushPage(s, s', p)
    ensures Inv(s')
  {
    hide HistInv, Tree, RecSafe, View, RecPages, RecsDisjoint, Fresh, Division, Remaining, Range, WriterPages,
         WriterOldest, WriterPhase, Published;
    LiveIsPublished(s);
    FlushHist(s, s', p);
    FlushWriter(s, s', p);
    assert Live(s') == Live(s);
  }

  lemma WriteBackStep(s: State, s': State, p: nat)
    requires Inv(s) && WriteBack(s, s', p)
    ensures Inv(s')
  {
    hide SnapshotOk, Tree, PagesIntact, Range, RecSafe, View, RecPages, RecsDisjoint, Fresh, Division, Remaining;
    assert Live(s') == Live(s);
    forall t | t in Live(s) ensures PagesIntact(s'.disk, s.hist[t]) {
      WriteBackIntact(s.file, s.disk, s.hist[t], p);
    }
    HistStore(s, s');
  }

  lemma WriteBackIntact(file: map<nat, Page>, disk: map<nat, Page>, sn: Snapshot, p: nat)
    requires PagesIntact(file, sn) && PagesIntact(disk, sn) && p in file
    ensures PagesIntact(disk[p := file[p]], sn)
  {
  }

  lemma WriteBackMetaStep(s: State, s': State, i: nat)
    requires Inv(s) && WriteBackMeta(s, s', i)
    ensures Inv(s')
  {
    hide SnapshotOk, Tree, PagesIntact, Range, RecSafe, View, RecPages, RecsDisjoint, Fresh, Division, Remaining;
    assert Live(s') == Live(s);
    HistStore(s, s');
  }

  lemma SyncStep(s: State, s': State)
    requires Inv(s) && Sync(s, s')
    ensures Inv(s')
  {
    hide SnapshotOk, Tree, PagesIntact, Range, RecSafe, View, RecPages, RecsDisjoint, Fresh, Division, Remaining;
    assert Live(s') == Live(s);
    HistStore(s, s');
  }

  lemma AbortStep(s: State, s': State)
    requires Inv(s) && Abort(s, s')
    ensures Inv(s')
  {
    hide HistInv, WriterInv;
    WriterOnly(s, s');
  }

  lemma RecSafeHist(free: map<nat, set<nat>>, live: set<nat>, live': set<nat>, hist: map<nat, Snapshot>,
                    hist': map<nat, Snapshot>)
    requires RecSafe(free, live, hist) && live' <= live
    requires forall t :: t in live' && t in hist' ==> t in hist && hist'[t] == hist[t]
    ensures RecSafe(free, live', hist')
  {
  }

  lemma SnapshotOkHist(t: nat, sn: Snapshot, live: set<nat>, live': set<nat>, hist: map<nat, Snapshot>,
                       hist': map<nat, Snapshot>)
    requires SnapshotOk(t, sn, live, hist) && UpTo(live', t) <= UpTo(live, t)
    requires forall u :: u in UpTo(live', t) && u in hist' ==> u in hist && hist'[u] == hist[u]
    ensures SnapshotOk(t, sn, live', hist')
  {
    hide Partition, Tree, RecSafe, UpTo;
    RecSafeHist(sn.free, UpTo(live, t), UpTo(live', t), hist, hist');
  }

  /** Everything the new snapshot names is on disk, and its free records are safe. */
  lemma NewSnapshotIntact(s: State, w: Writer)
    requires s.committed in s.hist && WriterPages(s, w)
    requires forall p :: p in w.dirty ==> p in s.file && p in s.disk && s.file[p] == w.dirty[p] == s.disk[p]
    requires PagesIntact(s.file, s.hist[s.committed]) && PagesIntact(s.disk, s.hist[s.committed])
    ensures var sn := Snapshot(w.roots, View(s.file, w.owned, w.dirty), w.recs, w.next);
            PagesIntact(s.file, sn) && PagesIntact(s.disk, sn) && sn.pages.Keys == w.owned
  {
  }

  lemma NewSnapshotOk(id: nat, sn: Snapshot, live: set<nat>, hist: map<nat, Snapshot>, hist': map<nat, Snapshot>)
    requires RecSafe(sn.free, live, hist) && hist' == hist[id := sn]
    requires Division(sn.pages.Keys, {}, {}, {}, RecPages(sn.free), sn.next) && RecsDisjoint(sn.free)
    requires Tree(sn.pages, sn.roots) && 2 <= sn.next && (forall T :: T in sn.free ==> 1 <= T <= id)
    requires forall t :: t in live ==> t < id
    ensures SnapshotOk(id, sn, live + {id}, hist')
  {
    hide Tree, Division, RecPages, RecsDisjoint;
    PartitionOfDivision(sn.pages.Keys, sn.free, sn.next);
    forall T, t, p | T in sn.free && t in live + {id} && t in hist' && T <= t && p in sn.free[T]
      ensures p !in hist'[t].pages
    {
      if t == id { InRecord(sn.free, T, p); }
    }
  }

  lemma WriteMetaNew(s: State, s': State)
    requires Inv(s) && WriteMeta(s, s')
    ensures s.committed in s.hist && s.writer.value.id == s.committed + 1
    ensures s'.hist == s.hist[s.committed + 1 := s'.hist[s.committed + 1]]
    ensures var sn := s'.hist[s.committed + 1];
            && PagesIntact(s'.file, sn) && PagesIntact(s'.disk, sn) && Tree(sn.pages, sn.roots)
            && SnapshotOk(s.committed + 1, sn, Live(s) + {s.committed + 1}, s'.hist)
            && s.hist[s.committed].next <= sn.next
  {
    hide Inv, Tree, Division, RecPages, RecsDisjoint, RecSafe, Fresh, View, UpTo, SnapshotOk, Live, PagesIntact,
         Partition, PagesBelow, WriterOldest, Range;
    CommittedFacts(s);
    InvWriter(s);
    LiveIsPublished(s);
    PublishedBelow(s);
    var w := s.writer.value;
    var sn := s'.hist[s.committed + 1];
    assert Remaining(w.recs, 0) == w.recs;
    NewSnapshotIntact(s, w);
    NewSnapshotOk(w.id, sn, Published(s), s.hist, s'.hist);
  }

  lemma PublishedBelow(s: State)
    ensures forall t :: t in Published(s) ==> t < s.committed + 1
  {
  }

  lemma WriteMetaHist(s: State, s': State)
    requires Inv(s) && WriteMeta(s, s') && Live(s') <= s'.hist.Keys
    ensures HistInv(s')
  {
    hide SnapshotOk, Tree, PagesIntact, Range, WriterInv;
    WriteMetaNew(s, s');
    LiveIsPublished(s);
    var c := s.committed;
    assert Live(s') == Live(s) + {c + 1};
    SnapshotOkHist(c, s.hist[c], Live(s), Live(s'), s.hist, s'.hist);
  }

  lemma WriteMetaMeta(s: State, s': State)
    requires MetaInv(s) && WriteMeta(s, s') && s.writer.value.id == s.committed + 1
    requires forall t :: t in Live(s) ==> t < s.committed + 1
    ensures MetaInv(s')
  {
    hide View;
    assert Live(s') == Live(s) + {s.committed + 1};
  }

  lemma WriteMetaStep(s: State, s': State)
    requires Inv(s) && WriteMeta(s, s')
    ensures Inv(s')
  {
    hide HistInv, WriterInv, View, Live, PagesIntact, SnapshotOk, UpTo;
    WriteMetaNew(s, s');
    LiveIsPublished(s);
    PublishedBelow(s);
    WriteMetaMeta(s, s');
    WriteMetaHist(s, s');
  }

  lemma PublishHist(s: State, s': State)
    requires Live(s) <= s.hist.Keys && HistInv(s) && Publish(s, s') && s.writer.value.id == s.committed + 1
    ensures Live(s') <= Live(s) && HistInv(s')
  {
    hide SnapshotOk, Tree, PagesIntact, Range;
    var c := s.committed;
    assert Live(s') <= Live(s);
    SnapshotOkMono(c + 1, s.hist[c + 1], Live(s), Live(s'), s.hist);
    SnapshotRange(c + 1, s.hist[c + 1], Live(s), s.hist);
    RangeMono(s.hist[c].next, s.hist[c + 1].next);
  }

  lemma PublishStep(s: State, s': State)
    requires Inv(s) && Publish(s, s')
    ensures Inv(s')
  {
    hide HistInv, WriterInv;
    PublishHist(s, s');
  }

  lemma SnapshotRange(t: nat, sn: Snapshot, live: set<nat>, hist: map<nat, Snapshot>)
    requires SnapshotOk(t, sn, live, hist)
    ensures sn.pages.Keys <= Range(sn.next)
  {
  }

  lemma CrashChoice(s: State, s': State)
    requires MetaInv(s) && Crash(s, s') && (forall t :: t in s.hist ==> t <= s.committed + 1)
    ensures s'.committed == s.committed || (s'.committed == s.committed + 1 && WroteMeta(s))
    ensures MetaInv(s') && Live(s') <= Live(s) && Live(s') == {s'.committed, Prev(s'.committed)}
    ensures forall t :: t in s'.hist ==> t in s.hist && t <= s'.committed && s'.hist[t] == s.hist[t]
  {
    assert Live(s') == {s'.committed, Prev(s'.committed)};
  }

  /** Whatever was durable at the moment of the crash, a whole snapshot is recovered. */
  lemma CrashHist(s: State, s': State)
    requires Live(s) <= s.hist.Keys && HistInv(s) && Crash(s, s')
    requires s'.committed == s.committed || (s'.committed == s.committed + 1 && WroteMeta(s))
    requires Live(s') <= Live(s) && Live(s') == {s'.committed, Prev(s'.committed)} && Live(s') <= s'.hist.Keys
    ensures HistInv(s')
  {
    hide SnapshotOk, Tree, PagesIntact, Range, Live;
    var c, c' := s.committed, s'.committed;
    SnapshotOkHist(c', s.hist[c'], Live(s), Live(s'), s.hist, s'.hist);
    if c' == c + 1 {
      SnapshotRange(c + 1, s.hist[c + 1], Live(s), s.hist);
      RangeMono(s.hist[c].next, s.hist[c + 1].next);
    }
  }

  lemma CrashStep(s: State, s': State)
    requires Inv(s) && Crash(s, s')
    ensures Inv(s') && s.committed <= s'.committed <= s.committed + 1
    ensures s'.committed == s.committed + 1 ==> WroteMeta(s)
  {
    hide MetaInv, HistInv, WriterInv;
    MetaLive(s);
    CrashChoice(s, s');
    MetaLive(s');
    CrashHist(s, s');
  }

  lemma MetaLive(s: State)
    requires MetaInv(s)
    ensures Live(s) <= s.hist.Keys && (HistInv(s) ==> forall t :: t in s.hist ==> t <= s.committed + 1)
  {
    hide SnapshotOk, Tree, PagesIntact, Range, Live;
  }

  lemma RangeMono(m: nat, n: nat)
    requires m <= n
    ensures Range(m) <= Range(n)
  {
  }

  lemma WriterStep(s: State, s': State, st: Step)
    requires Inv(s) && Next(s, s', st)
    requires st.SBeginWrite? || st.SFindOldest? || st.SFetch? || st.SAlloc? || st.STouch? || st.SEdit? || st.SSave?
    ensures Inv(s')
  {
    hide Inv, WriterInv, Live, Published, Fresh, RecSafe, Partition, Tree, PagesIntact, PagesBelow,
         IsOldest, Interval, AllocReuse, AllocExtend, View, Remaining, RecPages, RecsDisjoint, OwnRecord, Relink;
    CommittedFacts(s);
    if !st.SBeginWrite? { InvWriter(s); }
    match st {
      case SBeginWrite => BeginWriteWriter(s, s');
      case SFindOldest(o) => FindOldestWriter(s, s', o);
      case SFetch(T) => FetchedIsFresh(s, T); FetchBound(s, T); FetchWriter(s, s', T);
      case SAlloc(pgno, num, content) => AllocWriter(s, s', pgno, num, content);
      case STouch(p, q) => TouchWriter(s, s', p, q);
      case SEdit(roots, dirty, added, dropped, returned) => EditWriter(s, s', roots, dirty, added, dropped, returned);
      case SSave(left) => SaveWriter(s, s', left);
    }
    WriterOnly(s, s');
  }

  lemma FetchBound(s: State, T: nat)
    requires s.committed in s.hist && s.writer.Some? && WriterInv(s, s.writer.value)
    requires s.writer.value.oldest.Some? && T < s.writer.value.oldest.value
    ensures T < s.committed + 1
  {
    hide Tree, RecSafe, View, RecPages, RecsDisjoint, Fresh, Division, Remaining, Published, Range, WriterPhase,
         WriterPages;
  }

  lemma StepInv(s: State, s': State, st: Step)
    requires Inv(s) && Next(s, s', st)
    ensures Inv(s')
  {
    hide Inv, BeginRead, EndRead, BeginWrite, FindOldest, FetchRecord, Alloc, Touch, Edit, Save, FlushPage, WriteBack,
         WriteBackMeta, Sync, WriteMeta, Publish, Abort, Crash;
    match st {
      case SBeginRead(slot) => ReadSteps(s, s', slot);
      case SEndRead(slot) => ReadSteps(s, s', slot);
      case SFlush(p) => FlushStep(s, s', p);
      case SWriteBack(p) => WriteBackStep(s, s', p);
      case SWriteBackMeta(i) => WriteBackMetaStep(s, s', i);
      case SSync => SyncStep(s, s');
      case SWriteMeta => WriteMetaStep(s, s');
      case SPublish => PublishStep(s, s');
      case SAbort => AbortStep(s, s');
      case SCrash => CrashStep(s, s');
      case _ => WriterStep(s, s', st);
    }
  }

  /** The invariant holds in every state of every run. */
  lemma {:induction false} RunInv(states: seq<State>, steps: seq<Step>, i: nat)
    requires Run(states, steps) && i < |states|
    ensures Inv(states[i])
  {
    hide Inv, Next;
    if i == 0 {
      InitInv(states[0]);
    } else {
      RunInv(states, steps, i - 1);
      StepInv(states[i - 1], states[i], steps[i - 1]);
    }
  }

  // ----- Main results ---------------------------------------------------------------

  /** Following pointers in an intact store never leaves the snapshot nor sees another version. */
  lemma {:induction false} WalkIntact(store: map<nat, Page>, sn: Snapshot, path: seq<nat>)
    requires PagesIntact(store, sn) && Tree(sn.pages, sn.roots) && IsPath(store, sn.roots, path)
    ensures forall i :: 0 <= i < |path| ==> path[i] in sn.pages && store[path[i]] == sn.pages[path[i]]
  {
    hide Tree, IsPath;
    PathStart(store, sn, path);
    if |path| > 1 {
      var front := path[..|path| - 1];
      PathFront(store, sn.roots, path);
      WalkIntact(store, sn, front);
      assert path[|path| - 2] == front[|path| - 2];
      KidsKept(sn, path[|path| - 2], path[|path| - 1]);
      assert forall i :: 0 <= i < |front| ==> path[i] == front[i];
    }
  }

  lemma PathStart(store: map<nat, Page>, sn: Snapshot, path: seq<nat>)
    requires Tree(sn.pages, sn.roots) && IsPath(store, sn.roots, path)
    ensures path != [] && path[0] in sn.pages && forall i :: 0 <= i < |path| ==> path[i] in store
  {
    hide Reached, Kids;
  }

  lemma PathFront(store: map<nat, Page>, roots: set<nat>, path: seq<nat>)
    requires IsPath(store, roots, path) && |path| > 1
    ensures IsPath(store, roots, path[..|path| - 1]) && path[|path| - 2] in store
    ensures path[|path| - 1] in store[path[|path| - 2]].kids
  {
    assert path[|path| - 2 + 1] == path[|path| - 1];
  }

  lemma KidsKept(sn: Snapshot, p: nat, q: nat)
    requires Tree(sn.pages, sn.roots) && p in sn.pages && q in sn.pages[p].kids
    ensures q in sn.pages
  {
    hide Reached;
  }

  /** Snapshot isolation, one step: whatever happens short of a crash, the pages of every
      live snapshot keep their contents, in the file and on disk. */
  lemma LivePagesKept(s: State, s': State, st: Step, t: nat, p: nat)
    requires Inv(s) && Next(s, s', st) && !st.SCrash? && t in Live(s) && t in s.hist && p in s.hist[t].pages
    ensures p in s.file && p in s'.file && s'.file[p] == s.file[p] == s.hist[t].pages[p]
    ensures p in s'.disk && s'.disk[p] == s.hist[t].pages[p]
  {
    hide Inv, Next, Live, Alive;
    LiveAlive(s, t);
    AliveAt(s.file, s.disk, s.hist[t], p);
    if st.SFlush? {
      FlushesDirty(s, s', st.p);
      WriterAvoidsLive(s, t);
    }
    StoresKept(s, s', st, p);
  }

  lemma LiveAlive(s: State, t: nat)
    requires Inv(s) && t in Live(s) && t in s.hist
    ensures Alive(s.file, s.disk, s.hist[t])
  {
    hide Live, Alive, SnapshotOk, WriterInv, MetaInv;
  }

  lemma AliveAt(file: map<nat, Page>, disk: map<nat, Page>, sn: Snapshot, p: nat)
    requires Alive(file, disk, sn) && p in sn.pages
    ensures p in file && p in disk && file[p] == disk[p] == sn.pages[p]
  {
    hide Tree;
  }

  lemma FlushesDirty(s: State, s': State, p: nat)
    requires Next(s, s', SFlush(p))
    ensures s.writer.Some? && !WroteMeta(s) && p in s.writer.value.dirty
  {
  }

  /** Only flushing writes to the file, and the disk gets what the file has. */
  lemma StoresKept(s: State, s': State, st: Step, p: nat)
    requires Next(s, s', st) && !st.SCrash? && p in s.file && p in s.disk && s.disk[p] == s.file[p]
    requires st.SFlush? ==> st.p != p
    ensures p in s'.file && p in s'.disk && s'.file[p] == s'.disk[p] == s.file[p]
  {
    hide Tree, RecSafe, View, RecPages, RecsDisjoint, Remaining, IsOldest, AllocReuse, AllocExtend, Interval,
         OwnRecord, Relink;
  }

  /** Transaction N never allocates, dirties or holds in me_pghead a page of a live snapshot;
      N-1 and N-2 are always live. */
  lemma WriterAvoidsLive(s: State, t: nat)
    requires Inv(s) && s.writer.Some? && !WroteMeta(s) && t in Live(s) && t in s.hist
    ensures s.writer.value.id == s.committed + 1
    ensures {s.committed, Prev(s.committed)} <= Live(s)
    ensures s.hist[t].pages.Keys !! s.writer.value.dirty.Keys
    ensures s.hist[t].pages.Keys !! s.writer.value.loose
  {
    hide Inv, Tree, RecSafe, View, RecPages, RecsDisjoint, Division, Remaining, Range, WriterOldest, WriterPhase,
         Published, Fresh;
    LiveIsPublished(s);
    InvWriter(s);
    FreshApart(s.writer.value.dirty.Keys + s.writer.value.loose, Published(s), s.hist, t);
  }

  lemma FreshApart(ps: set<nat>, live: set<nat>, hist: map<nat, Snapshot>, t: nat)
    requires Fresh(ps, live, hist) && t in live && t in hist
    ensures hist[t].pages.Keys !! ps
  {
  }

  /** The history below the published transaction is never rewritten, and ids never go back. */
  lemma HistoryKept(s: State, s': State, st: Step)
    requires Inv(s) && Next(s, s', st)
    ensures s.committed <= s'.committed
    ensures forall t :: t in s.hist && t <= s.committed ==> t in s'.hist && s'.hist[t] == s.hist[t]
  {
    hide Inv;
    if st.SCrash? {
      hide Next;
      CrashStep(s, s');
    } else {
      HistoryGrows(s, s', st);
    }
  }

  /** Short of a crash the history changes in one place, above what is published. */
  lemma HistoryGrows(s: State, s': State, st: Step)
    requires Inv(s) && Next(s, s', st) && !st.SCrash?
    ensures s.committed <= s'.committed
    ensures s'.hist == s.hist ||
      (s.committed + 1 in s'.hist && s'.hist == s.hist[s.committed + 1 := s'.hist[s.committed + 1]])
  {
    hide Inv, Tree, View, RecPages, RecsDisjoint, Remaining, IsOldest, AllocReuse, AllocExtend, Interval, OwnRecord,
         Relink, Range;
    if st.SWriteMeta? || st.SPublish? { WriterId(s); }
  }

  lemma WriterId(s: State)
    requires Inv(s) && s.writer.Some?
    ensures s.writer.value.id == s.committed + 1
  {
    hide HistInv, Fresh, RecsDisjoint, Division, Tree, WriterPhase, WriterOldest;
  }

  /** Durability: over any stretch of any run, crashes included, a published transaction stays
      published and its snapshot stays what it was. */
  lemma {:induction false} Durability(states: seq<State>, steps: seq<Step>, i: nat, j: nat)
    requires Run(states, steps) && i <= j < |states|
    ensures states[i].committed <= states[j].committed
    ensures forall t :: t in states[i].hist && t <= states[i].committed ==>
                          t in states[j].hist && states[j].hist[t] == states[i].hist[t]
  {
    hide Inv, Next;
    if i < j {
      Durability(states, steps, i, j - 1);
      RunInv(states, steps, j - 1);
      HistoryKept(states[j - 1], states[j], steps[j - 1]);
    }
  }

  lemma SlotKeepsId(s: State, s': State, st: Step, slot: nat)
    requires Inv(s) && Next(s, s', st) && slot in s.readers && slot in s'.readers
    ensures s'.readers[slot] == s.readers[slot] && s.readers[slot] <= s.committed && s.readers[slot] in s.hist
    ensures s.readers[slot] in Live(s)
  {
    hide Inv, Tree, View, RecPages, RecsDisjoint, Remaining, IsOldest, AllocReuse, AllocExtend, Interval, OwnRecord,
         Relink, Range, Live;
    ReaderLive(s, slot);
  }

  lemma ReaderLive(s: State, slot: nat)
    requires Inv(s) && slot in s.readers
    ensures s.readers[slot] <= s.committed && s.readers[slot] in s.hist && s.readers[slot] in Live(s)
  {
    hide SnapshotsOk, Alive, WriterInv;
    assert s.readers[slot] in s.readers.Values;
  }

  /** Snapshot isolation over whole runs: while a reader slot stays in use, it keeps one
      transaction id, and every pointer path from that snapshot's roots through the shared file
      visits exactly the pages of the snapshot as they were committed. */
  lemma {:induction false} SnapshotIsolation(states: seq<State>, steps: seq<Step>, i: nat, j: nat, slot: nat)
    requires Run(states, steps) && i <= j < |states|
    requires forall k :: i <= k <= j ==> slot in states[k].readers
    ensures var t := states[i].readers[slot];
            && states[j].readers[slot] == t && t in states[i].hist && t in states[j].hist
            && states[j].hist[t] == states[i].hist[t]
            && PagesIntact(states[j].file, states[i].hist[t])
            && WalksAgree(states[j].file, states[i].hist[t])
    decreases j
  {
    hide Inv, Next, PagesIntact, WalksAgree, Tree, Live;
    RunInv(states, steps, j);
    if i < j {
      SnapshotIsolation(states, steps, i, j - 1, slot);
      RunInv(states, steps, j - 1);
      SlotKeepsId(states[j - 1], states[j], steps[j - 1], slot);
      HistoryKept(states[j - 1], states[j], steps[j - 1]);
    }
    ReaderSees(states[j], slot);
  }

  /** Every pointer path from the snapshot's roots through `store` sees the snapshot. */
  ghost predicate WalksAgree(store: map<nat, Page>, sn: Snapshot) {
    forall path, k :: IsPath(store, sn.roots, path) && 0 <= k < |path| ==>
                        path[k] in sn.pages && store[path[k]] == sn.pages[path[k]]
  }

  lemma WalksAgreeIntact(store: map<nat, Page>, sn: Snapshot)
    requires PagesIntact(store, sn) && Tree(sn.pages, sn.roots)
    ensures WalksAgree(store, sn)
  {
    forall path, k | IsPath(store, sn.roots, path) && 0 <= k < |path|
      ensures path[k] in sn.pages && store[path[k]] == sn.pages[path[k]]
    {
      WalkIntact(store, sn, path);
    }
  }

  lemma ReaderSees(s: State, slot: nat)
    requires Inv(s) && slot in s.readers
    ensures var t := s.readers[slot];
            t in s.hist && PagesIntact(s.file, s.hist[t]) && WalksAgree(s.file, s.hist[t])
  {
    hide SnapshotOk, Tree, PagesIntact, WriterInv, Range, WalksAgree;
    var t := s.readers[slot];
    assert t in s.readers.Values;
    WalksAgreeIntact(s.file, s.hist[t]);
  }

  /** Crash atomicity: stop a run anywhere, with any subset of its writes durable.  The newer
      durable meta page names the published snapshot or, once its meta page was written, the
      whole new one; and what can be reached from it on disk is exactly that snapshot. */
  lemma CrashAtomicity(states: seq<State>, steps: seq<Step>, i: nat)
    requires Run(states, steps) && i < |states|
    ensures var s := states[i];
            && |s.dmeta| == 2
            && var m := s.dmeta[PickMeta(s.dmeta)];
            && (m.txnid == s.committed || (m.txnid == s.committed + 1 && WroteMeta(s)))
            && m.txnid in s.hist && m == MetaOf(m.txnid, s.hist[m.txnid])
            && PagesIntact(s.disk, s.hist[m.txnid])
            && Tree(s.hist[m.txnid].pages, m.roots)
            && WalksAgree(s.disk, s.hist[m.txnid])
  {
    hide Next, Tree, PagesIntact, WalksAgree, SnapshotOk, WriterInv, Range;
    RunInv(states, steps, i);
    var s := states[i];
    WalksAgreeIntact(s.disk, s.hist[s.dmeta[PickMeta(s.dmeta)].txnid]);
  }

  /** Number of page numbers written in the free records, as mdb_audit adds them up. */
  ghost function FreeCount(free: map<nat, set<nat>>): nat
    decreases |free|
  {
    if free == map[] then 0 else
      var T :| T in free;
      |free[T]| + FreeCount(free - {T})
  }

  lemma {:induction false} FreeCountIsPages(free: map<nat, set<nat>>)
    requires RecsDisjoint(free)
    ensures FreeCount(free) == |RecPages(free)|
    decreases |free|
  {
    hide RecPages, RecsDisjoint;
    if free == map[] {
      NoRecords();
    } else {
      var T :| T in free && FreeCount(free) == |free[T]| + FreeCount(free - {T});
      var rest := free - {T};
      assert free == rest[T := free[T]];
      RecPagesUpdate(rest, T, free[T]);
      FreeCountIsPages(rest);
    }
  }

  lemma NoRecords()
    ensures RecPages(map[]) == {}
  {
  }

  /** Page conservation: in every state of every run the published version's tree pages and free
      records share out the pages from 2 up to its end, none lost and none twice; every tree page
      is reachable; and the count mdb_audit checks comes out exactly. */
  lemma PageConservation(states: seq<State>, steps: seq<Step>, i: nat)
    requires Run(states, steps) && i < |states|
    ensures states[i].committed in states[i].hist
    ensures var c := states[i].hist[states[i].committed];
            && Partition(c.pages.Keys, c.free, c.next)
            && Tree(c.pages, c.roots)
            && FreeCount(c.free) + |c.pages| + 2 == c.next
  {
    hide Next, Inv, Tree, PagesIntact, RecSafe, PagesBelow, Published, RecPages, RecsDisjoint, FreeCount;
    RunInv(states, steps, i);
    CommittedFacts(states[i]);
    var c := states[i].hist[states[i].committed];
    FreeCountIsPages(c.free);
    assert |c.pages.Keys + RecPages(c.free)| == |c.pages.Keys| + |RecPages(c.free)|;
  }
}
