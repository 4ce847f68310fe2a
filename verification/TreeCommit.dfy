/**
 From one published version to the next, for a tree: a write transaction finds the tree of the published version, and
 what its pages hold when it is done is the tree of the version it publishes.
 */
module TreeCommit {
  import opened Common
  import opened BTree
  import opened TreeStep
  import opened Versions
  import Mvcc

  /** The version has the tree t and other trees beside it. */
  ghost predicate HeldBy(v: Version, t: Placed, rest: map<nat, Mvcc.Page>, others: set<nat>, pay: Body -> int) {
    && v.roots == {t.pg} + others && v.pages.Keys == Nums(t) + rest.Keys && Nums(t) !! rest.Keys
    && Mvcc.Tree(rest, others) && Apart(t) && Holds(v.pages, t, pay)
    && forall q :: q in rest && q in v.pages ==> v.pages[q] == rest[q]
  }

  lemma ShownIs(s: Mvcc.State, t: Placed, rest: map<nat, Mvcc.Page>, others: set<nat>, pay: Body -> int)
    requires s.writer.Some? && s.writer.value.owned <= s.file.Keys + s.writer.value.dirty.Keys
    ensures Shown(s, t, rest, others, pay) <==>
      s.writer.value.phase.Active? && HeldBy(Current(s), t, rest, others, pay)
  {
    hide Holds, Nums, Apart, Mvcc.Tree, Seen;
    var w := s.writer.value;
    SeenIsView(s.file, w.owned, w.dirty);
  }

  lemma {:induction false} ReplaySplit(v: Version, a: seq<Mvcc.Step>, b: seq<Mvcc.Step>)
    ensures Replay(v, a + b) == Replay(Replay(v, a), b)
    decreases |b|
  {
    hide Changed;
    if b == [] {
      assert a + b == a;
    } else {
      var n := |b| - 1;
      ReplaySplit(v, a, b[..n]);
      assert (a + b)[..|a| + n] == a + b[..n];
    }
  }

  /** Steps that leave all pages as they are. */
  ghost predicate Quiet(steps: seq<Mvcc.Step>, lo: nat, hi: nat) {
    forall k :: lo <= k < hi && k < |steps| ==> !steps[k].STouch? && !steps[k].SEdit?
  }

  /** The writer finds the tree of the published version. */
  lemma StartsWithTree(states: seq<Mvcc.State>, steps: seq<Mvcc.Step>, i: nat, k: nat, t: Placed,
                       rest: map<nat, Mvcc.Page>, others: set<nat>, pay: Body -> int)
    requires Mvcc.Run(states, steps) && i < k <= |steps| && steps[i] == Mvcc.SBeginWrite && Quiet(steps, i + 1, k)
    requires forall m :: i < m < k ==> Within(steps[m])
    requires var s := states[i]; s.committed in s.hist && HeldBy(VersionOf(s.hist[s.committed]), t, rest, others, pay)
    requires states[k].writer.Some? ==> states[k].writer.value.phase.Active?
    ensures Shown(states[k], t, rest, others, pay)
  {
    hide Mvcc.Inv, Mvcc.Next, HeldBy, Shown, Current, Replay;
    VersionBuilt(states, steps, i, k);
    NothingChanged(VersionOf(states[i].hist[states[i].committed]), steps[i + 1..k]);
    Mvcc.RunInv(states, steps, k);
    WriterHas(states[k]);
    ShownIs(states[k], t, rest, others, pay);
  }

  /** What the writer's pages hold after its last edit is the tree of the version it publishes. */
  lemma TreeIsPublished(states: seq<Mvcc.State>, steps: seq<Mvcc.Step>, i: nat, k: nat, j: nat, t: Placed,
                        rest: map<nat, Mvcc.Page>, others: set<nat>, pay: Body -> int)
    requires Commits(states, steps, i, j) && i < k <= j && Quiet(steps, k, j)
    requires Shown(states[k], t, rest, others, pay)
    ensures var s := states[j + 1];
      && s.committed == states[i].committed + 1 && s.committed in s.hist
      && HeldBy(VersionOf(s.hist[s.committed]), t, rest, others, pay)
  {
    hide Mvcc.Inv, Mvcc.Next, HeldBy, Current, Replay, Holds, Nums, Apart, Mvcc.Tree;
    VersionBuilt(states, steps, i, k);
    CommitIsReplay(states, steps, i, j);
    var v, a, b := VersionOf(states[i].hist[states[i].committed]), steps[i + 1..k], steps[k..j];
    assert steps[i + 1..j] == a + b;
    ReplaySplit(v, a, b);
    NothingChanged(Replay(v, a), b);
    Mvcc.RunInv(states, steps, k);
    WriterHas(states[k]);
    ShownIs(states[k], t, rest, others, pay);
  }
}
