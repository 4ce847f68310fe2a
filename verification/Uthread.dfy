/**
 The wait barrier of lua-uthread.c.  A coroutine waits for others and is resumed by the last of
 them to finish; a resumed waiter may itself wait, resume or finish before the loop that resumed
 it goes on.  The C stack of nested resumes is the control stack of a transition system, whose
 runs are all programs.
 */
module Uthread {
  import opened Common

  type Co = int

  const SLOTS: nat := 6

  /** The counter of a waiter is 16 bits wide. */
  const LAP: nat := 0x1_0000

  datatype Status = Fresh | Yielded | Active | Done

  /** rb_key_t: the coroutines waiting for this one, and its own counters as a waiter. */
  datatype Key = Key(waiting: seq<Co>, w: nat, wd: bool)

  /** A resumed coroutine, or the loop over the waiters of a finished one. */
  datatype Ctl = Run(co: Co) | Loop(co: Co)

  /** What a blocked coroutine waits for: all it registered on, and what is still unprocessed. */
  datatype Wait = Wait(targets: seq<Co>, open: multiset<Co>)

  /** What a waiter is handed: the results of the one coroutine it waited for, or a flag. */
  datatype Got = ResultsOf(co: Co) | Flag(b: bool) | Elsewhere

  /** How a coroutine ended: how many results it left, and the flag its waiters get without any. */
  datatype End = End(results: nat, ok: bool)

  datatype Event = Blocks(co: Co, targets: seq<Co>) | Wakes(co: Co, got: Got) | Ends(co: Co, end: End)

  /** How far the loop over the waiters has come, and how the finished coroutine ended. */
  datatype Progress = Progress(i: nat, results: nat, ok: bool)

  /** blocked and log are not in the program; they record what the coroutines have seen. */
  datatype State = State(
    status: map<Co, Status>, keys: map<Co, Key>, stack: seq<Ctl>, index: map<Co, Progress>,
    blocked: map<Co, Wait>, log: seq<Event>)

  function StatusOf(s: State, co: Co): Status {
    if co in s.status then s.status[co] else Fresh
  }

  /** get_thread_rbtree_key: a key is made when there is none. */
  function KeyOf(keys: map<Co, Key>, co: Co): Key {
    if co in keys then keys[co] else Key([], 0, false)
  }

  // ----- wait -------------------------------------------------------------------------------

  /** Registration of x on co: a slot there, and one more to wait for. */
  function Register(keys: map<Co, Key>, x: Co, co: Co): map<Co, Key> {
    var k := KeyOf(keys, co);
    var keys1 := keys[co := k.(waiting := k.waiting + [x])];
    var kx := KeyOf(keys1, x);
    var w := (kx.w + 1) % LAP;
    keys1[x := kx.(w := w, wd := kx.wd || w > 1)]
  }

  predicate Accepts(status: map<Co, Status>, keys: map<Co, Key>, co: Co) {
    co in status && status[co] == Yielded && |KeyOf(keys, co).waiting| < SLOTS
  }

  /** The arguments of wait in turn: those yielded and with a free slot are registered on. */
  function RegisterAll(status: map<Co, Status>, keys: map<Co, Key>, x: Co, args: seq<Co>): (map<Co, Key>, seq<Co>) {
    if args == [] then (keys, []) else
      var (keys1, regs) := RegisterAll(status, keys, x, args[..|args| - 1]);
      var co := args[|args| - 1];
      if Accepts(status, keys1, co) then (Register(keys1, x, co), regs + [co]) else (keys1, regs)
  }

  method WaitLoop(status: map<Co, Status>, keys: map<Co, Key>, x: Co, args: seq<Co>)
    returns (keys': map<Co, Key>, waited: nat)
    ensures keys' == RegisterAll(status, keys, x, args).0 && waited == |RegisterAll(status, keys, x, args).1|
  {
    keys', waited := keys, 0;
    assert args[..0] == [];
    for i := 0 to |args|
      invariant keys' == RegisterAll(status, keys, x, args[..i]).0
      invariant waited == |RegisterAll(status, keys, x, args[..i]).1|
    {
      assert args[..i + 1][..i] == args[..i];
      if Accepts(status, keys', args[i]) {
        keys', waited := Register(keys', x, args[i]), waited + 1;
      }
    }
    assert args[..|args|] == args;
  }

  // ----- steps ------------------------------------------------------------------------------

  datatype Step =
    | Resume(co: Co)                  // the event loop or running code resumes a coroutine
    | Yield                           // the running coroutine yields, not in wait
    | Waits(args: seq<Co>)            // the running coroutine calls wait
    | Finish(results: nat, ok: bool)  // the running coroutine returns or fails
    | Turn                            // one turn of the innermost loop over waiters

  /** Lua code runs, or nothing does and the event loop is free. */
  predicate CodeRuns(s: State) {
    s.stack == [] || s.stack[|s.stack| - 1].Run?
  }

  function Top(s: State): Ctl
    requires s.stack != []
  {
    s.stack[|s.stack| - 1]
  }

  function Pop(s: State): seq<Ctl>
    requires s.stack != []
  {
    s.stack[..|s.stack| - 1]
  }

  predicate Enabled(s: State, step: Step) {
    match step
    case Resume(co) => CodeRuns(s) && (StatusOf(s, co) == Yielded || StatusOf(s, co) == Fresh)
    case Turn => s.stack != [] && Top(s).Loop? && Top(s).co in s.index
    case _ => s.stack != [] && Top(s).Run?
  }

  function Apply(s: State, step: Step): State
    requires Enabled(s, step)
  {
    match step
    case Resume(co) => Resumed(s, co, Elsewhere)
    case Yield =>
      s.(status := s.status[Top(s).co := Yielded], stack := Pop(s))
    case Waits(args) =>
      var x := Top(s).co;
      var (keys', regs) := RegisterAll(s.status, s.keys, x, args);
      if regs == [] then s else
        s.(status := s.status[x := Yielded], keys := keys', stack := Pop(s),
          blocked := s.blocked[x := Wait(regs, multiset(regs))], log := s.log + [Blocks(x, regs)])
    case Finish(n, ok) =>
      var x := Top(s).co;
      s.(status := s.status[x := Done], keys := s.keys[x := KeyOf(s.keys, x)], stack := Pop(s) + [Loop(x)],
        index := s.index[x := Progress(0, n, ok)], log := s.log + [Ends(x, End(n, ok))])
    case Turn =>
      var x := Top(s).co;
      if s.index[x].i < |KeyOf(s.keys, x).waiting| then TakeTurn(s, x) else
        s.(keys := s.keys - {x}, stack := Pop(s), index := s.index - {x})
  }

  /** A coroutine is put on the control stack; if it was blocked it is so no more. */
  function Resumed(s: State, co: Co, got: Got): State {
    s.(status := s.status[co := Active], stack := s.stack + [Run(co)],
      blocked := s.blocked - {co}, log := if co in s.blocked then s.log + [Wakes(co, got)] else s.log)
  }

  /** One waiter of the finished x: counted down, and resumed when that was the last. */
  function TakeTurn(s: State, x: Co): State
    requires x in s.index && s.index[x].i < |KeyOf(s.keys, x).waiting|
  {
    var at := s.index[x];
    var co := KeyOf(s.keys, x).waiting[at.i];
    var s1 := s.(index := s.index[x := at.(i := at.i + 1)]);
    if StatusOf(s, co) != Yielded then s1 else
      var k := KeyOf(s.keys, co);
      var w := if k.w == 0 then LAP - 1 else k.w - 1;
      if w != 0 then Counted(s1, co, k.(w := w), x)
      else if at.results > 0 && !k.wd then Resumed(Counted(s1, co, k.(w := 0), x), co, ResultsOf(x))
      else Resumed(Counted(s1, co, k.(w := 0, wd := false), x), co, Flag(k.wd || at.ok))
  }

  function Counted(s: State, co: Co, k: Key, x: Co): State {
    s.(keys := s.keys[co := k],
      blocked :=
        if co in s.blocked then s.blocked[co := Wait(s.blocked[co].targets, s.blocked[co].open - multiset{x})]
        else s.blocked)
  }

  // ----- invariant -----------------------------------------------------------------------------

  /** The waiters of co that have not been counted down. */
  function Unprocessed(s: State, co: Co): seq<Co> {
    var ws := KeyOf(s.keys, co).waiting;
    if co in s.index && s.index[co].i <= |ws| then ws[s.index[co].i..] else ws
  }

  function Open(s: State, x: Co): multiset<Co> {
    if x in s.blocked then s.blocked[x].open else multiset{}
  }

  /** Every unprocessed registration is one the waiter still waits for, and the other way round. */
  ghost predicate Listed(s: State) {
    forall x: Co, co: Co :: Open(s, x)[co] == multiset(Unprocessed(s, co))[x]
  }

  /** The counter is the number of unprocessed registrations, up to its width; only a blocked one has any. */
  ghost predicate Counts(s: State) {
    forall x: Co :: Counter(s, x)
  }

  ghost predicate Counter(s: State, x: Co) {
    var k := KeyOf(s.keys, x);
    && k.w == |Open(s, x)| % LAP
    && (x in s.blocked ==> StatusOf(s, x) == Yielded && SameLap(s.blocked[x]))
    && (k.wd <==> x in s.blocked && |s.blocked[x].targets| > 1)
  }

  /** The counter has not come to zero since the wait began. */
  ghost predicate SameLap(b: Wait) {
    |b.open| > 0 && b.targets != [] && (|b.open| - 1) / LAP == (|b.targets| - 1) / LAP
  }

  ghost predicate Control(s: State) {
    && (forall i :: 0 <= i < |s.stack| ==>
         if s.stack[i].Run? then StatusOf(s, s.stack[i].co) == Active
         else s.stack[i].co in s.index && StatusOf(s, s.stack[i].co) == Done)
    && (forall i, j :: 0 <= i < j < |s.stack| ==> s.stack[i].co != s.stack[j].co)
    && (forall co :: co in s.index ==> Loop(co) in s.stack && s.index[co].i <= |KeyOf(s.keys, co).waiting|)
  }

  /** A finished coroutine outside the loops has no waiters left; slots are limited. */
  ghost predicate Ended(s: State) {
    && (forall co :: StatusOf(s, co) == Done && co !in s.index ==> KeyOf(s.keys, co).waiting == [])
    && (forall co :: |KeyOf(s.keys, co).waiting| <= SLOTS)
  }

  /** What a blocked coroutine registered on and has not ended is still unprocessed. */
  ghost predicate Unfinished(s: State) {
    forall x :: x in s.blocked ==> StillOpen(s, x)
  }

  ghost predicate StillOpen(s: State, x: Co)
    requires x in s.blocked
  {
    var b := s.blocked[x];
    && (forall i :: 0 <= i < |b.targets| && StatusOf(s, b.targets[i]) != Done ==> b.targets[i] in b.open)
    && b.open <= multiset(b.targets)
  }

  // ----- what the coroutines see ----------------------------------------------------------------

  /** The targets x is blocked on after the events of the log. */
  function BlockedOn(log: seq<Event>, x: Co): (r: seq<Co>) {
    if log == [] then [] else
      match log[|log| - 1]
      case Blocks(y, ts) => if y == x then ts else BlockedOn(log[..|log| - 1], x)
      case Wakes(y, _) => if y == x then [] else BlockedOn(log[..|log| - 1], x)
      case Ends(_, _) => BlockedOn(log[..|log| - 1], x)
  }

  /** How co ended, if it has. */
  function EndOf(log: seq<Event>, co: Co): Option<End> {
    if log == [] then None else
      var e := log[|log| - 1];
      if e.Ends? && e.co == co then Some(e.end) else EndOf(log[..|log| - 1], co)
  }

  ghost predicate AllEnded(log: seq<Event>, ts: seq<Co>) {
    forall i :: 0 <= i < |ts| ==> EndOf(log, ts[i]).Some?
  }

  /** The answer to a wait: true for several targets; for a single one its results, or how it ended if it left none. */
  ghost predicate GoodAnswer(log: seq<Event>, ts: seq<Co>, got: Got) {
    if |ts| != 1 then got == Flag(true) else
      match EndOf(log, ts[0])
      case None => false
      case Some(end) => got == if end.results > 0 then ResultsOf(ts[0]) else Flag(end.ok)
  }

  /** Every wake-up answers one wait, once, after all that was registered on had ended. */
  ghost predicate GoodLog(log: seq<Event>) {
    forall j :: 0 <= j < |log| && log[j].Wakes? ==> GoodWake(log[..j], log[j].co, log[j].got)
  }

  ghost predicate GoodWake(log: seq<Event>, x: Co, got: Got) {
    var ts := BlockedOn(log, x);
    ts != [] && AllEnded(log, ts) && GoodAnswer(log, ts, got)
  }

  ghost predicate Logged(s: State) {
    && (forall x :: BlockedOn(s.log, x) == if x in s.blocked then s.blocked[x].targets else [])
    && (forall co :: StatusOf(s, co) == Done <==> EndOf(s.log, co).Some?)
    && GoodLog(s.log)
  }

  /** A loop knows how its coroutine ended. */
  ghost predicate Recorded(s: State) {
    forall co :: co in s.index ==> EndOf(s.log, co) == Some(End(s.index[co].results, s.index[co].ok))
  }

  ghost predicate Inv(s: State) {
    Listed(s) && Counts(s) && Control(s) && Ended(s) && Unfinished(s) && Logged(s)
  }

  /** The program keeps the rule: a coroutine blocked in wait is not resumed from elsewhere. */
  predicate Disciplined(s: State, step: Step) {
    step.Resume? ==> step.co !in s.blocked
  }

  // ----- the steps keep it -------------------------------------------------------------------------

  lemma LogGrows(log: seq<Event>, e: Event)
    requires GoodLog(log) && (e.Wakes? ==> GoodWake(log, e.co, e.got))
    ensures GoodLog(log + [e])
  {
    var l := log + [e];
    forall j | 0 <= j < |l| && l[j].Wakes? ensures GoodWake(l[..j], l[j].co, l[j].got) {
      assert l[..j] == log[..j];
      if j == |log| { assert log[..j] == log; }
    }
  }

  lemma BlockedAfter(log: seq<Event>, e: Event, x: Co)
    ensures BlockedOn(log + [e], x) == match e
      case Blocks(y, ts) => if y == x then ts else BlockedOn(log, x)
      case Wakes(y, _) => if y == x then [] else BlockedOn(log, x)
      case Ends(_, _) => BlockedOn(log, x)
  {
    assert (log + [e])[..|log|] == log;
  }

  lemma EndAfter(log: seq<Event>, e: Event, co: Co)
    ensures EndOf(log + [e], co) == if e.Ends? && e.co == co then Some(e.end) else EndOf(log, co)
  {
    assert (log + [e])[..|log|] == log;
  }

  /** Every step of any program keeps that. */
  lemma RecordedKept(s: State, step: Step)
    requires Recorded(s) && Enabled(s, step)
    ensures Recorded(Apply(s, step))
  {
    hide EndOf, RegisterAll;
    var s' := Apply(s, step);
    forall co | co in s'.index ensures EndOf(s'.log, co) == Some(End(s'.index[co].results, s'.index[co].ok)) {
      if s'.log != s.log {
        var e := s'.log[|s.log|];
        assert s'.log == s.log + [e];
        EndAfter(s.log, e, co);
      }
    }
  }

  /** A coroutine that runs or has ended is not blocked. */
  lemma NotBlocked(s: State, x: Co)
    requires Counts(s) && StatusOf(s, x) != Yielded
    ensures x !in s.blocked && KeyOf(s.keys, x).w == 0 && !KeyOf(s.keys, x).wd
  {
    assert Counter(s, x);
  }

  /** Only the status of x and the stack differ; x is not blocked and does not end. */
  ghost predicate OnlyStatus(s: State, s': State, x: Co) {
    && s'.keys == s.keys && s'.index == s.index && s'.blocked == s.blocked && s'.log == s.log && x !in s.blocked
    && x in s'.status && s'.status == s.status[x := s'.status[x]] && s'.status[x] != Done && StatusOf(s, x) != Done
  }

  lemma StatusListed(s: State, s': State)
    requires Listed(s) && s'.keys == s.keys && s'.index == s.index && s'.blocked == s.blocked
    ensures Listed(s')
  {
    forall x: Co, c: Co ensures Open(s', x)[c] == multiset(Unprocessed(s', c))[x] {
      assert Open(s, x)[c] == multiset(Unprocessed(s, c))[x];
    }
  }

  lemma StatusCounts(s: State, s': State, x: Co)
    requires Counts(s) && OnlyStatus(s, s', x)
    ensures Counts(s')
  {
    forall y ensures Counter(s', y) { assert Counter(s, y); }
  }

  lemma StatusEnded(s: State, s': State, x: Co)
    requires Ended(s) && OnlyStatus(s, s', x)
    ensures Ended(s')
  {
    forall co | StatusOf(s', co) == Done && co !in s'.index ensures KeyOf(s'.keys, co).waiting == [] {
      assert StatusOf(s, co) == Done;
    }
  }

  lemma StatusUnfinished(s: State, s': State, x: Co)
    requires Unfinished(s) && OnlyStatus(s, s', x)
    ensures Unfinished(s')
  {
    forall y | y in s'.blocked ensures StillOpen(s', y) { assert StillOpen(s, y); }
  }

  lemma StatusLogged(s: State, s': State, x: Co)
    requires Logged(s) && OnlyStatus(s, s', x)
    ensures Logged(s')
  {
    forall co ensures StatusOf(s', co) == Done <==> EndOf(s'.log, co).Some? {
      assert StatusOf(s, co) == Done <==> EndOf(s.log, co).Some?;
    }
  }

  lemma StatusKeeps(s: State, s': State, x: Co)
    requires Inv(s) && OnlyStatus(s, s', x) && Control(s')
    ensures Inv(s')
  {
    hide Listed, Counts, Control, Ended, Unfinished, Logged;
    StatusListed(s, s');
    StatusCounts(s, s', x);
    StatusEnded(s, s', x);
    StatusUnfinished(s, s', x);
    StatusLogged(s, s', x);
  }

  lemma ResumeControl(s: State, co: Co, got: Got)
    requires Control(s) && (StatusOf(s, co) == Yielded || StatusOf(s, co) == Fresh)
    ensures Control(Resumed(s, co, got))
  {
    var s' := Resumed(s, co, got);
    forall c | c in s'.index ensures Loop(c) in s'.stack {
      var i :| 0 <= i < |s.stack| && s.stack[i] == Loop(c);
      assert s'.stack[i] == Loop(c);
    }
  }

  lemma ResumeKeeps(s: State, co: Co)
    requires Inv(s) && Enabled(s, Resume(co)) && co !in s.blocked
    ensures Inv(Apply(s, Resume(co)))
  {
    hide Listed, Counts, Control, Ended, Unfinished, Logged;
    var s' := Apply(s, Resume(co));
    assert s'.blocked == s.blocked;
    ResumeControl(s, co, Elsewhere);
    StatusKeeps(s, s', co);
  }

  lemma YieldKeeps(s: State)
    requires Inv(s) && Enabled(s, Yield)
    ensures Inv(Apply(s, Yield))
  {
    hide Listed, Counts, Control, Ended, Unfinished, Logged;
    TopActive(s);
    NotBlocked(s, Top(s).co);
    PopKeeps(s, Apply(s, Yield));
    StatusKeeps(s, Apply(s, Yield), Top(s).co);
  }

  lemma TopActive(s: State)
    requires Control(s) && s.stack != [] && Top(s).Run?
    ensures StatusOf(s, Top(s).co) == Active && Top(s).co !in s.index
  {
  }

  /** Leaving a run on top of the stack. */
  lemma PopKeeps(s: State, s': State)
    requires Control(s) && s.stack != [] && Top(s).Run? && s'.stack == Pop(s) && s'.index == s.index
    requires s'.status == s.status[Top(s).co := Yielded]
    requires forall co :: co in s.index ==> |KeyOf(s'.keys, co).waiting| >= |KeyOf(s.keys, co).waiting|
    ensures Control(s')
  {
    var n := |s.stack| - 1;
    forall co | co in s'.index ensures Loop(co) in s'.stack && s'.index[co].i <= |KeyOf(s'.keys, co).waiting| {
      var i :| 0 <= i < |s.stack| && s.stack[i] == Loop(co);
      assert s'.stack[i] == Loop(co);
    }
  }

  lemma FinishKeeps(s: State, n: nat, ok: bool)
    requires Inv(s) && Enabled(s, Finish(n, ok))
    ensures Inv(Apply(s, Finish(n, ok)))
  {
    hide Listed, Counts, Control, Ended, Unfinished, Logged;
    TopActive(s);
    NotBlocked(s, Top(s).co);
    FinishListed(s, n, ok);
    FinishControl(s, n, ok);
    FinishRest(s, n, ok);
    FinishLogged(s, n, ok);
  }

  lemma FinishRest(s: State, n: nat, ok: bool)
    requires Enabled(s, Finish(n, ok)) && Counts(s) && Ended(s) && Unfinished(s) && StatusOf(s, Top(s).co) == Active
    ensures var s' := Apply(s, Finish(n, ok)); Counts(s') && Ended(s') && Unfinished(s')
  {
    hide Ended, Unfinished;
    var s' := Apply(s, Finish(n, ok));
    forall y ensures Counter(s', y) { assert Counter(s, y); }
    FinishEnded(s, n, ok);
  }

  lemma FinishEnded(s: State, n: nat, ok: bool)
    requires Enabled(s, Finish(n, ok)) && Ended(s) && Unfinished(s) && StatusOf(s, Top(s).co) == Active
    ensures var s' := Apply(s, Finish(n, ok)); Ended(s') && Unfinished(s')
  {
    var s' := Apply(s, Finish(n, ok));
    forall y | y in s'.blocked ensures StillOpen(s', y) { assert StillOpen(s, y); }
    forall co ensures KeyOf(s'.keys, co) == KeyOf(s.keys, co) { }
  }

  lemma FinishLogged(s: State, n: nat, ok: bool)
    requires Enabled(s, Finish(n, ok)) && Logged(s)
    ensures Logged(Apply(s, Finish(n, ok)))
  {
    hide GoodLog, BlockedOn;
    var s', x := Apply(s, Finish(n, ok)), Top(s).co;
    var e := Ends(x, End(n, ok));
    LogGrows(s.log, e);
    forall y ensures BlockedOn(s'.log, y) == BlockedOn(s.log, y) { BlockedAfter(s.log, e, y); }
    forall co ensures StatusOf(s', co) == Done <==> EndOf(s'.log, co).Some? {
      assert StatusOf(s, co) == Done <==> EndOf(s.log, co).Some?;
    }
  }

  lemma FinishListed(s: State, n: nat, ok: bool)
    requires Listed(s) && Control(s) && Enabled(s, Finish(n, ok))
    ensures Listed(Apply(s, Finish(n, ok)))
  {
    var s', x := Apply(s, Finish(n, ok)), Top(s).co;
    assert StatusOf(s, x) == Active;
    forall c ensures Unprocessed(s', c) == Unprocessed(s, c) { }
    forall y: Co, c: Co ensures Open(s', y)[c] == multiset(Unprocessed(s', c))[y] {
      assert Open(s, y)[c] == multiset(Unprocessed(s, c))[y];
    }
  }

  lemma FinishControl(s: State, n: nat, ok: bool)
    requires Control(s) && Enabled(s, Finish(n, ok))
    ensures Control(Apply(s, Finish(n, ok)))
  {
    var s', x := Apply(s, Finish(n, ok)), Top(s).co;
    assert s'.stack[|s.stack| - 1] == Loop(x);
    forall co | co in s'.index ensures Loop(co) in s'.stack && s'.index[co].i <= |KeyOf(s'.keys, co).waiting| {
      if co != x {
        var i :| 0 <= i < |s.stack| && s.stack[i] == Loop(co);
        assert s'.stack[i] == Loop(co);
      }
    }
  }

  // ----- wait ---------------------------------------------------------------------------------------

  lemma HasElement(b: seq<Co>) returns (y: Co)
    requires b != []
    ensures multiset(b)[y] > 0
  {
    y := b[0];
    assert y in multiset(b);
  }

  /** What registering x on regs does to the slots of co. */
  ghost predicate SlotsTaken(keys: map<Co, Key>, keys': map<Co, Key>, x: Co, regs: seq<Co>, co: Co) {
    var a, b := KeyOf(keys, co).waiting, KeyOf(keys', co).waiting;
    a <= b && |b| <= SLOTS && forall y :: multiset(b)[y] == multiset(a)[y] + if y == x then multiset(regs)[co] else 0
  }

  /** What registering x on regs does to the keys. */
  ghost predicate Registered(status: map<Co, Status>, keys: map<Co, Key>, keys': map<Co, Key>, x: Co, regs: seq<Co>) {
    && (forall co :: SlotsTaken(keys, keys', x, regs, co))
    && (forall co :: co != x ==> KeyOf(keys', co).w == KeyOf(keys, co).w && KeyOf(keys', co).wd == KeyOf(keys, co).wd)
    && KeyOf(keys', x).w == |regs| % LAP && (KeyOf(keys', x).wd <==> |regs| > 1)
    && (forall i :: 0 <= i < |regs| ==> regs[i] in status && status[regs[i]] == Yielded)
  }

  lemma TakeSlot(keys: map<Co, Key>, keys': map<Co, Key>, x: Co, regs: seq<Co>, co: Co, c: Co)
    requires SlotsTaken(keys, keys', x, regs, c) && x != co && |KeyOf(keys', co).waiting| < SLOTS
    ensures SlotsTaken(keys, Register(keys', x, co), x, regs + [co], c)
  {
    var k2 := Register(keys', x, co);
    var a, b, b2 := KeyOf(keys, c).waiting, KeyOf(keys', c).waiting, KeyOf(k2, c).waiting;
    assert b2 == b + if c == co then [x] else [];
    assert multiset(regs + [co]) == multiset(regs) + multiset{co};
    forall y ensures multiset(b2)[y] == multiset(a)[y] + if y == x then multiset(regs + [co])[c] else 0 {
      assert multiset(b)[y] == multiset(a)[y] + if y == x then multiset(regs)[c] else 0;
      assert multiset(b + [x]) == multiset(b) + multiset{x};
    }
  }

  lemma RegisterOne(status: map<Co, Status>, keys: map<Co, Key>, keys': map<Co, Key>, x: Co, regs: seq<Co>, co: Co)
    requires Registered(status, keys, keys', x, regs) && Accepts(status, keys', co)
    requires x in status && status[x] != Yielded
    ensures Registered(status, keys, Register(keys', x, co), x, regs + [co])
  {
    hide SlotsTaken;
    forall c ensures SlotsTaken(keys, Register(keys', x, co), x, regs + [co], c) {
      assert SlotsTaken(keys, keys', x, regs, c);
      TakeSlot(keys, keys', x, regs, co, c);
    }
  }

  lemma {:induction false} RegistersAll(status: map<Co, Status>, keys: map<Co, Key>, x: Co, args: seq<Co>)
    requires x in status && status[x] != Yielded && KeyOf(keys, x).w == 0 && !KeyOf(keys, x).wd
    requires forall co :: |KeyOf(keys, co).waiting| <= SLOTS
    ensures var (keys', regs) := RegisterAll(status, keys, x, args); Registered(status, keys, keys', x, regs)
    decreases |args|
  {
    hide Registered;
    if args == [] {
      NoneRegistered(status, keys, x);
    } else {
      var rest, co := args[..|args| - 1], args[|args| - 1];
      RegistersAll(status, keys, x, rest);
      var (keys1, regs) := RegisterAll(status, keys, x, rest);
      if Accepts(status, keys1, co) { RegisterOne(status, keys, keys1, x, regs, co); }
    }
  }

  /** Whom a wait registers on: every yielded argument as often as it is named and has one of its six slots free. */
  lemma {:induction false} WaitedFor(status: map<Co, Status>, keys: map<Co, Key>, x: Co, args: seq<Co>, co: Co)
    requires x in status && status[x] != Yielded && |KeyOf(keys, co).waiting| <= 6
    ensures var (keys', regs) := RegisterAll(status, keys, x, args);
      && multiset(regs)[co] == (if co in status && status[co] == Yielded
                                then Least(multiset(args)[co], 6 - |KeyOf(keys, co).waiting|) else 0)
      && |KeyOf(keys', co).waiting| == |KeyOf(keys, co).waiting| + multiset(regs)[co]
    decreases |args|
  {
    hide Register;
    if args != [] {
      var rest, c := args[..|args| - 1], args[|args| - 1];
      WaitedFor(status, keys, x, rest, co);
      assert args == rest + [c];
      var (keys1, regs) := RegisterAll(status, keys, x, rest);
      if Accepts(status, keys1, c) { OneSlot(keys1, x, c, co); }
      OneMore(rest, c, co);
      OneMore(regs, c, co);
    }
  }

  lemma OneSlot(keys: map<Co, Key>, x: Co, c: Co, co: Co)
    requires x != c
    ensures KeyOf(Register(keys, x, c), co).waiting == KeyOf(keys, co).waiting + if c == co then [x] else []
  {
  }

  lemma OneMore(a: seq<Co>, c: Co, co: Co)
    ensures multiset(a + [c])[co] == multiset(a)[co] + if c == co then 1 else 0
  {
  }

  function Least(a: nat, b: nat): nat {
    if a < b then a else b
  }

  /** A wait goes on at once exactly when it names nobody who is yielded and has a free slot. */
  lemma WaitsForNobody(s: State, args: seq<Co>)
    requires Inv(s) && Enabled(s, Waits(args))
    ensures Apply(s, Waits(args)) == s <==>
      forall co :: co in args && StatusOf(s, co) == Yielded ==> |KeyOf(s.keys, co).waiting| == 6
  {
    hide RegisterAll, Listed, Counts, Unfinished, Logged;
    var x := Top(s).co;
    TopActive(s);
    SlotsLimited(s);
    var (keys', regs) := RegisterAll(s.status, s.keys, x, args);
    forall co
      ensures co in multiset(regs) <==> co in args && StatusOf(s, co) == Yielded && |KeyOf(s.keys, co).waiting| < 6
    {
      WaitedFor(s.status, s.keys, x, args, co);
    }
    if regs != [] {
      var co := regs[0];
      assert co in multiset(regs) && |Apply(s, Waits(args)).log| == |s.log| + 1;
      assert co in args && StatusOf(s, co) == Yielded && |KeyOf(s.keys, co).waiting| < 6;
    }
  }

  lemma NoneRegistered(status: map<Co, Status>, keys: map<Co, Key>, x: Co)
    requires KeyOf(keys, x).w == 0 && !KeyOf(keys, x).wd && forall co :: |KeyOf(keys, co).waiting| <= SLOTS
    ensures Registered(status, keys, keys, x, [])
  {
  }

  lemma WaitsKeeps(s: State, args: seq<Co>)
    requires Inv(s) && Enabled(s, Waits(args))
    ensures Inv(Apply(s, Waits(args)))
  {
    hide Listed, Counts, Control, Ended, Unfinished, Logged, Registered;
    var x := Top(s).co;
    TopActive(s);
    NotBlocked(s, x);
    SlotsLimited(s);
    RegistersAll(s.status, s.keys, x, args);
    var (keys', regs) := RegisterAll(s.status, s.keys, x, args);
    if regs != [] {
      var s' := Apply(s, Waits(args));
      WaitListed(s, s', x, regs);
      WaitCounts(s, s', x, regs);
      WaitControl(s, s', x, regs);
      WaitEnded(s, s', x, regs);
      WaitLogged(s, s', x, regs);
    }
  }

  lemma SlotsLimited(s: State)
    requires Ended(s)
    ensures forall co :: |KeyOf(s.keys, co).waiting| <= SLOTS
  {
  }

  ghost predicate Waited(s: State, s': State, x: Co, regs: seq<Co>) {
    && x in s.status && s.status[x] == Active && x !in s.blocked && regs != [] && x !in s.index
    && s.stack != [] && s.stack[|s.stack| - 1] == Run(x)
    && Registered(s.status, s.keys, s'.keys, x, regs)
    && s' == s.(status := s.status[x := Yielded], keys := s'.keys, stack := Pop(s),
         blocked := s.blocked[x := Wait(regs, multiset(regs))], log := s.log + [Blocks(x, regs)])
  }

  lemma WaitListed(s: State, s': State, x: Co, regs: seq<Co>)
    requires Waited(s, s', x, regs) && Listed(s) && Control(s)
    ensures Listed(s')
  {
    forall y: Co, c: Co ensures Open(s', y)[c] == multiset(Unprocessed(s', c))[y] {
      assert Open(s, y)[c] == multiset(Unprocessed(s, c))[y];
      UnprocessedGrows(s, s', x, regs, c, y);
    }
  }

  lemma UnprocessedGrows(s: State, s': State, x: Co, regs: seq<Co>, c: Co, y: Co)
    requires Waited(s, s', x, regs) && Control(s)
    ensures multiset(Unprocessed(s', c))[y] == multiset(Unprocessed(s, c))[y] + if y == x then multiset(regs)[c] else 0
  {
    hide SlotsTaken;
    var a, b := KeyOf(s.keys, c).waiting, KeyOf(s'.keys, c).waiting;
    assert SlotsTaken(s.keys, s'.keys, x, regs, c);
    Slots(s.keys, s'.keys, x, regs, c, y);
    if c in s.index { SuffixCount(a, b, s.index[c].i, y); }
  }

  lemma Slots(keys: map<Co, Key>, keys': map<Co, Key>, x: Co, regs: seq<Co>, c: Co, y: Co)
    requires SlotsTaken(keys, keys', x, regs, c)
    ensures var a, b := KeyOf(keys, c).waiting, KeyOf(keys', c).waiting;
      a <= b && multiset(b)[y] == multiset(a)[y] + if y == x then multiset(regs)[c] else 0
  {
  }

  lemma SuffixCount(a: seq<Co>, b: seq<Co>, i: nat, y: Co)
    requires a <= b && i <= |a|
    ensures multiset(b[i..])[y] + multiset(a)[y] == multiset(a[i..])[y] + multiset(b)[y]
  {
    assert a == a[..i] + a[i..] && b == b[..i] + b[i..] && a[..i] == b[..i];
    assert multiset(a[..i] + a[i..]) == multiset(a[..i]) + multiset(a[i..]);
    assert multiset(b[..i] + b[i..]) == multiset(b[..i]) + multiset(b[i..]);
  }

  lemma WaitCounts(s: State, s': State, x: Co, regs: seq<Co>)
    requires Waited(s, s', x, regs) && Counts(s)
    ensures Counts(s')
  {
    forall y ensures Counter(s', y) {
      assert Counter(s, y);
      assert |multiset(regs)| == |regs|;
    }
  }

  lemma WaitControl(s: State, s': State, x: Co, regs: seq<Co>)
    requires Waited(s, s', x, regs) && Control(s)
    ensures Control(s')
  {
    forall co | co in s.index ensures |KeyOf(s'.keys, co).waiting| >= |KeyOf(s.keys, co).waiting| {
      assert SlotsTaken(s.keys, s'.keys, x, regs, co);
    }
    PopKeeps(s, s');
  }

  lemma WaitEnded(s: State, s': State, x: Co, regs: seq<Co>)
    requires Waited(s, s', x, regs) && Ended(s) && Unfinished(s)
    ensures Ended(s') && Unfinished(s')
  {
    forall co ensures |KeyOf(s'.keys, co).waiting| <= SLOTS { assert SlotsTaken(s.keys, s'.keys, x, regs, co); }
    forall co | StatusOf(s', co) == Done && co !in s'.index ensures KeyOf(s'.keys, co).waiting == [] {
      assert StatusOf(s, co) == Done && SlotsTaken(s.keys, s'.keys, x, regs, co);
      var a, b := KeyOf(s.keys, co).waiting, KeyOf(s'.keys, co).waiting;
      assert co !in regs;
      forall y ensures multiset(b)[y] == 0 {
        assert multiset(b)[y] == multiset(a)[y] + if y == x then multiset(regs)[co] else 0;
      }
      if b != [] { var y := HasElement(b); }
    }
    forall y | y in s'.blocked ensures StillOpen(s', y) {
      if y != x { assert StillOpen(s, y); }
    }
  }

  lemma WaitLogged(s: State, s': State, x: Co, regs: seq<Co>)
    requires Waited(s, s', x, regs) && Logged(s)
    ensures Logged(s')
  {
    hide GoodLog, BlockedOn, Registered;
    LogGrows(s.log, Blocks(x, regs));
    forall y ensures BlockedOn(s'.log, y) == if y in s'.blocked then s'.blocked[y].targets else [] {
      BlockedAfter(s.log, Blocks(x, regs), y);
    }
    forall co ensures StatusOf(s', co) == Done <==> EndOf(s'.log, co).Some? {
      assert StatusOf(s, co) == Done <==> EndOf(s.log, co).Some?;
    }
  }

  // ----- the loop over the waiters ---------------------------------------------------------------

  /** The loop is through: the key goes. */
  lemma LastTurn(s: State)
    requires Inv(s) && Enabled(s, Turn) && s.index[Top(s).co].i >= |KeyOf(s.keys, Top(s).co).waiting|
    ensures Inv(Apply(s, Turn))
  {
    hide Listed, Counts, Control, Ended, Unfinished, Logged;
    var x := Top(s).co;
    TopLoop(s);
    NotBlocked(s, x);
    LastListed(s, x);
    LastCounts(s, x);
    LastControl(s, x);
    LastEnded(s, x);
  }

  lemma TopLoop(s: State)
    requires Control(s) && s.stack != [] && Top(s).Loop?
    ensures var x := Top(s).co; StatusOf(s, x) == Done && x in s.index && s.index[x].i <= |KeyOf(s.keys, x).waiting|
  {
  }

  function Removed(s: State, x: Co): State
    requires s.stack != []
  {
    s.(keys := s.keys - {x}, stack := Pop(s), index := s.index - {x})
  }

  lemma LastListed(s: State, x: Co)
    requires Listed(s) && s.stack != [] && x in s.index && s.index[x].i == |KeyOf(s.keys, x).waiting|
    ensures Listed(Removed(s, x))
  {
    var s' := Removed(s, x);
    forall c ensures Unprocessed(s', c) == Unprocessed(s, c) { }
    forall y: Co, c: Co ensures Open(s', y)[c] == multiset(Unprocessed(s', c))[y] {
      assert Open(s, y)[c] == multiset(Unprocessed(s, c))[y];
    }
  }

  lemma LastCounts(s: State, x: Co)
    requires Counts(s) && s.stack != [] && KeyOf(s.keys, x).w == 0 && !KeyOf(s.keys, x).wd
    ensures Counts(Removed(s, x))
  {
    var s' := Removed(s, x);
    forall y ensures Counter(s', y) { assert Counter(s, y); }
  }

  lemma LastControl(s: State, x: Co)
    requires Control(s) && s.stack != [] && Top(s) == Loop(x)
    ensures Control(Removed(s, x))
  {
    var s' := Removed(s, x);
    forall co | co in s'.index ensures Loop(co) in s'.stack {
      var i :| 0 <= i < |s.stack| && s.stack[i] == Loop(co);
      assert s'.stack[i] == Loop(co);
    }
  }

  lemma LastEnded(s: State, x: Co)
    requires Ended(s) && Unfinished(s) && Logged(s) && s.stack != []
    ensures Ended(Removed(s, x)) && Unfinished(Removed(s, x)) && Logged(Removed(s, x))
  {
    var s' := Removed(s, x);
    forall y | y in s'.blocked ensures StillOpen(s', y) { assert StillOpen(s, y); }
    forall co ensures StatusOf(s', co) == StatusOf(s, co) { }
    forall co ensures KeyOf(s'.keys, co).waiting == if co == x then [] else KeyOf(s.keys, co).waiting { }
  }

  /** The waiter whose turn it is blocks on x, and its counter is positive. */
  lemma TurnOf(s: State, x: Co, co: Co)
    requires Listed(s) && Counts(s) && x in s.index && s.index[x].i < |KeyOf(s.keys, x).waiting|
    requires co == KeyOf(s.keys, x).waiting[s.index[x].i]
    ensures co in s.blocked && x in s.blocked[co].open && StatusOf(s, co) == Yielded
    ensures KeyOf(s.keys, co).w == |s.blocked[co].open| % LAP && SameLap(s.blocked[co])
    ensures KeyOf(s.keys, co).wd <==> |s.blocked[co].targets| > 1
  {
    var us := Unprocessed(s, x);
    assert us[0] == co && co in multiset(us);
    assert Open(s, co)[x] == multiset(Unprocessed(s, x))[co];
    assert Counter(s, co);
  }

  /** Count co down for x: the state between the countdown and a resume. */
  ghost function Ticked(s: State, x: Co, co: Co): State
    requires x in s.index
  {
    var k, at := KeyOf(s.keys, co), s.index[x];
    Counted(s.(index := s.index[x := at.(i := at.i + 1)]), co, k.(w := if k.w == 0 then LAP - 1 else k.w - 1), x)
  }

  ghost predicate Turning(s: State, x: Co, co: Co) {
    && x in s.index && s.index[x].i < |KeyOf(s.keys, x).waiting| && co == KeyOf(s.keys, x).waiting[s.index[x].i]
    && co in s.blocked && x in s.blocked[co].open && StatusOf(s, co) == Yielded
    && KeyOf(s.keys, co).w == |s.blocked[co].open| % LAP && SameLap(s.blocked[co])
    && (KeyOf(s.keys, co).wd <==> |s.blocked[co].targets| > 1) && StatusOf(s, x) == Done && x != co
  }

  lemma TickListed(s: State, x: Co, co: Co)
    requires Turning(s, x, co) && Listed(s)
    ensures Listed(Ticked(s, x, co))
  {
    hide Listed;
    var s' := Ticked(s, x, co);
    forall y: Co, c: Co ensures Open(s', y)[c] == multiset(Unprocessed(s', c))[y] {
      ListedAt(s, y, c);
      OpenTicked(s, x, co, y, c);
      UnprocessedTicked(s, x, co, y, c);
    }
    ListedAll(s');
  }

  lemma ListedAt(s: State, y: Co, c: Co)
    requires Listed(s)
    ensures Open(s, y)[c] == multiset(Unprocessed(s, c))[y]
  {
  }

  lemma ListedAll(s: State)
    requires forall y: Co, c: Co :: Open(s, y)[c] == multiset(Unprocessed(s, c))[y]
    ensures Listed(s)
  {
  }

  lemma OpenTicked(s: State, x: Co, co: Co, y: Co, c: Co)
    requires Turning(s, x, co)
    ensures Open(Ticked(s, x, co), y)[c] == Open(s, y)[c] - if y == co && c == x then 1 else 0
  {
  }

  lemma UnprocessedTicked(s: State, x: Co, co: Co, y: Co, c: Co)
    requires Turning(s, x, co)
    ensures multiset(Unprocessed(Ticked(s, x, co), c))[y] ==
      multiset(Unprocessed(s, c))[y] - if y == co && c == x then 1 else 0
  {
    if c == x {
      var ws, i := KeyOf(s.keys, x).waiting, s.index[x].i;
      assert ws[i..] == [co] + ws[i + 1..];
      assert multiset([co] + ws[i + 1..]) == multiset{co} + multiset(ws[i + 1..]);
    }
  }

  /** All but being blocked on something, which a resume restores. */
  ghost predicate TickedCounts(s: State, co: Co) {
    && co in s.blocked && StatusOf(s, co) == Yielded
    && (forall y :: y != co ==> Counter(s, y))
    && KeyOf(s.keys, co).w == |s.blocked[co].open| % LAP && s.blocked[co].targets != []
    && |s.blocked[co].open| / LAP == (|s.blocked[co].targets| - 1) / LAP
    && (KeyOf(s.keys, co).wd <==> |s.blocked[co].targets| > 1)
  }

  /** One off a counter that holds n up to its width. */
  lemma CountDown(n: nat)
    requires n > 0
    ensures (if n % LAP == 0 then LAP - 1 else n % LAP - 1) == (n - 1) % LAP
    ensures (n - 1) % LAP != 0 ==> n > 1 && (n - 2) / LAP == (n - 1) / LAP
  {
  }

  lemma TickCounts(s: State, x: Co, co: Co)
    requires Turning(s, x, co) && Counts(s)
    ensures TickedCounts(Ticked(s, x, co), co)
  {
    hide Counter;
    var s', b := Ticked(s, x, co), s.blocked[co];
    CountDown(|b.open|);
    assert |b.open - multiset{x}| == |b.open| - 1;
    forall y | y != co ensures Counter(s', y) {
      assert Counter(s, y);
      CounterSame(s, s', y);
    }
  }

  lemma CounterSame(s: State, s': State, y: Co)
    requires Counter(s, y) && KeyOf(s'.keys, y) == KeyOf(s.keys, y) && StatusOf(s', y) == StatusOf(s, y)
    requires (y in s'.blocked <==> y in s.blocked) && (y in s.blocked ==> s'.blocked[y] == s.blocked[y])
    ensures Counter(s', y)
  {
  }

  lemma TickEnded(s: State, x: Co, co: Co)
    requires Turning(s, x, co) && Ended(s)
    ensures Ended(Ticked(s, x, co))
  {
    var s' := Ticked(s, x, co);
    forall c ensures StatusOf(s', c) == StatusOf(s, c) && KeyOf(s'.keys, c).waiting == KeyOf(s.keys, c).waiting { }
  }

  lemma TickUnfinished(s: State, x: Co, co: Co)
    requires Turning(s, x, co) && Unfinished(s)
    ensures Unfinished(Ticked(s, x, co))
  {
    var s' := Ticked(s, x, co);
    assert StillOpen(s, co);
    var b, b' := s.blocked[co], s'.blocked[co];
    assert b'.targets == b.targets && b'.open == b.open - multiset{x} && s'.status == s.status;
    forall i | 0 <= i < |b.targets| && StatusOf(s, b.targets[i]) != Done ensures b.targets[i] in b'.open { }
    TickOthers(s, s', co);
  }

  lemma TickOthers(s: State, s': State, co: Co)
    requires Unfinished(s) && co in s.blocked && s'.status == s.status && s'.blocked.Keys == s.blocked.Keys
    requires (forall y :: y in s.blocked && y != co ==> s'.blocked[y] == s.blocked[y]) && StillOpen(s', co)
    ensures Unfinished(s')
  {
    forall y | y in s'.blocked && y != co ensures StillOpen(s', y) { assert StillOpen(s, y); }
  }

  lemma TickLogged(s: State, x: Co, co: Co)
    requires Turning(s, x, co) && Logged(s)
    ensures Logged(Ticked(s, x, co))
  {
    hide GoodLog, BlockedOn;
    var s' := Ticked(s, x, co);
    forall c ensures StatusOf(s', c) == StatusOf(s, c) { }
  }

  lemma TickControl(s: State, x: Co, co: Co)
    requires Turning(s, x, co) && Control(s)
    ensures Control(Ticked(s, x, co))
  {
    var s' := Ticked(s, x, co);
    forall c ensures StatusOf(s', c) == StatusOf(s, c) && KeyOf(s'.keys, c).waiting == KeyOf(s.keys, c).waiting { }
  }

  ghost function Woken(s: State, co: Co, got: Got): State {
    Resumed(s.(keys := s.keys[co := KeyOf(s.keys, co).(wd := false)]), co, got)
  }

  /** The last registration is gone: the waiter is resumed, in order and with the right answer. */
  lemma WakeKeeps(s: State, co: Co, got: Got)
    requires Listed(s) && TickedCounts(s, co) && Control(s) && Ended(s) && Unfinished(s) && Logged(s)
    requires s.blocked[co].open == multiset{} && GoodAnswer(s.log, s.blocked[co].targets, got)
    ensures Inv(Woken(s, co, got))
  {
    hide Listed, Counts, Control, Ended, Unfinished, Logged, GoodAnswer;
    WakeListed(s, co, got);
    WakeCounts(s, co, got);
    WakeControl(s, co, got);
    WakeEnded(s, co, got);
    WakeLogged(s, co, got);
  }

  lemma WakeListed(s: State, co: Co, got: Got)
    requires Listed(s) && TickedCounts(s, co) && s.blocked[co].open == multiset{}
    ensures Listed(Woken(s, co, got))
  {
    hide Listed, Counter;
    var s' := Woken(s, co, got);
    forall y: Co, c: Co ensures Open(s', y)[c] == multiset(Unprocessed(s', c))[y] {
      ListedAt(s, y, c);
      assert Open(s', y) == Open(s, y);
      assert KeyOf(s'.keys, c).waiting == KeyOf(s.keys, c).waiting;
    }
    ListedAll(s');
  }

  lemma WakeCounts(s: State, co: Co, got: Got)
    requires TickedCounts(s, co) && KeyOf(s.keys, co).w == 0
    ensures Counts(Woken(s, co, got))
  {
    var s' := Woken(s, co, got);
    forall y ensures Counter(s', y) {
      if y != co { assert Counter(s, y); }
    }
  }

  lemma WakeControl(s: State, co: Co, got: Got)
    requires Control(s) && TickedCounts(s, co)
    ensures Control(Woken(s, co, got))
  {
    hide Counter;
    var s1 := s.(keys := s.keys[co := KeyOf(s.keys, co).(wd := false)]);
    forall c ensures KeyOf(s1.keys, c).waiting == KeyOf(s.keys, c).waiting && StatusOf(s1, c) == StatusOf(s, c) { }
    assert Control(s1);
    ResumeControl(s1, co, got);
  }

  lemma WakeEnded(s: State, co: Co, got: Got)
    requires Ended(s) && Unfinished(s) && TickedCounts(s, co)
    ensures Ended(Woken(s, co, got)) && Unfinished(Woken(s, co, got))
  {
    hide Counter;
    var s' := Woken(s, co, got);
    forall c
      ensures KeyOf(s'.keys, c).waiting == KeyOf(s.keys, c).waiting
      ensures StatusOf(s', c) == Done <==> StatusOf(s, c) == Done
    {
    }
    forall y | y in s'.blocked ensures StillOpen(s', y) { assert StillOpen(s, y); }
  }

  lemma WakeLogged(s: State, co: Co, got: Got)
    requires Unfinished(s) && Logged(s) && TickedCounts(s, co) && s.blocked[co].open == multiset{}
    requires GoodAnswer(s.log, s.blocked[co].targets, got)
    ensures Logged(Woken(s, co, got))
  {
    hide GoodLog, BlockedOn, Counter, GoodAnswer;
    var s', ts := Woken(s, co, got), s.blocked[co].targets;
    assert StillOpen(s, co);
    forall i | 0 <= i < |ts| ensures EndOf(s.log, ts[i]).Some? { assert StatusOf(s, ts[i]) == Done; }
    assert GoodWake(s.log, co, got);
    LogGrows(s.log, Wakes(co, got));
    forall y ensures BlockedOn(s'.log, y) == if y in s'.blocked then s'.blocked[y].targets else [] {
      BlockedAfter(s.log, Wakes(co, got), y);
    }
    forall c ensures StatusOf(s', c) == Done <==> EndOf(s'.log, c).Some? {
      assert StatusOf(s, c) == Done <==> EndOf(s.log, c).Some?;
    }
  }

  lemma StillCounts(s: State, co: Co)
    requires TickedCounts(s, co) && KeyOf(s.keys, co).w > 0
    ensures Counts(s)
  {
    CountDown(|s.blocked[co].open| + 1);
    forall y ensures Counter(s, y) { if y != co { assert y != co ==> Counter(s, y); } }
  }

  lemma TurnKeeps(s: State)
    requires Inv(s) && Recorded(s) && Enabled(s, Turn) && Fitting(Apply(s, Turn).log)
    ensures Inv(Apply(s, Turn))
  {
    hide Listed, Counts, Control, Ended, Unfinished, Logged, TickedCounts, GoodAnswer, Fitting;
    var x := Top(s).co;
    TopLoop(s);
    if s.index[x].i >= |KeyOf(s.keys, x).waiting| {
      LastTurn(s);
      return;
    }
    var co := KeyOf(s.keys, x).waiting[s.index[x].i];
    TurnOf(s, x, co);
    TickListed(s, x, co);
    TickCounts(s, x, co);
    TickControl(s, x, co);
    TickEnded(s, x, co);
    TickUnfinished(s, x, co);
    TickLogged(s, x, co);
    var s1, k := Ticked(s, x, co), KeyOf(s.keys, co);
    if k.w != 1 {
      StillCounts(s1, co);
    } else {
      OneTarget(s, x, co);
      TurnWakes(s, x, co);
      LastIsBlocked(s, co, Answer(s, x, k));
      Lap(s, x, co);
      WakeKeeps(s1, co, Answer(s, x, k));
    }
  }

  /** A wake-up logged last answers the wait its coroutine is blocked in. */
  lemma LastIsBlocked(s: State, co: Co, got: Got)
    requires Logged(s) && co in s.blocked && Fitting(s.log + [Wakes(co, got)])
    ensures |s.blocked[co].targets| <= LAP
  {
    var l := s.log + [Wakes(co, got)];
    assert l[..|s.log|] == s.log && l[|s.log|].Wakes?;
  }

  /** The counter comes to zero: with every registration processed, or with a whole lap of them left. */
  lemma Lap(s: State, x: Co, co: Co)
    requires Turning(s, x, co) && KeyOf(s.keys, co).w == 1
    ensures |s.blocked[co].targets| <= LAP ==> s.blocked[co].open - multiset{x} == multiset{}
    ensures |s.blocked[co].targets| > LAP ==> |s.blocked[co].open| > LAP
  {
    var b := s.blocked[co];
    assert |b.open - multiset{x}| == |b.open| - 1;
    LapOf(|b.open|, |b.targets|);
  }

  lemma LapOf(n: nat, m: nat)
    requires n % LAP == 1 && m > 0 && (n - 1) / LAP == (m - 1) / LAP
    ensures if m <= LAP then n == 1 else n > LAP
  {
  }

  ghost function Answer(s: State, x: Co, k: Key): Got
    requires x in s.index
  {
    if s.index[x].results > 0 && !k.wd then ResultsOf(x) else Flag(k.wd || s.index[x].ok)
  }

  lemma OneTarget(s: State, x: Co, co: Co)
    requires Turning(s, x, co) && Unfinished(s) && Recorded(s)
    ensures GoodAnswer(s.log, s.blocked[co].targets, Answer(s, x, KeyOf(s.keys, co)))
  {
    var ts := s.blocked[co].targets;
    assert StillOpen(s, co);
    assert x in multiset(ts) && x in ts;
  }

  lemma TurnWakes(s: State, x: Co, co: Co)
    requires Turning(s, x, co) && KeyOf(s.keys, co).w == 1
    ensures TakeTurn(s, x) == Woken(Ticked(s, x, co), co, Answer(s, x, KeyOf(s.keys, co)))
  {
    var k, a, b := KeyOf(s.keys, co), TakeTurn(s, x), Woken(Ticked(s, x, co), co, Answer(s, x, KeyOf(s.keys, co)));
    assert a.keys == b.keys;
    assert a.blocked == b.blocked;
  }

  // ----- every run ---------------------------------------------------------------------------------

  function Initial(): State {
    State(map[], map[], [], map[], map[], [])
  }

  /** A run of any program. */
  ghost predicate Follows(states: seq<State>, steps: seq<Step>) {
    && |states| == |steps| + 1 && states[0] == Initial()
    && forall i :: 0 <= i < |steps| ==> Enabled(states[i], steps[i]) && states[i + 1] == Apply(states[i], steps[i])
  }

  /** A run of any program that keeps the rule. */
  ghost predicate IsRun(states: seq<State>, steps: seq<Step>) {
    && Follows(states, steps)
    && forall i :: 0 <= i < |steps| ==> Disciplined(states[i], steps[i])
  }

  lemma InitialInv()
    ensures Inv(Initial())
  {
    var s := Initial();
    forall x ensures Counter(s, x) { }
  }

  /** No answered wait had more registrations than the counter can tell apart. */
  ghost predicate Fitting(log: seq<Event>) {
    forall j :: 0 <= j < |log| && log[j].Wakes? ==> |BlockedOn(log[..j], log[j].co)| <= LAP
  }

  lemma FittingGrows(log: seq<Event>, e: Event)
    requires Fitting(log)
    ensures Fitting(log + [e]) <==> (e.Wakes? ==> |BlockedOn(log, e.co)| <= LAP)
  {
    var l := log + [e];
    assert l[..|log|] == log && l[|log|] == e;
    if e.Wakes? ==> |BlockedOn(log, e.co)| <= LAP {
      forall j | 0 <= j < |l| && l[j].Wakes? ensures |BlockedOn(l[..j], l[j].co)| <= LAP {
        if j < |log| { assert l[..j] == log[..j] && log[j].Wakes?; }
      }
    }
  }

  lemma LogPrefix(log: seq<Event>, more: seq<Event>)
    requires log <= more
    ensures Fitting(more) ==> Fitting(log)
    ensures GoodLog(more) ==> GoodLog(log)
  {
    forall j | 0 <= j < |log| ensures log[j] == more[j] && log[..j] == more[..j] { }
    if GoodLog(more) {
      forall j | 0 <= j < |log| && log[j].Wakes? ensures GoodWake(log[..j], log[j].co, log[j].got) {
        assert GoodWake(more[..j], more[j].co, more[j].got);
      }
    }
  }

  lemma LogKept(s: State, step: Step)
    requires Enabled(s, step)
    ensures s.log <= Apply(s, step).log
  {
  }

  lemma StepKeeps(s: State, step: Step)
    requires Inv(s) && Recorded(s) && Enabled(s, step) && Disciplined(s, step) && Fitting(Apply(s, step).log)
    ensures Inv(Apply(s, step))
  {
    hide Inv, Fitting;
    match step
    case Resume(co) => ResumeKeeps(s, co);
    case Yield => YieldKeeps(s);
    case Waits(args) => WaitsKeeps(s, args);
    case Finish(n, ok) => FinishKeeps(s, n, ok);
    case Turn => TurnKeeps(s);
  }

  lemma {:induction false} RunRecords(states: seq<State>, steps: seq<Step>, i: nat)
    requires Follows(states, steps) && i < |states|
    ensures Recorded(states[i])
  {
    hide Apply;
    if i > 0 {
      RunRecords(states, steps, i - 1);
      RecordedKept(states[i - 1], steps[i - 1]);
    }
  }

  lemma {:induction false} RunKeeps(states: seq<State>, steps: seq<Step>, i: nat)
    requires IsRun(states, steps) && i < |states| && Fitting(states[i].log)
    ensures Inv(states[i])
  {
    hide Inv, Fitting, Apply, Recorded;
    if i == 0 {
      InitialInv();
    } else {
      RunRecords(states, steps, i - 1);
      LogKept(states[i - 1], steps[i - 1]);
      LogPrefix(states[i - 1].log, states[i].log);
      RunKeeps(states, steps, i - 1);
      StepKeeps(states[i - 1], steps[i - 1]);
    }
  }

  /** In every run that answers no wait of more than 65,536 registrations, each wake-up answers exactly
      one wait, after all that was registered on ended, and a blocked waiter's counter is the number of
      its unprocessed registrations, up to its width. */
  lemma Barrier(states: seq<State>, steps: seq<Step>, i: nat, x: Co)
    requires IsRun(states, steps) && i < |states| && Fitting(states[i].log)
    ensures GoodLog(states[i].log)
    ensures KeyOf(states[i].keys, x).w == |Open(states[i], x)| % LAP
    ensures forall co: Co :: Open(states[i], x)[co] == multiset(Unprocessed(states[i], co))[x]
  {
    RunKeeps(states, steps, i);
    assert Counter(states[i], x);
  }

  lemma {:induction false} FewPerElement(m: multiset<Co>, cos: set<Co>, n: nat)
    requires forall c :: m[c] <= n
    requires forall c :: c in m ==> c in cos
    ensures |m| <= n * |cos|
    decreases |cos|
  {
    if c :| c in cos {
      var rest := m[c := 0];
      FewPerElement(rest, cos - {c}, n);
      assert |m| == |rest| + m[c];
      assert |cos - {c}| == |cos| - 1;
      assert n * |cos| == n * (|cos| - 1) + n;
    } else {
      assert forall c :: m[c] == 0;
      assert m == multiset{};
    }
  }

  /** What is unprocessed of ended coroutines is in the loops, at most six for each. */
  lemma OpenInLoops(s: State, co: Co)
    requires Inv(s) && co in s.blocked && AllEnded(s.log, s.blocked[co].targets)
    ensures |s.blocked[co].open| <= SLOTS * |s.index|
  {
    var b := s.blocked[co];
    assert StillOpen(s, co);
    forall c ensures b.open[c] <= SLOTS {
      assert Open(s, co)[c] == multiset(Unprocessed(s, c))[co];
      CountAtMost(Unprocessed(s, c), co);
    }
    forall c | c in b.open ensures c in s.index.Keys {
      assert Open(s, co)[c] == multiset(Unprocessed(s, c))[co];
      assert c in multiset(b.targets) && c in b.targets;
      var i :| 0 <= i < |b.targets| && b.targets[i] == c;
      assert EndOf(s.log, b.targets[i]).Some? && StatusOf(s, c) == Done;
      assert Unprocessed(s, c) != [];
    }
    FewPerElement(b.open, s.index.Keys, SLOTS);
    assert |s.index.Keys| == |s.index|;
  }

  lemma CountAtMost(a: seq<Co>, y: Co)
    ensures multiset(a)[y] <= |a|
  {
    assert |multiset(a)| == |a|;
  }

  /** The counter has run round: the waiter is resumed while targets have not ended. */
  lemma TurnTooEarly(s: State)
    requires Inv(s) && Enabled(s, Turn) && SLOTS * |s.index| < LAP && Fitting(s.log) && !Fitting(Apply(s, Turn).log)
    ensures !GoodLog(Apply(s, Turn).log)
  {
    hide Listed, Counts, Control, Ended, Unfinished, Logged, GoodAnswer, AllEnded, BlockedOn;
    var x := Top(s).co;
    TopLoop(s);
    assert s.index[x].i < |KeyOf(s.keys, x).waiting|;
    var co := KeyOf(s.keys, x).waiting[s.index[x].i];
    TurnOf(s, x, co);
    assert KeyOf(s.keys, co).w == 1;
    TurnWakes(s, x, co);
    var got := Answer(s, x, KeyOf(s.keys, co));
    var l := s.log + [Wakes(co, got)];
    assert Apply(s, Turn).log == l;
    AddedBad(s, co, got);
    Lap(s, x, co);
    if AllEnded(s.log, s.blocked[co].targets) { OpenInLoops(s, co); }
    assert l[..|s.log|] == s.log && !GoodWake(l[..|s.log|], l[|s.log|].co, l[|s.log|].got);
  }

  lemma AddedBad(s: State, co: Co, got: Got)
    requires Logged(s) && co in s.blocked && Fitting(s.log) && !Fitting(s.log + [Wakes(co, got)])
    ensures BlockedOn(s.log, co) == s.blocked[co].targets && |s.blocked[co].targets| > LAP
  {
    FittingGrows(s.log, Wakes(co, got));
  }

  /** Under the rule, in every run with fewer than 10,923 loops nested, all wake-ups were good if and only
      if every answered wait had at most 65,536 registrations. */
  lemma {:induction false} RuleExact(states: seq<State>, steps: seq<Step>, i: nat)
    requires IsRun(states, steps) && i < |states| && forall j :: 0 <= j < i ==> SLOTS * |states[j].index| < LAP
    ensures GoodLog(states[i].log) <==> Fitting(states[i].log)
  {
    hide Inv, Fitting, GoodLog, Apply;
    if Fitting(states[i].log) {
      RunKeeps(states, steps, i);
      InvGood(states[i]);
    } else if i == 0 {
      NoEvents();
    } else {
      var s, step := states[i - 1], steps[i - 1];
      LogKept(s, step);
      LogPrefix(s.log, states[i].log);
      RuleExact(states, steps, i - 1);
      if Fitting(s.log) {
        RunKeeps(states, steps, i - 1);
        OnlyTurns(s, step);
        TurnTooEarly(s);
      }
    }
  }

  /** A blocked coroutine resumed from elsewhere is not handed the answer to its wait. */
  lemma BrokenRule(s: State, step: Step)
    requires Enabled(s, step) && !Disciplined(s, step)
    ensures !GoodLog(Apply(s, step).log)
  {
    hide BlockedOn, AllEnded;
    var l := Apply(s, step).log;
    assert l == s.log + [Wakes(step.co, Elsewhere)] && l[..|s.log|] == s.log;
    assert !GoodWake(l[..|s.log|], l[|s.log|].co, l[|s.log|].got);
  }

  /** A bad wake-up stays in the log. */
  lemma {:induction false} StaysBad(states: seq<State>, steps: seq<Step>, j: nat, i: nat)
    requires Follows(states, steps) && j <= i < |states| && !GoodLog(states[j].log)
    ensures !GoodLog(states[i].log)
  {
    hide GoodLog, Fitting, Apply, Enabled;
    if j < i {
      StaysBad(states, steps, j, i - 1);
      LogKept(states[i - 1], steps[i - 1]);
      LogPrefix(states[i - 1].log, states[i].log);
    }
  }

  /** Exactly so: in every run of any program with fewer than 10,923 loops nested, all wake-ups were good if and
      only if no blocked coroutine was resumed from elsewhere and every answered wait had at most 65,536
      registrations. */
  lemma BarrierExact(states: seq<State>, steps: seq<Step>, i: nat)
    requires Follows(states, steps) && i < |states| && forall j :: 0 <= j < i ==> SLOTS * |states[j].index| < LAP
    ensures GoodLog(states[i].log) <==>
      Fitting(states[i].log) && forall j :: 0 <= j < i ==> Disciplined(states[j], steps[j])
  {
    hide Fitting, GoodLog, Apply, Enabled, Disciplined;
    if j :| 0 <= j < i && !Disciplined(states[j], steps[j]) {
      BrokenRule(states[j], steps[j]);
      StaysBad(states, steps, j + 1, i);
    } else {
      assert IsRun(states[..i + 1], steps[..i]);
      RuleExact(states[..i + 1], steps[..i], i);
    }
  }

  lemma NoEvents()
    ensures Fitting(Initial().log)
  {
  }

  lemma InvGood(s: State)
    requires Inv(s)
    ensures GoodLog(s.log)
  {
  }

  /** Under the rule, wake-ups are logged by the loops only. */
  lemma OnlyTurns(s: State, step: Step)
    requires Enabled(s, step) && Disciplined(s, step) && Fitting(s.log) && !Fitting(Apply(s, step).log)
    ensures step.Turn?
  {
    hide BlockedOn;
    var l := Apply(s, step).log;
    if |l| > |s.log| {
      assert l == s.log + [l[|s.log|]];
      FittingGrows(s.log, l[|s.log|]);
    }
  }

  /** No lost wake-up: with the loops through, whoever is still blocked waits for an unfinished one. */
  lemma NoLostWakeup(states: seq<State>, steps: seq<Step>, i: nat, x: Co) returns (co: Co)
    requires IsRun(states, steps) && i < |states| && Fitting(states[i].log) && states[i].index == map[]
    requires x in states[i].blocked
    ensures co in states[i].blocked[x].targets && StatusOf(states[i], co) != Done
  {
    var s := states[i];
    RunKeeps(states, steps, i);
    assert Counter(s, x) && StillOpen(s, x);
    co :| co in s.blocked[x].open;
    assert Open(s, x)[co] == multiset(Unprocessed(s, co))[x];
    assert co in multiset(s.blocked[x].targets);
    assert KeyOf(s.keys, co).waiting != [];
  }

  /** When resuming a blocked waiter from elsewhere is too early: exactly as long as something it registered on
      is still unprocessed and not in the loops.  Outside the loops it always is. */
  lemma TooEarly(s: State, x: Co)
    requires Inv(s) && x in s.blocked
    ensures AllEnded(s.log, BlockedOn(s.log, x)) <==> forall co :: co in s.blocked[x].open ==> co in s.index
    ensures s.index == map[] ==> !AllEnded(s.log, BlockedOn(s.log, x))
  {
    var b := s.blocked[x];
    assert Counter(s, x) && StillOpen(s, x) && BlockedOn(s.log, x) == b.targets;
    if AllEnded(s.log, b.targets) {
      forall co | co in b.open ensures co in s.index { OpenEnded(s, x, co); }
    }
    if forall co :: co in b.open ==> co in s.index {
      forall i | 0 <= i < |b.targets| ensures EndOf(s.log, b.targets[i]).Some? { LoopEnded(s, b.targets[i]); }
    }
    assert |b.open| > 0;
    var co :| co in b.open;
  }

  /** A target that has ended and is still unprocessed is in the loops. */
  lemma OpenEnded(s: State, x: Co, co: Co)
    requires Inv(s) && x in s.blocked && co in s.blocked[x].open && AllEnded(s.log, s.blocked[x].targets)
    ensures co in s.index
  {
    var ts := s.blocked[x].targets;
    assert StillOpen(s, x);
    assert co in multiset(ts);
    var i :| 0 <= i < |ts| && ts[i] == co;
    assert EndOf(s.log, ts[i]).Some? && StatusOf(s, co) == Done;
    assert Open(s, x)[co] == multiset(Unprocessed(s, co))[x];
    assert KeyOf(s.keys, co).waiting != [];
  }

  /** What is done or in the loops has ended. */
  lemma LoopEnded(s: State, co: Co)
    requires Control(s) && Logged(s) && (StatusOf(s, co) != Done ==> co in s.index)
    ensures EndOf(s.log, co).Some?
  {
    if co in s.index {
      var i :| 0 <= i < |s.stack| && s.stack[i] == Loop(co);
    }
    assert StatusOf(s, co) == Done <==> EndOf(s.log, co).Some?;
  }

  // ----- runs that fail ------------------------------------------------------------------------------

  /** One more step of a run. */
  lemma Onward(states: seq<State>, steps: seq<Step>, step: Step) returns (states': seq<State>, steps': seq<Step>)
    requires Follows(states, steps) && Enabled(states[|steps|], step)
    ensures Follows(states', steps') && |steps'| == |steps| + 1 && states'[|steps'|] == Apply(states[|steps|], step)
    ensures IsRun(states, steps) && Disciplined(states[|steps|], step) ==> IsRun(states', steps')
  {
    hide Apply, Enabled, Disciplined;
    states', steps' := states + [Apply(states[|steps|], step)], steps + [step];
  }

  /** A run outside the rule: 2 waits for 1 and is resumed while 1 has only yielded. */
  lemma EarlyWake() returns (states: seq<State>, steps: seq<Step>)
    ensures Follows(states, steps) && steps == [Resume(1), Yield, Resume(2), Waits([1]), Resume(2)]
    ensures states[5].log == [Blocks(2, [1]), Wakes(2, Elsewhere)] && !GoodLog(states[5].log)
  {
    hide Apply, Enabled, GoodLog, Early1, Early2, Early3, Early4, Early5;
    states := [Initial(), Early1(), Early2(), Early3(), Early4(), Early5()];
    steps := [Resume(1), Yield, Resume(2), Waits([1]), Resume(2)];
    EarlySteps();
    EarlyWait();
    EarlyLog();
    EarlyIsBad(Early5().log);
  }

  ghost function Early1(): State { State(map[1 := Active], map[], [Run(1)], map[], map[], []) }

  ghost function Early2(): State { State(map[1 := Yielded], map[], [], map[], map[], []) }

  ghost function Early3(): State { State(map[1 := Yielded, 2 := Active], map[], [Run(2)], map[], map[], []) }

  ghost function Early4(): State {
    State(map[1 := Yielded, 2 := Yielded], Register(map[], 2, 1), [], map[], map[2 := Wait([1], multiset([1]))],
          [Blocks(2, [1])])
  }

  ghost function Early5(): State {
    State(map[1 := Yielded, 2 := Active], Register(map[], 2, 1), [Run(2)], map[], map[],
          [Blocks(2, [1]), Wakes(2, Elsewhere)])
  }

  lemma EarlySteps()
    ensures Enabled(Initial(), Resume(1)) && Apply(Initial(), Resume(1)) == Early1()
    ensures Enabled(Early1(), Yield) && Apply(Early1(), Yield) == Early2()
    ensures Enabled(Early2(), Resume(2)) && Apply(Early2(), Resume(2)) == Early3()
  {
    var none: map<Co, Wait> := map[];
    assert none - {1} == none && none - {2} == none;
  }

  lemma EarlyWait()
    ensures Enabled(Early3(), Waits([1])) && Apply(Early3(), Waits([1])) == Early4()
  {
    hide RegisterAll, Register;
    var s := Early3();
    OneYielded(s.status, s.keys);
    assert Pop(s) == [];
  }

  lemma EarlyLog()
    ensures Enabled(Early4(), Resume(2)) && Apply(Early4(), Resume(2)) == Early5()
    ensures Early5().log == [Blocks(2, [1]), Wakes(2, Elsewhere)]
  {
    hide Register;
    assert map[2 := Wait([1], multiset([1]))] - {2} == map[];
  }

  lemma OneYielded(status: map<Co, Status>, keys: map<Co, Key>)
    requires Accepts(status, keys, 1)
    ensures RegisterAll(status, keys, 2, [1]) == (Register(keys, 2, 1), [1])
  {
    hide Register, Accepts;
    NobodyAsked(status, keys);
    RegisterLast(status, keys, [1]);
  }

  lemma NobodyAsked(status: map<Co, Status>, keys: map<Co, Key>)
    ensures RegisterAll(status, keys, 2, []) == (keys, [])
  {
  }

  lemma RegisterLast(status: map<Co, Status>, keys: map<Co, Key>, args: seq<Co>)
    requires |args| == 1 && Accepts(status, keys, args[0])
    ensures RegisterAll(status, keys, 2, args) == (Register(keys, 2, args[0]), args)
  {
    hide Register, Accepts;
    assert args[..0] == [] && [] + [args[0]] == args;
    NobodyAsked(status, keys);
  }

  lemma EarlyIsBad(log: seq<Event>)
    requires log == [Blocks(2, [1]), Wakes(2, Elsewhere)]
    ensures !GoodLog(log)
  {
    assert log[..1] == [Blocks(2, [1])] && log[..1][..0] == [];
    assert !GoodWake(log[..1], log[1].co, log[1].got);
  }

  /** Coroutines 1 to n have run up to a yield. */
  ghost function Parked(n: nat): (s: State)
    ensures s == Initial().(status := s.status)
    ensures forall c :: (c in s.status <==> 1 <= c <= n) && (c in s.status ==> s.status[c] == Yielded)
  {
    if n == 0 then Initial() else Parked(n - 1).(status := Parked(n - 1).status[n := Yielded])
  }

  ghost function UpTo(n: nat): seq<Co> {
    seq(n, i => i + 1)
  }

  lemma {:induction false} Park(n: nat) returns (states: seq<State>, steps: seq<Step>)
    ensures IsRun(states, steps) && states[|steps|] == Parked(n)
  {
    if n == 0 {
      states, steps := [Initial()], [];
    } else {
      states, steps := Park(n - 1);
      states, steps := Onward(states, steps, Resume(n));
      states, steps := Onward(states, steps, Yield);
      ParkOne(n);
    }
  }

  lemma ParkOne(n: nat)
    requires n > 0
    ensures Apply(Apply(Parked(n - 1), Resume(n)), Yield) == Parked(n)
  {
    var s := Apply(Apply(Parked(n - 1), Resume(n)), Yield);
    assert s.status == Parked(n).status && s.stack == [] && s.blocked == map[];
  }

  /** Every one of them has a free slot, and the waiter takes one of each. */
  lemma {:induction false} TakesEach(status: map<Co, Status>, n: nat)
    requires forall c :: 1 <= c <= n ==> c in status && status[c] == Yielded
    ensures var (keys', regs) := RegisterAll(status, map[], 0, UpTo(n));
      regs == UpTo(n) && forall c :: KeyOf(keys', c).waiting == if 1 <= c <= n then [0] else []
  {
    hide Register, UpTo;
    UpToNext(n);
    if n > 0 {
      TakesEach(status, n - 1);
      var (keys1, _) := RegisterAll(status, map[], 0, UpTo(n - 1));
      assert KeyOf(keys1, n).waiting == [];
      forall c ensures KeyOf(Register(keys1, 0, n), c).waiting == if 1 <= c <= n then [0] else [] {
        assert KeyOf(keys1, c).waiting == if 1 <= c <= n - 1 then [0] else [];
        OneSlot(keys1, 0, n, c);
      }
    }
  }

  lemma UpToNext(n: nat)
    ensures |UpTo(n)| == n && (n == 0 ==> UpTo(n) == [])
    ensures n > 0 ==> UpTo(n)[..n - 1] == UpTo(n - 1) && UpTo(n) == UpTo(n - 1) + [n] && UpTo(n)[n - 1] == n
  {
  }

  /** Coroutine 0 waits for coroutines 1 to n, with one slot of each. */
  ghost predicate WaitsForAll(s: State, n: nat) {
    && s.stack == [] && s.index == map[] && s.log == [Blocks(0, UpTo(n))] && s.blocked.Keys == {0}
    && StatusOf(s, 0) == Yielded && (forall c :: 1 <= c <= n ==> StatusOf(s, c) == Yielded)
    && KeyOf(s.keys, 0).w == n % LAP && (KeyOf(s.keys, 0).wd <==> n > 1)
    && forall c :: KeyOf(s.keys, c).waiting == if 1 <= c <= n then [0] else []
  }

  lemma BeginWait(n: nat)
    requires n > 0
    ensures WaitsForAll(Apply(Apply(Parked(n), Resume(0)), Waits(UpTo(n))), n)
  {
    hide RegisterAll, UpTo, Parked;
    var s := Apply(Parked(n), Resume(0));
    assert s.stack == [Run(0)];
    TakesEach(s.status, n);
    CountsAll(s.status, n);
    UpToSize(n);
  }

  lemma UpToSize(n: nat)
    ensures |UpTo(n)| == n
  {
  }

  lemma CountsAll(status: map<Co, Status>, n: nat)
    requires 0 in status && status[0] == Active && forall c :: 1 <= c <= n ==> c in status && status[c] == Yielded
    ensures var k := KeyOf(RegisterAll(status, map[], 0, UpTo(n)).0, 0); k.w == n % LAP && (k.wd <==> n > 1)
  {
    hide RegisterAll, SlotsTaken;
    TakesEach(status, n);
    RegistersAll(status, map[], 0, UpTo(n));
  }

  /** A run within the rule: coroutine 0 waits for 65,537 others, its counter stands at 1, and the first of
      them to finish resumes it. */
  lemma LapRun() returns (states: seq<State>, steps: seq<Step>)
    ensures IsRun(states, steps)
    ensures states[|steps|].log == [Blocks(0, UpTo(0x1_0001)), Ends(1, End(0, true)), Wakes(0, Flag(true))]
    ensures !GoodLog(states[|steps|].log)
  {
    states, steps := Park(0x1_0001);
    states, steps := Onward(states, steps, Resume(0));
    states, steps := Onward(states, steps, Waits(UpTo(0x1_0001)));
    BeginWait(0x1_0001);
    states, steps := LapEnds(states, steps);
  }

  lemma LapEnds(states0: seq<State>, steps0: seq<Step>) returns (states: seq<State>, steps: seq<Step>)
    requires IsRun(states0, steps0) && WaitsForAll(states0[|steps0|], 0x1_0001)
    ensures IsRun(states, steps)
    ensures states[|steps|].log == [Blocks(0, UpTo(0x1_0001)), Ends(1, End(0, true)), Wakes(0, Flag(true))]
    ensures !GoodLog(states[|steps|].log)
  {
    hide Parked, RegisterAll, UpTo, GoodLog;
    states, steps := states0, steps0;
    states, steps := Onward(states, steps, Resume(1));
    states, steps := Onward(states, steps, Finish(0, true));
    states, steps := Onward(states, steps, Turn);
    var l := states[|steps|].log;
    assert l == [Blocks(0, UpTo(0x1_0001)), Ends(1, End(0, true)), Wakes(0, Flag(true))];
    assert l[..2] == [Blocks(0, UpTo(0x1_0001)), Ends(1, End(0, true))];
    LapIsBad(l);
  }

  lemma LapIsBad(l: seq<Event>)
    requires l == [Blocks(0, UpTo(0x1_0001)), Ends(1, End(0, true)), Wakes(0, Flag(true))]
    ensures !GoodLog(l)
  {
    var ts := UpTo(0x1_0001);
    assert l[..2][..1] == [Blocks(0, ts)];
    assert BlockedOn(l[..2], 0) == ts;
    assert l[..2] == ([] + [Blocks(0, ts)]) + [Ends(1, End(0, true))];
    EndAfter([], Blocks(0, ts), 2);
    EndAfter([] + [Blocks(0, ts)], Ends(1, End(0, true)), 2);
    assert ts[1] == 2 && EndOf(l[..2], ts[1]) == None;
    assert !AllEnded(l[..2], ts);
    assert l[2].Wakes? && !GoodWake(l[..2], l[2].co, l[2].got);
  }
}
