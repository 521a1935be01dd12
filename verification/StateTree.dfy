/**
 The state hierarchy of src/events/HSM.h and a short specification of one
 dispatch over it: who answers an event, which state is the least common
 ancestor, which EXIT and ENTRY calls a transition makes, where INIT ends.
 */
module StateTree {
  import opened Wrappers

  type StateId = nat

  const HSM_TOP: StateId := 0
  const HSM_MAX_NEST_DEPTH: nat := 5

  /**
   Any finite hierarchy: parents[s] is the superstate of state s, states being numbered
   so that a superstate comes before its substates. Every other number is a child of
   Hsm_top that no handler mentions.
   */
  datatype RawTree = RawTree(parents: seq<StateId>) {
    function Parent(s: StateId): StateId {
      if s < |parents| && parents[s] < s then parents[s] else HSM_TOP
    }

    function Level(s: StateId): nat {
      if s == HSM_TOP then 0 else Level(Parent(s)) + 1
    }

    /** A chain from a state to Hsm_top inclusive has at most HSM_MAX_NEST_DEPTH entries. */
    ghost predicate Valid() {
      forall s: StateId {:trigger Level(s)} :: Level(s) < HSM_MAX_NEST_DEPTH
    }
  }

  type Tree = t: RawTree | t.Valid() witness RawTree([])

  /** `s` is `a` or lies below it. */
  predicate Within(t: Tree, s: StateId, a: StateId)
    decreases t.Level(s)
  {
    s == a || (s != HSM_TOP && Within(t, t.Parent(s), a))
  }

  /** The deepest state that contains both `a` and `b`. */
  function Lca(t: Tree, a: StateId, b: StateId): StateId
    decreases t.Level(a)
  {
    if a == HSM_TOP || Within(t, b, a) then a else Lca(t, t.Parent(a), b)
  }

  /** Up to where a transition answered by `source` exits: a self-transition leaves its own state. */
  function TranLca(t: Tree, source: StateId, target: StateId): StateId {
    if source == target then t.Parent(source) else Lca(t, source, target)
  }

  datatype Action = Enter(s: StateId) | Exit(s: StateId)

  /** Exits leaf to root, from `s` up to but excluding `a`. */
  function ExitSteps(t: Tree, s: StateId, a: StateId): seq<Action>
    requires Within(t, s, a)
    decreases t.Level(s)
  {
    if s == a then [] else [Exit(s)] + ExitSteps(t, t.Parent(s), a)
  }

  /** Entries root to leaf, from below `a` down to `s`. */
  function EntrySteps(t: Tree, a: StateId, s: StateId): seq<Action>
    requires Within(t, s, a)
    decreases t.Level(s)
  {
    if s == a then [] else EntrySteps(t, a, t.Parent(s)) + [Enter(s)]
  }

  // ------------------------------------------------------------------ handlers

  datatype Signal = Entry | Leave | Empty | Init | User(sig: nat)

  datatype Ret = Handled | Ignored | Tran | Super | Unhandled

  /** What a handler returns, and what it assigned to `temp` (None: left alone). */
  datatype Reply = Reply(ret: Ret, temp: Option<StateId>)

  /**
   How the state handlers answer during one dispatch. A dispatch calls a handler with one
   signal at most once (EMPTY apart, whose answer is fixed), so a table loses nothing.
   */
  type Handlers = map<(StateId, Signal), Reply>

  /** An entry absent from the table is a handler's `default:` branch: tran_super. */
  function Ask(t: Tree, h: Handlers, s: StateId, sig: Signal): Reply {
    if (s, sig) in h then h[(s, sig)] else Reply(Super, Some(t.Parent(s)))
  }

  ghost predicate ObeysAt(t: Tree, h: Handlers, s: StateId) {
    && Ask(t, h, s, Empty) == Reply(Super, Some(t.Parent(s)))
    && (Ask(t, h, s, Leave).ret == Handled || Ask(t, h, s, Leave).temp == Some(t.Parent(s)))
    && (Ask(t, h, s, Init).ret == Tran ==>
          && Ask(t, h, s, Init).temp.Some?
          && Ask(t, h, s, Init).temp.value != s
          && Within(t, Ask(t, h, s, Init).temp.value, s))
  }

  ghost predicate AnswersEvent(t: Tree, h: Handlers, s: StateId, e: Signal) {
    && (Ask(t, h, s, e).ret == Super ==> Ask(t, h, s, e).temp == Some(t.Parent(s)))
    && (Ask(t, h, s, e).ret == Tran ==> Ask(t, h, s, e).temp.Some? && Ask(t, h, s, e).temp.value != HSM_TOP)
  }

  /** The contract between HSM<T> and the handlers of T; ENTRY is unconstrained. */
  ghost predicate Obeys(t: Tree, h: Handlers) {
    && (forall s: StateId {:trigger ObeysAt(t, h, s)} :: s != HSM_TOP ==> ObeysAt(t, h, s))
    && (forall s: StateId, e: Signal {:trigger AnswersEvent(t, h, s, e)} ::
          s != HSM_TOP && e.User? ==> AnswersEvent(t, h, s, e))
  }

  predicate IsEvent(e: Signal) {
    e.User? || e.Empty?
  }

  // ------------------------------------------------------------- specification

  datatype Verdict = Verdict(ret: Ret, source: StateId, target: StateId)

  /** The first state on the way up whose handler neither defers nor fails a guard. */
  function Answer(t: Tree, h: Handlers, s: StateId, e: Signal): Verdict
    decreases t.Level(s)
  {
    if s == HSM_TOP then Verdict(Ignored, s, s)
    else if Ask(t, h, s, e).ret in {Super, Unhandled} then Answer(t, h, t.Parent(s), e)
    else Verdict(Ask(t, h, s, e).ret, s, if Ask(t, h, s, e).temp.Some? then Ask(t, h, s, e).temp.value else s)
  }

  /** Does INIT of `s` go on to a proper substate? */
  predicate Drills(t: Tree, h: Handlers, s: StateId) {
    && s != HSM_TOP
    && Ask(t, h, s, Init).ret == Tran
    && Ask(t, h, s, Init).temp.Some?
    && Ask(t, h, s, Init).temp.value != s
    && Within(t, Ask(t, h, s, Init).temp.value, s)
  }

  function InitLeaf(t: Tree, h: Handlers, s: StateId): StateId
    decreases HSM_MAX_NEST_DEPTH - t.Level(s)
  {
    if Drills(t, h, s) then
      WithinIsDeeper(t, Ask(t, h, s, Init).temp.value, s);
      InitLeaf(t, h, Ask(t, h, s, Init).temp.value)
    else s
  }

  function InitSteps(t: Tree, h: Handlers, s: StateId): seq<Action>
    decreases HSM_MAX_NEST_DEPTH - t.Level(s)
  {
    if Drills(t, h, s) then
      WithinIsDeeper(t, Ask(t, h, s, Init).temp.value, s);
      EntrySteps(t, s, Ask(t, h, s, Init).temp.value) + InitSteps(t, h, Ask(t, h, s, Init).temp.value)
    else []
  }

  /** EXIT and ENTRY calls of a transition that `source` answered while `cur` was active. */
  function MoveSteps(t: Tree, cur: StateId, source: StateId, target: StateId): seq<Action>
    requires source != HSM_TOP && Within(t, cur, source)
  {
    var lca := TranLca(t, source, target);
    TranLcaContains(t, source, target);
    WithinTrans(t, cur, source, lca);
    ExitSteps(t, cur, lca) + EntrySteps(t, lca, target)
  }

  datatype Next = Next(state: StateId, steps: seq<Action>)

  /** One dispatch: where the machine goes and which actions it runs. */
  function Dispatch(t: Tree, h: Handlers, cur: StateId, e: Signal): Next {
    var v := Answer(t, h, cur, e);
    if v.ret != Tran then Next(cur, [])
    else
      AnswerIsAncestor(t, h, cur, e);
      Next(InitLeaf(t, h, v.target), MoveSteps(t, cur, v.source, v.target) + InitSteps(t, h, v.target))
  }

  /** Start-up: from Hsm_top to the target of the initial pseudo-state, then INIT. */
  function Boot(t: Tree, h: Handlers, target: StateId): Next {
    WithinTop(t, target);
    Next(InitLeaf(t, h, target), EntrySteps(t, HSM_TOP, target) + InitSteps(t, h, target))
  }

  // ------------------------------------------------------------- who answers

  /** The first state on the way up that does not pass the event on answers it, with its own reply. */
  lemma {:induction false} FirstReplyAnswers(t: Tree, h: Handlers, s: StateId, a: StateId, e: Signal)
    requires a != HSM_TOP && Within(t, s, a)
    requires forall x: StateId :: Within(t, s, x) && Within(t, x, a) && x != a ==>
               Ask(t, h, x, e).ret == Super || Ask(t, h, x, e).ret == Unhandled
    requires Ask(t, h, a, e).ret != Super && Ask(t, h, a, e).ret != Unhandled
    ensures Answer(t, h, s, e).ret == Ask(t, h, a, e).ret && Answer(t, h, s, e).source == a
    ensures Ask(t, h, a, e).temp.Some? ==> Answer(t, h, s, e).target == Ask(t, h, a, e).temp.value
    decreases t.Level(s)
  {
    hide Ask;
    if s != a {
      assert Within(t, s, s) && s != HSM_TOP;
      FirstReplyAnswers(t, h, t.Parent(s), a, e);
    }
  }

  /** It is left to Hsm_top exactly if every state on the way up passes it on. */
  lemma {:induction false} TopAnswersIff(t: Tree, h: Handlers, s: StateId, e: Signal)
    ensures Answer(t, h, s, e) == Verdict(Ignored, HSM_TOP, HSM_TOP) <==>
            forall x: StateId :: x != HSM_TOP && Within(t, s, x) ==>
              Ask(t, h, x, e).ret == Super || Ask(t, h, x, e).ret == Unhandled
    decreases t.Level(s)
  {
    hide Ask;
    if s == HSM_TOP {
      assert forall x: StateId :: Within(t, s, x) ==> x == HSM_TOP;
    } else {
      TopAnswersIff(t, h, t.Parent(s), e);
      assert Within(t, s, s);
      assert forall x: StateId :: Within(t, t.Parent(s), x) ==> Within(t, s, x) by {
        forall x: StateId | Within(t, t.Parent(s), x) ensures Within(t, s, x) { WithinIsDeeper(t, t.Parent(s), x); }
      }
    }
  }

  /**
   A transition that the first replying state asks for exits from the current state up to its LCA
   with the target, enters down to the target, and follows INIT; any other reply changes nothing.
   */
  lemma {:induction false} DispatchOfFirstReply(t: Tree, h: Handlers, cur: StateId, a: StateId, e: Signal)
    requires a != HSM_TOP && Within(t, cur, a)
    requires forall x: StateId :: Within(t, cur, x) && Within(t, x, a) && x != a ==>
               Ask(t, h, x, e).ret == Super || Ask(t, h, x, e).ret == Unhandled
    requires Ask(t, h, a, e).ret != Super && Ask(t, h, a, e).ret != Unhandled
    ensures Ask(t, h, a, e).ret != Tran ==> Dispatch(t, h, cur, e) == Next(cur, [])
    ensures Ask(t, h, a, e).ret == Tran && Ask(t, h, a, e).temp.Some? ==>
              var g := Ask(t, h, a, e).temp.value; var l := TranLca(t, a, g);
              && Within(t, cur, l) && Within(t, g, l)
              && Dispatch(t, h, cur, e) == Next(InitLeaf(t, h, g), ExitSteps(t, cur, l) + EntrySteps(t, l, g) + InitSteps(t, h, g))
  {
    hide Ask, Answer;
    FirstReplyAnswers(t, h, cur, a, e);
    if Ask(t, h, a, e).ret == Tran && Ask(t, h, a, e).temp.Some? {
      var g := Ask(t, h, a, e).temp.value;
      TranLcaContains(t, a, g);
      WithinTrans(t, cur, a, TranLca(t, a, g));
    }
  }

  /** An event that every state on the way up passes on changes nothing. */
  lemma {:induction false} PassedOnEventChangesNothing(t: Tree, h: Handlers, cur: StateId, e: Signal)
    requires forall x: StateId :: x != HSM_TOP && Within(t, cur, x) ==>
               Ask(t, h, x, e).ret == Super || Ask(t, h, x, e).ret == Unhandled
    ensures Dispatch(t, h, cur, e) == Next(cur, [])
  {
    hide Ask, Answer;
    TopAnswersIff(t, h, cur, e);
  }

  // -------------------------------------------------------- ancestors and LCA

  lemma {:induction false} WithinTop(t: Tree, s: StateId)
    ensures Within(t, s, HSM_TOP)
    decreases t.Level(s)
  {
    if s != HSM_TOP { WithinTop(t, t.Parent(s)); }
  }

  lemma {:induction false} WithinIsDeeper(t: Tree, s: StateId, a: StateId)
    requires Within(t, s, a)
    ensures t.Level(a) <= t.Level(s)
    ensures t.Level(a) == t.Level(s) ==> s == a
    decreases t.Level(s)
  {
    if s != a { WithinIsDeeper(t, t.Parent(s), a); }
  }

  lemma {:induction false} WithinTrans(t: Tree, s: StateId, a: StateId, b: StateId)
    requires Within(t, s, a) && Within(t, a, b)
    ensures Within(t, s, b)
    decreases t.Level(s)
  {
    if s != a { WithinTrans(t, t.Parent(s), a, b); }
  }

  lemma {:induction false} AnswerIsAncestor(t: Tree, h: Handlers, s: StateId, e: Signal)
    ensures Within(t, s, Answer(t, h, s, e).source)
    ensures Answer(t, h, s, e).ret == Tran ==> Answer(t, h, s, e).source != HSM_TOP
    decreases t.Level(s)
  {
    if s != HSM_TOP && Ask(t, h, s, e).ret in {Super, Unhandled} {
      AnswerIsAncestor(t, h, t.Parent(s), e);
    }
  }

  lemma {:induction false} LcaContains(t: Tree, a: StateId, b: StateId)
    ensures Within(t, a, Lca(t, a, b)) && Within(t, b, Lca(t, a, b))
    decreases t.Level(a)
  {
    if a == HSM_TOP { WithinTop(t, b); }
    else if !Within(t, b, a) { LcaContains(t, t.Parent(a), b); }
  }

  lemma {:induction false} TranLcaContains(t: Tree, source: StateId, target: StateId)
    requires source != HSM_TOP
    ensures Within(t, source, TranLca(t, source, target))
    ensures Within(t, target, TranLca(t, source, target))
  {
    if source == target {
      assert Within(t, t.Parent(source), t.Parent(source));
    } else {
      LcaContains(t, source, target);
    }
  }

  /** Every common ancestor contains the LCA: it is the least one, and the only such state. */
  lemma {:induction false} LcaIsLeast(t: Tree, a: StateId, b: StateId, c: StateId)
    requires Within(t, a, c) && Within(t, b, c)
    ensures Within(t, Lca(t, a, b), c)
    decreases t.Level(a)
  {
    if a != HSM_TOP && !Within(t, b, a) { LcaIsLeast(t, t.Parent(a), b, c); }
  }

  /** The case table of a transition, and the LCA of each row. */
  lemma {:induction false} TranLcaCases(t: Tree, source: StateId, target: StateId)
    requires source != HSM_TOP
    ensures source == target ==> TranLca(t, source, target) == t.Parent(source)
    ensures source != target && Within(t, target, source) ==> TranLca(t, source, target) == source
    ensures source != target && Within(t, source, target) ==> TranLca(t, source, target) == target
    ensures !Within(t, target, source) && !Within(t, source, target) ==>
              var l := TranLca(t, source, target);
              && l != source && l != target && Within(t, source, l) && Within(t, target, l)
              && (forall c: StateId :: Within(t, source, c) && Within(t, target, c) ==> Within(t, l, c))
  {
    if source != target {
      LcaContains(t, source, target);
      forall c: StateId | Within(t, source, c) && Within(t, target, c)
        ensures Within(t, Lca(t, source, target), c)
      {
        LcaIsLeast(t, source, target, c);
      }
      if Within(t, source, target) {
        var l := Lca(t, source, target);
        assert Within(t, l, target);
        WithinIsDeeper(t, l, target);
        WithinIsDeeper(t, target, l);
      }
    }
  }

  /** Each state's INIT leads to the next one, below it; that of the last leads nowhere. */
  ghost predicate IsInitChain(t: Tree, h: Handlers, chain: seq<StateId>) {
    && chain != []
    && (forall i {:trigger chain[i]} :: 0 <= i < |chain| ==> chain[i] != HSM_TOP)
    && (forall i {:trigger chain[i]} :: 0 < i < |chain| ==>
          && Ask(t, h, chain[i - 1], Init) == Reply(Tran, Some(chain[i]))
          && chain[i] != chain[i - 1] && Within(t, chain[i], chain[i - 1]))
    && Ask(t, h, chain[|chain| - 1], Init).ret != Tran
  }

  /** INIT is followed to the end of the chain, entering everything on the way. */
  lemma {:induction false} InitFollowsChain(t: Tree, h: Handlers, chain: seq<StateId>)
    requires IsInitChain(t, h, chain)
    ensures var last := chain[|chain| - 1];
            && InitLeaf(t, h, chain[0]) == last && Within(t, last, chain[0])
            && InitSteps(t, h, chain[0]) == EntrySteps(t, chain[0], last)
    decreases |chain|
  {
    hide Ask;
    var s, rest, last := chain[0], chain[1..], chain[|chain| - 1];
    if rest == [] {
      assert chain[0] == last;
    } else {
      assert forall i :: 0 <= i < |rest| ==> rest[i] == chain[i + 1];
      assert rest[0] == chain[1] && Ask(t, h, chain[0], Init) == Reply(Tran, Some(chain[1]));
      InitFollowsChain(t, h, rest);
      WithinTrans(t, last, rest[0], s);
      EntryStepsAppend(t, s, rest[0], last);
    }
  }

  lemma {:induction false} EntryStepsAppend(t: Tree, a: StateId, m: StateId, s: StateId)
    requires Within(t, m, a) && Within(t, s, m)
    ensures Within(t, s, a) && EntrySteps(t, a, s) == EntrySteps(t, a, m) + EntrySteps(t, m, s)
    decreases t.Level(s)
  {
    if s == m {
      assert EntrySteps(t, a, m) + [] == EntrySteps(t, a, m);
    } else {
      EntryStepsAppend(t, a, m, t.Parent(s));
      WithinIsDeeper(t, t.Parent(s), a);
    }
  }

  /** Start-up ends at the end of the chain from the initial target, entering everything on the way. */
  lemma {:induction false} BootFollowsChain(t: Tree, h: Handlers, chain: seq<StateId>)
    requires IsInitChain(t, h, chain)
    ensures var last := chain[|chain| - 1];
            Within(t, last, HSM_TOP) && Boot(t, h, chain[0]) == Next(last, EntrySteps(t, HSM_TOP, last))
  {
    WithinTop(t, chain[0]);
    InitFollowsChain(t, h, chain);
    EntryStepsAppend(t, HSM_TOP, chain[0], chain[|chain| - 1]);
  }

  lemma {:induction false} InitLeafWithin(t: Tree, h: Handlers, s: StateId)
    ensures Within(t, InitLeaf(t, h, s), s)
    decreases HSM_MAX_NEST_DEPTH - t.Level(s)
  {
    if Drills(t, h, s) {
      var d := Ask(t, h, s, Init).temp.value;
      WithinIsDeeper(t, d, s);
      InitLeafWithin(t, h, d);
      WithinTrans(t, InitLeaf(t, h, d), d, s);
    }
  }

  // ------------------------------------------------------ active configuration

  /** The states that are active when the machine rests in `s`, outermost first. */
  function Config(t: Tree, s: StateId): seq<StateId>
    decreases t.Level(s)
  {
    if s == HSM_TOP then [] else Config(t, t.Parent(s)) + [s]
  }

  /** Only a direct child of the innermost active state may be entered; only the innermost may be exited. */
  function Perform(t: Tree, active: seq<StateId>, a: Action): Option<seq<StateId>> {
    match a
    case Enter(s) =>
      var leaf := if active == [] then HSM_TOP else active[|active| - 1];
      if s != HSM_TOP && s !in active && t.Parent(s) == leaf then Some(active + [s]) else None
    case Exit(s) =>
      if active != [] && active[|active| - 1] == s then Some(active[..|active| - 1]) else None
  }

  /** The active states after a log of actions, or None when some action was out of place. */
  function Replay(t: Tree, active: seq<StateId>, log: seq<Action>): Option<seq<StateId>>
    decreases |log|
  {
    if log == [] then Some(active)
    else
      var before := Replay(t, active, log[..|log| - 1]);
      if before.None? then None else Perform(t, before.value, log[|log| - 1])
  }

  lemma {:induction false} ReplayAppend(t: Tree, active: seq<StateId>, log: seq<Action>, more: seq<Action>)
    requires Replay(t, active, log).Some?
    ensures Replay(t, active, log + more) == Replay(t, Replay(t, active, log).value, more)
    decreases |more|
  {
    if more == [] {
      assert log + more == log;
    } else {
      var init := more[..|more| - 1];
      assert (log + more)[..|log + more| - 1] == log + init;
      ReplayAppend(t, active, log, init);
    }
  }

  lemma {:induction false} ReplayOne(t: Tree, active: seq<StateId>, a: Action)
    ensures Replay(t, active, [a]) == Perform(t, active, a)
  {
    assert [a][..0] == [];
  }

  lemma {:induction false} ConfigLast(t: Tree, s: StateId)
    ensures s != HSM_TOP ==> Config(t, s) != [] && Config(t, s)[|Config(t, s)| - 1] == s
    ensures s != HSM_TOP ==> Config(t, s)[..|Config(t, s)| - 1] == Config(t, t.Parent(s))
    ensures s == HSM_TOP ==> Config(t, s) == []
  {
  }

  /** Config lists exactly the ancestors below Hsm_top. */
  lemma {:induction false} ConfigIsAncestors(t: Tree, s: StateId, a: StateId)
    ensures a in Config(t, s) <==> a != HSM_TOP && Within(t, s, a)
    decreases t.Level(s)
  {
    if s != HSM_TOP { ConfigIsAncestors(t, t.Parent(s), a); }
  }

  lemma {:induction false} ReplayExits(t: Tree, s: StateId, a: StateId)
    requires Within(t, s, a)
    ensures Replay(t, Config(t, s), ExitSteps(t, s, a)) == Some(Config(t, a))
    decreases t.Level(s)
  {
    if s != a {
      ConfigLast(t, s);
      ReplayOne(t, Config(t, s), Exit(s));
      ReplayExits(t, t.Parent(s), a);
      ReplayAppend(t, Config(t, s), [Exit(s)], ExitSteps(t, t.Parent(s), a));
    }
  }

  lemma {:induction false} ReplayEntries(t: Tree, a: StateId, s: StateId)
    requires Within(t, s, a)
    ensures Replay(t, Config(t, a), EntrySteps(t, a, s)) == Some(Config(t, s))
    decreases t.Level(s)
  {
    if s != a {
      var p := t.Parent(s);
      ReplayEntries(t, a, p);
      ConfigIsAncestors(t, p, s);
      if Within(t, p, s) { WithinIsDeeper(t, p, s); }
      ConfigLast(t, p);
      ReplayOne(t, Config(t, p), Enter(s));
      ReplayAppend(t, Config(t, a), EntrySteps(t, a, p), [Enter(s)]);
    }
  }

  lemma {:induction false} ReplayInit(t: Tree, h: Handlers, s: StateId)
    ensures Replay(t, Config(t, s), InitSteps(t, h, s)) == Some(Config(t, InitLeaf(t, h, s)))
    decreases HSM_MAX_NEST_DEPTH - t.Level(s)
  {
    if Drills(t, h, s) {
      var d := Ask(t, h, s, Init).temp.value;
      WithinIsDeeper(t, d, s);
      ReplayEntries(t, s, d);
      ReplayInit(t, h, d);
      ReplayAppend(t, Config(t, s), EntrySteps(t, s, d), InitSteps(t, h, d));
    }
  }

  /** A dispatch takes the active configuration of one state to that of the next. */
  lemma {:induction false} ReplayDispatch(t: Tree, h: Handlers, cur: StateId, e: Signal)
    ensures var n := Dispatch(t, h, cur, e);
            Replay(t, Config(t, cur), n.steps) == Some(Config(t, n.state))
  {
    var v := Answer(t, h, cur, e);
    if v.ret == Tran {
      AnswerIsAncestor(t, h, cur, e);
      var lca := TranLca(t, v.source, v.target);
      TranLcaContains(t, v.source, v.target);
      WithinTrans(t, cur, v.source, lca);
      ReplayExits(t, cur, lca);
      ReplayEntries(t, lca, v.target);
      ReplayAppend(t, Config(t, cur), ExitSteps(t, cur, lca), EntrySteps(t, lca, v.target));
      ReplayInit(t, h, v.target);
      ReplayAppend(t, Config(t, cur), MoveSteps(t, cur, v.source, v.target), InitSteps(t, h, v.target));
    }
  }

  lemma {:induction false} ReplayBoot(t: Tree, h: Handlers, target: StateId)
    ensures var n := Boot(t, h, target);
            Replay(t, [], n.steps) == Some(Config(t, n.state))
  {
    WithinTop(t, target);
    ReplayEntries(t, HSM_TOP, target);
    ReplayInit(t, h, target);
    ReplayAppend(t, [], EntrySteps(t, HSM_TOP, target), InitSteps(t, h, target));
  }

  // ------------------------------------------------------------------ whole runs

  datatype Occurrence = Occurrence(h: Handlers, e: Signal)

  /** The state and the complete action log after a sequence of events. */
  function After(t: Tree, start: Next, events: seq<Occurrence>): Next
    decreases |events|
  {
    if events == [] then start
    else
      var before := After(t, start, events[..|events| - 1]);
      var last := events[|events| - 1];
      var n := Dispatch(t, last.h, before.state, last.e);
      Next(n.state, before.steps + n.steps)
  }

  /** Each event of a run is dispatched, in order. */
  lemma {:induction false} AfterDispatches(t: Tree, start: Next, events: seq<Occurrence>, more: seq<Occurrence>)
    ensures After(t, start, events + more) == After(t, After(t, start, events), more)
    ensures more != [] ==>
              var n := Dispatch(t, more[0].h, After(t, start, events).state, more[0].e);
              After(t, start, events + more[..1]) == Next(n.state, After(t, start, events).steps + n.steps)
    decreases |more|
  {
    hide Dispatch;
    if more == [] {
      assert events + more == events;
    } else {
      var init := more[..|more| - 1];
      assert (events + more)[..|events + more| - 1] == events + init;
      AfterDispatches(t, start, events, init);
      assert (events + more[..1])[..|events|] == events;
    }
  }

  function Run(t: Tree, boot: Handlers, target: StateId, events: seq<Occurrence>): Next {
    After(t, Boot(t, boot, target), events)
  }

  lemma {:induction false} AfterKeepsConfiguration(t: Tree, start: Next, events: seq<Occurrence>)
    requires Replay(t, [], start.steps) == Some(Config(t, start.state))
    ensures var n := After(t, start, events);
            Replay(t, [], n.steps) == Some(Config(t, n.state))
    decreases |events|
  {
    if events != [] {
      var init, last := events[..|events| - 1], events[|events| - 1];
      AfterKeepsConfiguration(t, start, init);
      var before := After(t, start, init);
      ReplayDispatch(t, last.h, before.state, last.e);
      ReplayAppend(t, [], before.steps, Dispatch(t, last.h, before.state, last.e).steps);
    }
  }

  /** Safety over every run: what was entered and not exited is the ancestor chain of the state. */
  lemma {:induction false} RunKeepsConfiguration(t: Tree, boot: Handlers, target: StateId, events: seq<Occurrence>)
    ensures var n := Run(t, boot, target, events);
            Replay(t, [], n.steps) == Some(Config(t, n.state))
  {
    hide After, Boot;
    ReplayBoot(t, boot, target);
    AfterKeepsConfiguration(t, Boot(t, boot, target), events);
  }

  lemma {:induction false} InitIgnoresEntry(t: Tree, h1: Handlers, h2: Handlers, s: StateId)
    requires forall x: StateId, e: Signal :: e != Entry ==> Ask(t, h1, x, e) == Ask(t, h2, x, e)
    ensures InitLeaf(t, h1, s) == InitLeaf(t, h2, s) && InitSteps(t, h1, s) == InitSteps(t, h2, s)
    decreases HSM_MAX_NEST_DEPTH - t.Level(s)
  {
    if Drills(t, h1, s) {
      WithinIsDeeper(t, Ask(t, h1, s, Init).temp.value, s);
      InitIgnoresEntry(t, h1, h2, Ask(t, h1, s, Init).temp.value);
    }
  }

  lemma {:induction false} AnswerIgnoresEntry(t: Tree, h1: Handlers, h2: Handlers, s: StateId, e: Signal)
    requires IsEvent(e)
    requires forall x: StateId, e: Signal :: e != Entry ==> Ask(t, h1, x, e) == Ask(t, h2, x, e)
    ensures Answer(t, h1, s, e) == Answer(t, h2, s, e)
    decreases t.Level(s)
  {
    if s != HSM_TOP { AnswerIgnoresEntry(t, h1, h2, t.Parent(s), e); }
  }

  /** A transition requested by an ENTRY handler is discarded: ENTRY answers never change a dispatch. */
  lemma {:induction false} EntryTransitionIsDiscarded(t: Tree, h1: Handlers, h2: Handlers, cur: StateId, e: Signal)
    requires IsEvent(e)
    requires forall x: StateId, e: Signal :: e != Entry ==> Ask(t, h1, x, e) == Ask(t, h2, x, e)
    ensures Dispatch(t, h1, cur, e) == Dispatch(t, h2, cur, e)
  {
    AnswerIgnoresEntry(t, h1, h2, cur, e);
    InitIgnoresEntry(t, h1, h2, Answer(t, h1, cur, e).target);
  }

  lemma {:induction false} EmptyIsPassedToTop(t: Tree, h: Handlers, s: StateId)
    requires Obeys(t, h)
    ensures Answer(t, h, s, Empty) == Verdict(Ignored, HSM_TOP, HSM_TOP)
    decreases t.Level(s)
  {
    if s != HSM_TOP {
      assert ObeysAt(t, h, s);
      EmptyIsPassedToTop(t, h, t.Parent(s));
    }
  }

  /** The EV_EMPTY that stop() queues to wake the thread changes nothing and runs no action. */
  lemma {:induction false} EmptyEventChangesNothing(t: Tree, h: Handlers, cur: StateId)
    requires Obeys(t, h)
    ensures Dispatch(t, h, cur, Empty) == Next(cur, [])
  {
    EmptyIsPassedToTop(t, h, cur);
  }
}
