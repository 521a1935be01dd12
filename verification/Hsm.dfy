/**
 The dispatcher of src/events/HSM.h: `state` and `temp` are reassigned through
 the bubbling, LCA and drill loops over a path buffer of HSM_MAX_NEST_DEPTH
 slots. Each method is proved against the functions of StateTree.
 */
module Hsm {
  import opened Wrappers
  import opened StateTree
  import opened StartUp

  /** The k-th ancestor, counting the state itself as number 0. */
  function Up(t: Tree, s: StateId, k: nat): StateId
    requires k <= t.Level(s)
    decreases k
  {
    if k == 0 then s else t.Parent(Up(t, s, k - 1))
  }

  lemma {:induction false} UpLevel(t: Tree, s: StateId, k: nat)
    requires k <= t.Level(s)
    ensures t.Level(Up(t, s, k)) == t.Level(s) - k
  {
    if k > 0 { UpLevel(t, s, k - 1); }
  }

  lemma {:induction false} UpParent(t: Tree, s: StateId, k: nat)
    requires 0 < k <= t.Level(s)
    ensures s != HSM_TOP && Up(t, s, k) == Up(t, t.Parent(s), k - 1)
    decreases k
  {
    if k > 1 { UpParent(t, s, k - 1); }
  }

  /** `a` contains `s` exactly when it is the ancestor as far up as the levels differ. */
  lemma {:induction false} WithinIsUp(t: Tree, s: StateId, a: StateId)
    ensures Within(t, s, a) <==> t.Level(a) <= t.Level(s) && Up(t, s, t.Level(s) - t.Level(a)) == a
    decreases t.Level(s)
  {
    if s != HSM_TOP && s != a {
      WithinIsUp(t, t.Parent(s), a);
      if t.Level(a) < t.Level(s) {
        UpParent(t, s, t.Level(s) - t.Level(a));
      } else if Within(t, s, a) {
        WithinIsDeeper(t, t.Parent(s), a);
      }
    }
  }

  lemma {:induction false} UpWithin(t: Tree, s: StateId, k: nat)
    requires k <= t.Level(s)
    ensures Within(t, s, Up(t, s, k))
  {
    UpLevel(t, s, k);
    WithinIsUp(t, s, Up(t, s, k));
  }

  /** One exit more at the upper end of a chain of exits. */
  lemma {:induction false} ExitStepsSnoc(t: Tree, s: StateId, a: StateId)
    requires Within(t, s, a) && a != HSM_TOP
    ensures Within(t, s, t.Parent(a))
    ensures ExitSteps(t, s, t.Parent(a)) == ExitSteps(t, s, a) + [Exit(a)]
    decreases t.Level(s)
  {
    if s != a {
      ExitStepsSnoc(t, t.Parent(s), a);
      WithinIsDeeper(t, s, a);
      assert s != t.Parent(a);
      assert ExitSteps(t, s, t.Parent(a)) == [Exit(s)] + ExitSteps(t, t.Parent(s), t.Parent(a));
    } else {
      assert Within(t, t.Parent(a), t.Parent(a));
      assert ExitSteps(t, s, t.Parent(a)) == [Exit(a)] + ExitSteps(t, t.Parent(s), t.Parent(a));
    }
  }

  lemma {:induction false} ExitStepsAppend(t: Tree, s: StateId, m: StateId, a: StateId)
    requires Within(t, s, m) && Within(t, m, a)
    ensures Within(t, s, a)
    ensures ExitSteps(t, s, a) == ExitSteps(t, s, m) + ExitSteps(t, m, a)
    decreases t.Level(m)
  {
    WithinTrans(t, s, m, a);
    if m != a {
      var p := t.Parent(m);
      ExitStepsSnoc(t, s, m);
      ExitStepsAppend(t, s, p, a);
      assert ExitSteps(t, m, a) == [Exit(m)] + ExitSteps(t, p, a);
    }
  }

  /** Entering from just below the k-th ancestor: one entry more at the upper end. */
  lemma {:induction false} EntryStepsCons(t: Tree, s: StateId, k: nat)
    requires k < t.Level(s)
    ensures Within(t, s, Up(t, s, k)) && Within(t, s, Up(t, s, k + 1))
    ensures EntrySteps(t, Up(t, s, k + 1), s) == [Enter(Up(t, s, k))] + EntrySteps(t, Up(t, s, k), s)
    decreases k
  {
    UpWithin(t, s, k);
    UpWithin(t, s, k + 1);
    UpLevel(t, s, k);
    UpLevel(t, s, k + 1);
    if k > 0 {
      UpParent(t, s, k);
      UpParent(t, s, k + 1);
      EntryStepsCons(t, t.Parent(s), k - 1);
    } else {
      assert Up(t, s, 1) == t.Parent(Up(t, s, 0)) == t.Parent(s);
      assert EntrySteps(t, t.Parent(s), t.Parent(s)) == [];
    }
  }

  lemma {:induction false} EntryStepsSelf(t: Tree, s: StateId)
    ensures Within(t, s, s) && Up(t, s, 0) == s && EntrySteps(t, s, s) == []
  {
  }

  lemma {:induction false} UpStep(t: Tree, s: StateId, k: nat)
    requires k < t.Level(s)
    ensures Up(t, s, 0) == s && Up(t, s, k + 1) == t.Parent(Up(t, s, k))
    ensures t.Level(Up(t, s, k)) == t.Level(s) - k && Up(t, s, k) != HSM_TOP
    ensures t.Level(Up(t, s, k + 1)) == t.Level(s) - k - 1
  {
    UpLevel(t, s, k);
  }

  /** The rows of the case split: up to where the source is exited, and how much is entered. */
  lemma {:induction false} CaseTable(t: Tree, source: StateId, target: StateId)
    requires source != HSM_TOP && target != HSM_TOP
    ensures Within(t, source, t.Parent(source)) && Within(t, source, source)
    ensures ExitSteps(t, source, t.Parent(source)) == [Exit(source)] && ExitSteps(t, source, source) == []
    ensures t.Level(t.Parent(source)) == t.Level(source) - 1
    ensures t.Level(TranLca(t, source, target)) <= t.Level(target)
    // (A), (B), (C), (D)
    ensures source == target ==> TranLca(t, source, target) == t.Parent(source)
    ensures source == t.Parent(target) ==> TranLca(t, source, target) == source && t.Level(target) == t.Level(source) + 1
    ensures source != target && t.Parent(source) == t.Parent(target) ==>
              TranLca(t, source, target) == t.Parent(source) && t.Level(target) == t.Level(source)
    ensures t.Parent(source) == target ==> TranLca(t, source, target) == target
    // (E), (F), (G)
    ensures source != target && Within(t, target, source) ==> TranLca(t, source, target) == source
    ensures !Within(t, target, source) ==> TranLca(t, source, target) == Lca(t, t.Parent(source), target)
    ensures !Within(t, target, source) && Within(t, target, t.Parent(source)) ==>
              TranLca(t, source, target) == t.Parent(source)
  {
    var p := t.Parent(source);
    assert Within(t, p, p);
    assert ExitSteps(t, p, p) == [];
    TranLcaContains(t, source, target);
    WithinIsDeeper(t, target, TranLca(t, source, target));
    if source != target {
      if Within(t, target, source) { WithinIsDeeper(t, target, source); }
      if t.Parent(target) == source { assert Within(t, target, source); }
      if p == t.Parent(target) { assert Within(t, target, p) && !Within(t, target, source); }
      if p == target { assert Within(t, target, p) && !Within(t, target, source); }
      if !Within(t, target, source) { assert Lca(t, source, target) == Lca(t, p, target); }
      if Within(t, target, p) { assert Lca(t, p, target) == p; }
    }
  }

  lemma {:induction false} ExitStepsFirst(t: Tree, s: StateId, a: StateId)
    requires s != HSM_TOP && Within(t, t.Parent(s), a)
    ensures Within(t, s, a) && ExitSteps(t, s, a) == [Exit(s)] + ExitSteps(t, t.Parent(s), a)
  {
    WithinIsDeeper(t, t.Parent(s), a);
  }

  /** One step of the INIT drill. */
  lemma {:induction false} InitUnfold(t: Tree, h: Handlers, s: StateId)
    ensures Drills(t, h, s) ==>
              var d := Ask(t, h, s, Init).temp.value;
              && Within(t, d, s) && d != s && t.Level(s) < t.Level(d)
              && InitLeaf(t, h, s) == InitLeaf(t, h, d)
              && InitSteps(t, h, s) == EntrySteps(t, s, d) + InitSteps(t, h, d)
    ensures !Drills(t, h, s) ==> InitLeaf(t, h, s) == s && InitSteps(t, h, s) == []
  {
    if Drills(t, h, s) {
      WithinIsDeeper(t, Ask(t, h, s, Init).temp.value, s);
    }
  }

  lemma {:induction false} TopHasNoParent(t: Tree)
    ensures t.Parent(HSM_TOP) == HSM_TOP
  {
  }

  lemma {:induction false} PathStep(t: Tree, from: StateId, e: StateId, left: nat)
    ensures Path(t, from, e, left) == if t.Parent(e) == from || left == 0 then [e] else [e] + Path(t, from, t.Parent(e), left - 1)
  {
  }

  /** The entries of p[k..] have led from `start` and `before` to `temp` and `log`. */
  ghost predicate EnteredFrom(t: Tree, h: Handlers, p: seq<StateId>, k: nat, start: StateId, before: seq<Action>,
      temp: StateId, log: seq<Action>)
  {
    k <= |p| && log == before + Entered(p[k..]) && temp == TempAfter(t, h, p[k..], start)
  }

  lemma {:induction false} EnteredStart(t: Tree, h: Handlers, p: seq<StateId>, start: StateId, before: seq<Action>)
    ensures EnteredFrom(t, h, p, |p|, start, before, start, before)
  {
    assert p[|p|..] == [] && before + [] == before;
  }

  lemma {:induction false} EnteredOne(t: Tree, h: Handlers, p: seq<StateId>, k: nat, start: StateId, before: seq<Action>,
      temp: StateId, log: seq<Action>)
    requires k < |p| && EnteredFrom(t, h, p, k + 1, start, before, temp, log)
    ensures var reply := if p[k] == HSM_TOP then None else Ask(t, h, p[k], Entry).temp;
            EnteredFrom(t, h, p, k, start, before, if reply.Some? then reply.value else temp, log + [Enter(p[k])])
  {
    hide Ask;
    assert p[k..][1..] == p[k + 1..];
    assert (before + Entered(p[k + 1..])) + [Enter(p[k])] == before + (Entered(p[k + 1..]) + [Enter(p[k])]);
  }

  lemma {:induction false} EnteredAll(t: Tree, h: Handlers, p: seq<StateId>, start: StateId, before: seq<Action>,
      temp: StateId, log: seq<Action>)
    requires EnteredFrom(t, h, p, 0, start, before, temp, log)
    ensures log == before + Entered(p) && temp == TempAfter(t, h, p, start)
  {
    assert p[0..] == p;
  }

  lemma {:induction false} StartLeafUnfold(t: Tree, h: Handlers, from: StateId, d: StateId)
    requires Within(t, d, from) && StartLeaf(t, h, from, d).Some?
    ensures var leaf, reply := StartLeaf(t, h, from, d), InitReply(t, h, EntryTemp(t, h, from, d, d));
            if reply.None? then leaf == Some(d)
            else reply.value != d && Within(t, reply.value, d) && t.Level(d) < t.Level(reply.value) && leaf == StartLeaf(t, h, d, reply.value)
  {
    hide EntryTemp, InitReply;
    var reply := InitReply(t, h, EntryTemp(t, h, from, d, d));
    if reply.Some? && Within(t, reply.value, d) { WithinIsDeeper(t, reply.value, d); }
  }

  lemma {:induction false} NothingActive(t: Tree)
    ensures Config(t, HSM_TOP) == []
  {
  }

  class Hsm {
    const tree: Tree
    var state: StateId
    var temp: StateId
    ghost var log: seq<Action>

    /** Between events `state` and `temp` agree and the log accounts for the active states. */
    ghost predicate Stable()
      reads this
    {
      && state == temp
      && Replay(tree, [], log) == Some(Config(tree, state))
    }

    /** `target` is where the initial pseudo-state transitions to. */
    constructor (tree: Tree, target: StateId)
      ensures this.tree == tree && state == HSM_TOP && temp == target && log == []
    {
      this.tree := tree;
      state, temp := HSM_TOP, target;
      log := [];
    }

    /** Calls one state handler; Hsm_top answers IGNORED and touches nothing. */
    method Invoke(h: Handlers, s: StateId, sig: Signal) returns (ret: Ret)
      modifies this`temp, this`log
      ensures s == HSM_TOP ==> ret == Ignored && temp == old(temp)
      ensures s != HSM_TOP ==> ret == Ask(tree, h, s, sig).ret
      ensures s != HSM_TOP ==> temp == (if Ask(tree, h, s, sig).temp.Some? then Ask(tree, h, s, sig).temp.value else old(temp))
      ensures log == old(log) + (if sig == Entry then [Enter(s)] else if sig == Leave then [Exit(s)] else [])
    {
      if sig == Entry {
        log := log + [Enter(s)];
      } else if sig == Leave {
        log := log + [Exit(s)];
      }
      if s == HSM_TOP {
        ret := Ignored;
      } else {
        var reply := Ask(tree, h, s, sig);
        ret := reply.ret;
        if reply.temp.Some? {
          temp := reply.temp.value;
        }
      }
    }

    /** EMPTY: leaves the superstate in `temp`. */
    method AskSuper(h: Handlers, s: StateId) returns (ret: Ret)
      requires Obeys(tree, h)
      modifies this`temp, this`log
      ensures log == old(log)
      ensures s == HSM_TOP ==> ret == Ignored && temp == old(temp)
      ensures s != HSM_TOP ==> ret == Super && temp == tree.Parent(s)
    {
      assert s != HSM_TOP ==> ObeysAt(tree, h, s);
      ret := Invoke(h, s, Empty);
    }

    /** Offers the event to `temp` and its superstates until one answers. */
    method Bubble(h: Handlers, e: Signal) returns (ret: Ret, source: StateId)
      requires Obeys(tree, h) && IsEvent(e)
      modifies this`temp, this`log
      ensures log == old(log)
      ensures var v := Answer(tree, h, old(temp), e);
              ret == v.ret && source == v.source && (ret == Tran ==> temp == v.target && temp != HSM_TOP)
    {
      ret := Super;
      source := temp;
      while ret == Super
        invariant log == old(log)
        invariant ret == Super ==> Answer(tree, h, temp, e) == Answer(tree, h, old(temp), e)
        invariant ret != Super ==>
                    var v := Answer(tree, h, old(temp), e);
                    ret == v.ret && source == v.source && (ret == Tran ==> temp == v.target && temp != HSM_TOP)
        decreases ret == Super, tree.Level(temp)
      {
        source := temp;
        assert source != HSM_TOP ==> ObeysAt(tree, h, source);
        assert e.User? && source != HSM_TOP ==> AnswersEvent(tree, h, source, e);
        ret := Invoke(h, source, e);
        if ret == Unhandled {
          ret := Invoke(h, source, Empty);
        }
      }
    }

    /** Exits the current state and its superstates up to the state that answered. */
    method ExitUpTo(h: Handlers, cur: StateId, source: StateId)
      requires Obeys(tree, h) && Within(tree, cur, source)
      modifies this`temp, this`log
      ensures log == old(log) + ExitSteps(tree, cur, source)
    {
      var target := cur;
      while target != source
        invariant Within(tree, cur, target) && Within(tree, target, source)
        invariant log == old(log) + ExitSteps(tree, cur, target)
        decreases tree.Level(target)
      {
        assert target != HSM_TOP && ObeysAt(tree, h, target);
        ExitStepsSnoc(tree, cur, target);
        var ret := Invoke(h, target, Leave);
        if ret == Handled {
          ret := Invoke(h, target, Empty);
        }
        target := temp;
      }
    }

    /** Where `x` sits in path[0..index], searching downwards from `index`; -1 if nowhere. */
    method FindInPath(path: array<StateId>, index: int, x: StateId) returns (at: int)
      requires 0 <= index < path.Length
      ensures -1 <= at <= index
      ensures at >= 0 ==> path[at] == x
      ensures at == -1 ==> forall j :: 0 <= j <= index ==> path[j] != x
    {
      at := index;
      while at >= 0 && x != path[at]
        invariant -1 <= at <= index
        invariant forall j :: at < j <= index ==> path[j] != x
      {
        at := at - 1;
      }
    }

    /** Does path[0..index] hold the superstates of its first entry, in order? */
    ghost predicate Climbs(path: array<StateId>, index: int)
      reads path
    {
      && 0 < path.Length && index < path.Length
      && path[0] != HSM_TOP
      && index <= tree.Level(path[0])
      && forall j: nat :: j <= index ==> path[j] == Up(tree, path[0], j)
    }

    /** A complete path, up to Hsm_top, holds exactly the states that contain its first entry. */
    lemma {:induction false} FullPathHolds(path: array<StateId>, index: int, x: StateId, at: int)
      requires Climbs(path, index) && index == tree.Level(path[0])
      requires -1 <= at <= index
      requires at >= 0 ==> path[at] == x
      requires at == -1 ==> forall j :: 0 <= j <= index ==> path[j] != x
      ensures at >= 0 ==> Within(tree, path[0], x) && at == tree.Level(path[0]) - tree.Level(x)
      ensures at == -1 ==> !Within(tree, path[0], x)
    {
      var tgt := path[0];
      WithinIsUp(tree, tgt, x);
      if at >= 0 {
        UpLevel(tree, tgt, at);
        UpWithin(tree, tgt, at);
      }
    }

    /** Case (E): stores the superstates of the target until the source or Hsm_top is reached. */
    method ClimbFromTarget(h: Handlers, source: StateId, path: array<StateId>) returns (index: int, found: bool)
      requires Obeys(tree, h) && path.Length == HSM_MAX_NEST_DEPTH && path[0] != HSM_TOP
      requires source != HSM_TOP && source != path[0] && source != tree.Parent(path[0])
      modifies this`temp, this`log, path
      ensures Climbs(path, index) && path[0] == old(path[0])
      ensures found ==> Within(tree, path[0], source) && index + 1 == tree.Level(path[0]) - tree.Level(source)
      ensures !found ==> index == tree.Level(path[0]) && !Within(tree, path[0], source)
      ensures log == old(log)
    {
      hide Within, Up;
      ghost var tgt := path[0];
      UpStep(tree, tgt, 0);
      index, found := 1, false;
      path[1] := tree.Parent(path[0]);
      var ret := AskSuper(h, path[1]);
      while ret == Super
        invariant path[0] == tgt && Climbs(path, index) && 0 <= index && log == old(log)
        invariant !found ==> forall j :: 0 <= j <= index ==> path[j] != source
        invariant !found ==> (ret == Super <==> path[index] != HSM_TOP)
        invariant ret == Super ==> !found && temp == tree.Parent(path[index])
        invariant found ==> index + 1 <= tree.Level(tgt) && Up(tree, tgt, index + 1) == source
        decreases ret == Super, tree.Level(tgt) - index
      {
        UpLevel(tree, tgt, index);
        UpStep(tree, tgt, index);
        index := index + 1;
        path[index] := temp;
        if temp == source {
          found := true;
          index := index - 1;
          ret := Handled;
        } else {
          ret := AskSuper(h, temp);
        }
      }
      if found {
        UpLevel(tree, tgt, index + 1);
        UpWithin(tree, tgt, index + 1);
      } else {
        UpLevel(tree, tgt, index);
        FullPathHolds(path, index, source, -1);
      }
    }

    /** Case (G): exits superstates of the source until one of them lies on the complete path. */
    method ExitUntilOnPath(h: Handlers, source: StateId, first: StateId, path: array<StateId>, full: int)
      returns (index: int)
      requires Obeys(tree, h) && Climbs(path, full) && full == tree.Level(path[0])
      requires Within(tree, source, first) && !Within(tree, path[0], first)
      requires TranLca(tree, source, path[0]) == Lca(tree, first, path[0])
      modifies this`temp, this`log
      ensures var lca := TranLca(tree, source, path[0]);
              && -1 <= index && index + 1 == tree.Level(path[0]) - tree.Level(lca)
              && Within(tree, source, lca) && Within(tree, source, first) && Within(tree, first, lca)
              && log == old(log) + ExitSteps(tree, first, lca)
    {
      var target := first;
      index := full;
      var found := false;
      while !found
        invariant Within(tree, source, target) && Within(tree, first, target)
        invariant log == old(log) + ExitSteps(tree, first, target)
        invariant !found ==> !Within(tree, path[0], target) && index == full
        invariant TranLca(tree, source, path[0]) == Lca(tree, target, path[0])
        invariant found ==> Within(tree, path[0], target)
        invariant found ==> -1 <= index && index + 1 == tree.Level(path[0]) - tree.Level(target)
        decreases !found, tree.Level(target)
      {
        WithinTop(tree, path[0]);
        assert target != HSM_TOP && ObeysAt(tree, h, target);
        ExitStepsSnoc(tree, first, target);
        ExitStepsSnoc(tree, source, target);
        var ret := Invoke(h, target, Leave);
        if ret == Handled {
          ret := AskSuper(h, target);
        }
        target := temp;
        var at := FindInPath(path, full, target);
        FullPathHolds(path, full, target, at);
        if at >= 0 {
          index := at - 1;
          found := true;
        }
      }
    }

    /** Cases (A) to (G): exits from the source up to the LCA and leaves the entry path in path[0..index]. */
    method ResolvePath(h: Handlers, source: StateId, path: array<StateId>) returns (index: int)
      requires Obeys(tree, h) && path.Length == HSM_MAX_NEST_DEPTH
      requires source != HSM_TOP && path[0] != HSM_TOP
      modifies this`temp, this`log, path
      ensures path[0] == old(path[0]) && Climbs(path, index)
      ensures var lca := TranLca(tree, source, path[0]);
              && -1 <= index && index + 1 == tree.Level(path[0]) - tree.Level(lca)
              && Within(tree, source, lca)
              && log == old(log) + ExitSteps(tree, source, lca)
    {
      hide Within, ExitSteps, Lca, TranLca, Up, RawTree.Parent, RawTree.Level;
      var target := path[0];
      var superOfSource: StateId;
      CaseTable(tree, source, path[0]);
      EntryStepsSelf(tree, path[0]);
      if source == target {  // (A) transition to self
        var ret := Invoke(h, source, Leave);
        return 0;
      }
      var ret := AskSuper(h, target);
      target := temp;
      if source == target {  // (B) the target is a child of the source
        assert [] + old(log) == old(log);
        return 0;
      }
      ret := AskSuper(h, source);
      superOfSource := temp;
      if superOfSource == target {  // (C) siblings
        ret := Invoke(h, source, Leave);
        return 0;
      }
      if superOfSource == path[0] {  // (D) the source is a child of the target
        ret := Invoke(h, source, Leave);
        return -1;
      }
      var found: bool;
      index, found := ClimbFromTarget(h, source, path);  // (E)
      if !found {
        ret := Invoke(h, source, Leave);
        var at := FindInPath(path, index, superOfSource);  // (F)
        FullPathHolds(path, index, superOfSource, at);
        if at >= 0 {
          index := at - 1;
        } else {  // (G)
          index := ExitUntilOnPath(h, source, superOfSource, path, index);
          ExitStepsFirst(tree, source, TranLca(tree, source, path[0]));
        }
      }
    }

    /** Enters path[index], ..., path[0]. */
    method EnterPath(h: Handlers, path: array<StateId>, from: int)
      requires Climbs(path, from) && -1 <= from < tree.Level(path[0])
      modifies this`temp, this`log
      ensures Within(tree, path[0], Up(tree, path[0], from + 1))
      ensures log == old(log) + EntrySteps(tree, Up(tree, path[0], from + 1), path[0])
    {
      hide Within, EntrySteps, Up;
      var index := from;
      UpWithin(tree, path[0], from + 1);
      ghost var entered: seq<Action> := [];
      while index >= 0
        invariant -1 <= index <= from
        invariant Within(tree, path[0], Up(tree, path[0], index + 1))
        invariant log == old(log) + entered
        invariant entered + EntrySteps(tree, Up(tree, path[0], index + 1), path[0])
               == EntrySteps(tree, Up(tree, path[0], from + 1), path[0])
      {
        EntryStepsCons(tree, path[0], index);
        entered := entered + [Enter(path[index])];
        var ret := Invoke(h, path[index], Entry);
        index := index - 1;
      }
      EntryStepsSelf(tree, path[0]);
      assert entered + [] == entered;
    }

    /** The path from `temp` up to, but excluding, `target`; `temp` is restored. */
    method ClimbTo(h: Handlers, target: StateId, path: array<StateId>) returns (index: int)
      requires Obeys(tree, h) && path.Length == HSM_MAX_NEST_DEPTH
      requires temp != target && Within(tree, temp, target)
      modifies this`temp, this`log, path
      ensures log == old(log) && temp == old(temp) && path[0] == temp
      ensures Climbs(path, index) && 0 <= index < tree.Level(path[0])
      ensures Up(tree, path[0], index + 1) == target
    {
      ghost var tgt := temp;
      index := 0;
      path[0] := temp;
      var ret := AskSuper(h, temp);
      while temp != target
        invariant log == old(log) && path[0] == tgt
        invariant Climbs(path, index) && 0 <= index < tree.Level(tgt)
        invariant temp == Up(tree, tgt, index + 1) && Within(tree, temp, target)
        decreases tree.Level(temp)
      {
        UpLevel(tree, tgt, index + 1);
        index := index + 1;
        path[index] := temp;
        ret := AskSuper(h, temp);
      }
      temp := path[0];
    }

    /** INIT of `from`, of the state it leads to, and so on: returns the final state. */
    method Drill(h: Handlers, from: StateId) returns (target: StateId)
      requires Obeys(tree, h) && from != HSM_TOP
      modifies this`temp, this`log
      ensures target == InitLeaf(tree, h, from)
      ensures log == old(log) + InitSteps(tree, h, from)
    {
      hide Within, ExitSteps, EntrySteps, InitSteps, InitLeaf, Up;
      var path := new StateId[HSM_MAX_NEST_DEPTH];
      target := from;
      InitUnfold(tree, h, target);
      assert ObeysAt(tree, h, target);
      var ret := Invoke(h, target, Init);
      while ret == Tran
        invariant target != HSM_TOP
        invariant ret == Tran <==> Drills(tree, h, target)
        invariant ret == Tran ==> temp == Ask(tree, h, target, Init).temp.value
        invariant InitLeaf(tree, h, target) == InitLeaf(tree, h, from)
        invariant log + InitSteps(tree, h, target) == old(log) + InitSteps(tree, h, from)
        decreases ret == Tran, HSM_MAX_NEST_DEPTH - tree.Level(target)
      {
        InitUnfold(tree, h, target);
        var index := ClimbTo(h, target, path);
        EnterPath(h, path, index);
        InitUnfold(tree, h, path[0]);
        target := path[0];
        assert ObeysAt(tree, h, target);
        ret := Invoke(h, target, Init);
      }
      InitUnfold(tree, h, target);
      assert log + [] == log;
    }

    /** The transition to `temp` that `source` answered while `cur` was active. */
    method TakeTransition(h: Handlers, cur: StateId, source: StateId) returns (target: StateId)
      requires Obeys(tree, h) && temp != HSM_TOP && source != HSM_TOP && Within(tree, cur, source)
      modifies this`temp, this`log
      ensures target == InitLeaf(tree, h, old(temp))
      ensures log == old(log) + MoveSteps(tree, cur, source, old(temp)) + InitSteps(tree, h, old(temp))
    {
      hide Within, ExitSteps, EntrySteps, InitSteps, InitLeaf, Lca, Config, Replay, Answer, Up;
      ghost var goal, before := temp, log;
      ghost var lca := TranLca(tree, source, goal);
      TranLcaContains(tree, source, goal);
      WithinIsUp(tree, goal, lca);
      WithinIsDeeper(tree, goal, lca);
      ExitStepsAppend(tree, cur, source, lca);
      var path := new StateId[HSM_MAX_NEST_DEPTH];
      path[0] := temp;
      ExitUpTo(h, cur, source);
      var index := ResolvePath(h, source, path);
      assert log == before + ExitSteps(tree, cur, lca);
      EnterPath(h, path, index);
      assert log == before + MoveSteps(tree, cur, source, goal);
      target := path[0];
      temp := target;
      target := Drill(h, target);
    }

    /** Processes one event hierarchically. */
    method HandleEvent(h: Handlers, e: Signal)
      requires Obeys(tree, h) && IsEvent(e) && state == temp
      modifies this
      ensures state == temp == Dispatch(tree, h, old(state), e).state
      ensures log == old(log) + Dispatch(tree, h, old(state), e).steps
      ensures old(Stable()) ==> Stable()
    {
      hide Within, ExitSteps, EntrySteps, InitSteps, InitLeaf, Lca, Config, Replay, Answer, Up;
      var target := state;
      ghost var before := log;
      var ret, source := Bubble(h, e);
      AnswerIsAncestor(tree, h, state, e);
      if ret == Tran {
        target := TakeTransition(h, target, source);
      }
      state := target;
      temp := target;
      ReplayDispatch(tree, h, old(state), e);
      assert log == before + Dispatch(tree, h, old(state), e).steps;
      if Replay(tree, [], before).Some? {
        ReplayAppend(tree, [], before, Dispatch(tree, h, old(state), e).steps);
      }
    }

    /** The path from `temp` up to below `target`, or as far as it fits; `temp` is restored. */
    method StartPath(h: Handlers, target: StateId, path: array<StateId>) returns (index: int)
      requires Obeys(tree, h) && path.Length == HSM_MAX_NEST_DEPTH
      modifies this`temp, this`log, path
      ensures 0 <= index < HSM_MAX_NEST_DEPTH && log == old(log) && temp == path[0] == old(temp)
      ensures path[..index + 1] == Path(tree, target, temp, HSM_MAX_NEST_DEPTH - 1)
    {
      hide Path, RawTree.Parent;
      index := 0;
      path[0] := temp;
      ghost var whole := Path(tree, target, temp, HSM_MAX_NEST_DEPTH - 1);
      TopHasNoParent(tree);
      var ret := AskSuper(h, temp);
      while temp != target && index < HSM_MAX_NEST_DEPTH - 1
        invariant 0 <= index < HSM_MAX_NEST_DEPTH && path[0] == old(temp) && log == old(log)
        invariant temp == tree.Parent(path[index])
        invariant whole == path[..index] + Path(tree, target, path[index], HSM_MAX_NEST_DEPTH - 1 - index)
        decreases HSM_MAX_NEST_DEPTH - index
      {
        PathStep(tree, target, path[index], HSM_MAX_NEST_DEPTH - 1 - index);
        index := index + 1;
        path[index] := temp;
        assert path[..index] == path[..index - 1] + [path[index - 1]];
        TopHasNoParent(tree);
        ret := AskSuper(h, temp);
      }
      PathStep(tree, target, path[index], HSM_MAX_NEST_DEPTH - 1 - index);
      assert whole == path[..index] + [path[index]];
      temp := path[0];
    }

    /** ENTRY from the last entry of the path to the first; `temp` ends up as the handlers leave it. */
    method StartEntries(h: Handlers, path: array<StateId>, from: int)
      requires 0 <= from < path.Length
      modifies this`temp, this`log
      ensures log == old(log) + Entered(path[..from + 1])
      ensures temp == TempAfter(tree, h, path[..from + 1], old(temp))
    {
      hide Ask, Entered, TempAfter, EnteredFrom;
      ghost var p, start, before := path[..from + 1], temp, log;
      var index := from;
      EnteredStart(tree, h, p, start, before);
      while index >= 0
        invariant -1 <= index <= from
        invariant EnteredFrom(tree, h, p, index + 1, start, before, temp, log)
      {
        EnteredOne(tree, h, p, index, start, before, temp, log);
        var ret := Invoke(h, path[index], Entry);
        index := index - 1;
      }
      EnteredAll(tree, h, p, start, before, temp, log);
    }

    /** One turn of start-up: the path from `temp`, its entries, and INIT of whatever `temp` names then. */
    method StartTurn(h: Handlers, target: StateId) returns (next: StateId, ended: bool)
      requires Obeys(tree, h)
      modifies this`temp, this`log
      ensures var s := Turn(tree, h, Starting(target, old(temp), old(log), false));
              next == s.target && ended == s.ended && log == s.log && (!ended ==> temp == s.temp)
    {
      hide Path, Entered, TempAfter;
      var path := new StateId[HSM_MAX_NEST_DEPTH];
      var index := StartPath(h, target, path);
      StartEntries(h, path, index);
      next := path[0];
      var ret := Invoke(h, temp, Init);
      ended := ret != Tran;
    }

    /**
     Start-up: enters the target of the initial pseudo-state, then follows INIT of the states that
     `temp` names. It ends when these lead down (StartUp says what happens when they do not), and
     is the start-up of StateTree when they lead where INIT of the entered states would.
     */
    method Start(h: Handlers)
      requires Obeys(tree, h) && state == HSM_TOP && temp != HSM_TOP && log == []
      requires FinalState(tree, h, temp).Some?
      modifies this
      ensures state == temp == FinalState(tree, h, old(temp)).value && log == EntrySteps(tree, HSM_TOP, state)
      ensures StartsAsIntended(tree, h, old(temp)) ==>
                state == Boot(tree, h, old(temp)).state && log == Boot(tree, h, old(temp)).steps
      ensures Stable()
    {
      hide Within, EntrySteps, InitSteps, InitLeaf, Config, Replay, StartLeaf, EntryTemp, InitReply, Turn;
      ghost var leaf := FinalState(tree, h, temp).value;
      WithinTop(tree, temp);
      BootIsEntries(tree, h, temp);
      var target := state;
      var ended := false;
      while !ended
        invariant ended ==> target == leaf && log == EntrySteps(tree, HSM_TOP, leaf)
        invariant !ended ==> temp != target && Within(tree, temp, target) && Within(tree, leaf, target)
        invariant !ended ==> StartLeaf(tree, h, target, temp) == Some(leaf)
        invariant !ended ==> log + EntrySteps(tree, target, leaf) == EntrySteps(tree, HSM_TOP, leaf)
        decreases !ended, HSM_MAX_NEST_DEPTH - tree.Level(temp)
      {
        ghost var s := Starting(target, temp, log, false);
        TurnDown(tree, h, s);
        StartLeafUnfold(tree, h, target, temp);
        target, ended := StartTurn(h, target);
        if !ended { Descends(tree, h, s, temp); }
      }
      state := target;
      temp := target;
      ReplayEntries(tree, HSM_TOP, leaf);
      NothingActive(tree);
    }

    /** start() followed by the handling of a sequence of events is a run of the specification. */
    method Serve(boot: Handlers, events: seq<Occurrence>)
      requires Obeys(tree, boot) && state == HSM_TOP && temp != HSM_TOP && log == []
      requires FinalState(tree, boot, temp).Some?
      requires forall k :: 0 <= k < |events| ==> Obeys(tree, events[k].h) && IsEvent(events[k].e)
      modifies this
      ensures Stable()
      ensures StartsAsIntended(tree, boot, old(temp)) ==>
                state == Run(tree, boot, old(temp), events).state && log == Run(tree, boot, old(temp), events).steps
    {
      hide Boot, FinalState, EntrySteps, Dispatch, StartsAsIntended, Config, Replay;
      ghost var target := temp;
      Start(boot);
      ghost var start := Next(state, log);
      var n := 0;
      while n < |events|
        invariant 0 <= n <= |events| && Stable()
        invariant state == After(tree, start, events[..n]).state && log == After(tree, start, events[..n]).steps
      {
        assert events[..n + 1][..n] == events[..n];
        HandleEvent(events[n].h, events[n].e);
        n := n + 1;
      }
      assert events[..n] == events;
    }
  }
}
