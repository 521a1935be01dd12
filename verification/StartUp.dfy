/**
 The start-up of src/events/HSM.h as it is coded: after the entries, INIT goes to whatever state
 `temp` names by then. When that is the start-up of StateTree, and what happens otherwise.
 */
module StartUp {
  import opened Wrappers
  import opened StateTree

  // -------------------------------------------------------------- the condition

  /** What `temp` names after the entries from below `a` down to `s`: the last one an ENTRY handler assigned, or `d`. */
  function EntryTemp(t: Tree, h: Handlers, a: StateId, s: StateId, d: StateId): StateId
    requires Within(t, s, a)
    decreases t.Level(s)
  {
    if s == a then d
    else
      match Ask(t, h, s, Entry).temp
      case Some(x) => x
      case None => EntryTemp(t, h, a, t.Parent(s), d)
  }

  /** Where INIT of `s` transitions to, if it does. */
  function InitReply(t: Tree, h: Handlers, s: StateId): Option<StateId> {
    if s == HSM_TOP || Ask(t, h, s, Init).ret != Tran then None
    else Some(if Ask(t, h, s, Init).temp.Some? then Ask(t, h, s, Init).temp.value else s)
  }

  /** The state that start-up ends in after it went from `from` down to `d`; None once it would not go down. */
  function StartLeaf(t: Tree, h: Handlers, from: StateId, d: StateId): (leaf: Option<StateId>)
    requires Within(t, d, from)
    ensures leaf.Some? ==> Within(t, leaf.value, d)
    decreases HSM_MAX_NEST_DEPTH - t.Level(d)
  {
    match InitReply(t, h, EntryTemp(t, h, from, d, d))
    case None => Some(d)
    case Some(e) =>
      if e == d || !Within(t, e, d) then None
      else
        WithinIsDeeper(t, e, d);
        var leaf := StartLeaf(t, h, d, e);
        if leaf.Some? then WithinTrans(t, leaf.value, e, d); leaf else None
  }

  function FinalState(t: Tree, h: Handlers, target: StateId): (leaf: Option<StateId>)
    ensures leaf.Some? ==> Within(t, leaf.value, HSM_TOP)
  {
    WithinTop(t, target);
    var leaf := StartLeaf(t, h, HSM_TOP, target);
    if leaf.Some? then WithinTop(t, leaf.value); leaf else None
  }

  /** Start-up ends where INIT of the initial target leads. */
  predicate StartsAsIntended(t: Tree, h: Handlers, target: StateId) {
    FinalState(t, h, target) == Some(InitLeaf(t, h, target))
  }

  // ------------------------------------------------------- start-up, turn by turn

  /** statePath: from `e` up to below `from`, but at most HSM_MAX_NEST_DEPTH states. */
  function Path(t: Tree, from: StateId, e: StateId, left: nat): seq<StateId>
    decreases left
  {
    [e] + if t.Parent(e) == from || left == 0 then [] else Path(t, from, t.Parent(e), left - 1)
  }

  /** ENTRY from the last of the path to the first. */
  function Entered(path: seq<StateId>): seq<Action> {
    if path == [] then [] else Entered(path[1..]) + [Enter(path[0])]
  }

  /** Hsm_top assigns nothing. */
  function TempAfter(t: Tree, h: Handlers, path: seq<StateId>, d: StateId): StateId {
    if path == [] then d
    else if path[0] != HSM_TOP && Ask(t, h, path[0], Entry).temp.Some? then Ask(t, h, path[0], Entry).temp.value
    else TempAfter(t, h, path[1..], d)
  }

  /** Between two turns of the loop: `target` was entered last and `temp` comes next; or start-up has ended in `target`. */
  datatype Starting = Starting(target: StateId, temp: StateId, log: seq<Action>, ended: bool)

  function Turn(t: Tree, h: Handlers, s: Starting): Starting {
    if s.ended then s
    else
      var path := Path(t, s.target, s.temp, HSM_MAX_NEST_DEPTH - 1);
      var log := s.log + Entered(path);
      match InitReply(t, h, TempAfter(t, h, path, s.temp))
      case None => Starting(s.temp, s.temp, log, true)
      case Some(e) => Starting(s.temp, e, log, false)
  }

  function Turns(t: Tree, h: Handlers, s: Starting, n: nat): Starting
    decreases n
  {
    if n == 0 then s else Turns(t, h, Turn(t, h, s), n - 1)
  }

  /** Start-up from scratch has ended in `end` after `n` turns, having logged its steps and no others. */
  predicate Reaches(t: Tree, h: Handlers, target: StateId, n: nat, end: Next) {
    var s := Turns(t, h, Starting(HSM_TOP, target, [], false), n);
    s.ended && s.target == end.state && s.log == end.steps
  }

  // -------------------------------------------------------------------- lemmas

  /** The entries of start-up and its drill are those of the whole chain down to the final state. */
  lemma {:induction false} InitStepsAreEntries(t: Tree, h: Handlers, s: StateId)
    ensures Within(t, InitLeaf(t, h, s), s) && InitSteps(t, h, s) == EntrySteps(t, s, InitLeaf(t, h, s))
    decreases HSM_MAX_NEST_DEPTH - t.Level(s)
  {
    if Drills(t, h, s) {
      var d := Ask(t, h, s, Init).temp.value;
      WithinIsDeeper(t, d, s);
      InitStepsAreEntries(t, h, d);
      EntryStepsAppend(t, s, d, InitLeaf(t, h, d));
    }
  }

  lemma {:induction false} BootIsEntries(t: Tree, h: Handlers, target: StateId)
    ensures Within(t, InitLeaf(t, h, target), HSM_TOP)
    ensures Boot(t, h, target) == Next(InitLeaf(t, h, target), EntrySteps(t, HSM_TOP, InitLeaf(t, h, target)))
  {
    WithinTop(t, target);
    WithinTop(t, InitLeaf(t, h, target));
    InitStepsAreEntries(t, h, target);
    EntryStepsAppend(t, HSM_TOP, target, InitLeaf(t, h, target));
  }

  lemma {:induction false} OneDown(t: Tree, from: StateId, e: StateId)
    requires Within(t, e, from) && e != from
    ensures e != HSM_TOP && Within(t, t.Parent(e), from)
    ensures t.Parent(e) != from ==> t.Level(from) < t.Level(t.Parent(e)) == t.Level(e) - 1
  {
    WithinIsDeeper(t, t.Parent(e), from);
  }

  /** A turn downwards makes just the entries on the way. */
  lemma {:induction false} PathDown(t: Tree, from: StateId, e: StateId, left: nat)
    requires Within(t, e, from) && e != from && t.Level(e) <= t.Level(from) + left + 1
    ensures Entered(Path(t, from, e, left)) == EntrySteps(t, from, e)
    decreases left
  {
    hide Within, RawTree.Level;
    var p := t.Parent(e);
    var path := Path(t, from, e, left);
    OneDown(t, from, e);
    if p == from {
      assert path[1..] == [] && EntrySteps(t, from, p) == [];
    } else {
      PathDown(t, from, p, left - 1);
      assert path[1..] == Path(t, from, p, left - 1);
    }
  }

  lemma {:induction false} TempDown(t: Tree, h: Handlers, from: StateId, e: StateId, left: nat, d: StateId)
    requires Within(t, e, from) && e != from && t.Level(e) <= t.Level(from) + left + 1
    ensures TempAfter(t, h, Path(t, from, e, left), d) == EntryTemp(t, h, from, e, d)
    decreases left
  {
    hide Ask, Within, RawTree.Level;
    var p := t.Parent(e);
    var path := Path(t, from, e, left);
    OneDown(t, from, e);
    if p == from {
      assert path[1..] == [] && EntryTemp(t, h, from, p, d) == d;
    } else {
      TempDown(t, h, from, p, left - 1, d);
      assert path[1..] == Path(t, from, p, left - 1);
    }
  }

  /** A turn that does not go down climbs up to Hsm_top and enters that first. */
  lemma {:induction false} PathElsewhere(t: Tree, from: StateId, e: StateId, left: nat)
    requires from != HSM_TOP && (e == from || !Within(t, e, from)) && t.Level(e) <= left
    ensures Entered(Path(t, from, e, left)) != [] && Entered(Path(t, from, e, left))[0] == Enter(HSM_TOP)
    decreases left
  {
    var p := t.Parent(e);
    var path := Path(t, from, e, left);
    if left == 0 {
      assert path == [e] && path[1..] == [];
    } else {
      if e == from { ParentIsOutside(t, e); }
      assert Within(t, from, from);
      PathElsewhere(t, from, p, left - 1);
      assert path[1..] == Path(t, from, p, left - 1);
    }
  }

  lemma {:induction false} ParentIsOutside(t: Tree, s: StateId)
    requires s != HSM_TOP
    ensures t.Parent(s) != s && !Within(t, t.Parent(s), s)
  {
    if Within(t, t.Parent(s), s) { WithinIsDeeper(t, t.Parent(s), s); }
  }

  lemma {:induction false} TopIsNeverEntered(t: Tree, active: seq<StateId>, log: seq<Action>, more: seq<Action>)
    requires more != [] && more[0] == Enter(HSM_TOP)
    ensures Replay(t, active, log + more) == None
    decreases |more|
  {
    var whole, init := log + more, more[..|more| - 1];
    assert whole[..|whole| - 1] == log + init;
    if init != [] { TopIsNeverEntered(t, active, log, init); }
  }

  lemma {:induction false} ReplayStaysNone(t: Tree, active: seq<StateId>, log: seq<Action>, more: seq<Action>)
    requires Replay(t, active, log) == None
    ensures Replay(t, active, log + more) == None
    decreases |more|
  {
    if more == [] {
      assert log + more == log;
    } else {
      var whole, init := log + more, more[..|more| - 1];
      assert whole[..|whole| - 1] == log + init;
      ReplayStaysNone(t, active, log, init);
    }
  }

  /** An action out of place stays in the log. */
  lemma {:induction false} LostForGood(t: Tree, h: Handlers, s: Starting, n: nat)
    requires Replay(t, [], s.log) == None
    ensures Replay(t, [], Turns(t, h, s, n).log) == None
    decreases n
  {
    hide Path, Entered, TempAfter, InitReply, Replay;
    if n > 0 {
      if !s.ended {
        ReplayStaysNone(t, [], s.log, Entered(Path(t, s.target, s.temp, HSM_MAX_NEST_DEPTH - 1)));
      }
      LostForGood(t, h, Turn(t, h, s), n - 1);
    }
  }

  /** Once the next state is not below the last one, start-up never ends with its actions in place. */
  lemma {:induction false} NotDownIsLost(t: Tree, h: Handlers, s: Starting, n: nat)
    requires !s.ended && s.target != HSM_TOP && (s.temp == s.target || !Within(t, s.temp, s.target))
    ensures var r := Turns(t, h, s, n); r.ended ==> Replay(t, [], r.log) == None
  {
    hide Path, Entered, TempAfter, InitReply, Replay;
    if n > 0 {
      var path := Path(t, s.target, s.temp, HSM_MAX_NEST_DEPTH - 1);
      PathElsewhere(t, s.target, s.temp, HSM_MAX_NEST_DEPTH - 1);
      TopIsNeverEntered(t, [], s.log, Entered(path));
      LostForGood(t, h, Turn(t, h, s), n - 1);
    }
  }

  /** One turn downwards. */
  lemma {:induction false} TurnDown(t: Tree, h: Handlers, s: Starting)
    requires !s.ended && s.temp != s.target && Within(t, s.temp, s.target)
    ensures var d := s.temp; var reply := InitReply(t, h, EntryTemp(t, h, s.target, d, d));
            Turn(t, h, s) == Starting(d, if reply.Some? then reply.value else d, s.log + EntrySteps(t, s.target, d), reply.None?)
  {
    hide Path, Entered, TempAfter, InitReply;
    PathDown(t, s.target, s.temp, HSM_MAX_NEST_DEPTH - 1);
    TempDown(t, h, s.target, s.temp, HSM_MAX_NEST_DEPTH - 1, s.temp);
  }

  /** Where start-up ends, if it does: in StartLeaf with the entries down to it, or out of place. */
  lemma {:induction false} EndsInStartLeaf(t: Tree, h: Handlers, s: Starting, n: nat)
    requires !s.ended && s.temp != s.target && Within(t, s.temp, s.target)
    ensures var leaf, r := StartLeaf(t, h, s.target, s.temp), Turns(t, h, s, n);
            r.ended ==>
              if leaf.None? then Replay(t, [], r.log) == None
              else Within(t, leaf.value, s.target) && r.target == leaf.value && r.log == s.log + EntrySteps(t, s.target, leaf.value)
    decreases n
  {
    hide Turn, InitReply, EntryTemp, Replay, EntrySteps;
    if n > 0 {
      var d, s' := s.temp, Turn(t, h, s);
      TurnDown(t, h, s);
      if s'.ended {
        EndedStays(t, h, s', n - 1);
      } else if s'.temp == d || !Within(t, s'.temp, d) {
        WithinIsDeeper(t, d, s.target);
        NotDownIsLost(t, h, s', n - 1);
      } else {
        EndsInStartLeaf(t, h, s', n - 1);
        Descends(t, h, s, s'.temp);
      }
    }
  }

  lemma {:induction false} EndedStays(t: Tree, h: Handlers, s: Starting, n: nat)
    requires s.ended
    ensures Turns(t, h, s, n) == s
    decreases n
  {
    if n > 0 { EndedStays(t, h, s, n - 1); }
  }

  lemma {:induction false} Descends(t: Tree, h: Handlers, s: Starting, e: StateId)
    requires s.temp != s.target && Within(t, s.temp, s.target) && e != s.temp && Within(t, e, s.temp)
    requires InitReply(t, h, EntryTemp(t, h, s.target, s.temp, s.temp)) == Some(e)
    ensures var leaf := StartLeaf(t, h, s.temp, e);
            && StartLeaf(t, h, s.target, s.temp) == leaf
            && (leaf.Some? ==>
                  && Within(t, leaf.value, s.temp) && Within(t, leaf.value, s.target)
                  && EntrySteps(t, s.target, leaf.value) == EntrySteps(t, s.target, s.temp) + EntrySteps(t, s.temp, leaf.value))
  {
    hide InitReply, EntryTemp, EntrySteps;
    WithinIsDeeper(t, e, s.temp);
    var leaf := StartLeaf(t, h, s.temp, e);
    if leaf.Some? {
      WithinTrans(t, leaf.value, e, s.temp);
      EntryStepsAppend(t, s.target, s.temp, leaf.value);
    }
  }

  /** If there is a StartLeaf, start-up does end. */
  lemma {:induction false} ReachesStartLeaf(t: Tree, h: Handlers, s: Starting) returns (n: nat)
    requires !s.ended && s.temp != s.target && Within(t, s.temp, s.target)
    requires StartLeaf(t, h, s.target, s.temp).Some?
    ensures Turns(t, h, s, n).ended
    decreases HSM_MAX_NEST_DEPTH - t.Level(s.temp)
  {
    hide Turn, InitReply, EntryTemp;
    TurnDown(t, h, s);
    var s' := Turn(t, h, s);
    if s'.ended {
      n := 1;
      EndedStays(t, h, s', 0);
    } else {
      WithinIsDeeper(t, s'.temp, s.temp);
      var m := ReachesStartLeaf(t, h, s');
      n := m + 1;
    }
  }

  // ------------------------------------------------------------------ theorems

  /**
   Start-up reaches the state and the actions of Boot, in whatever number of turns, if and only
   if INIT, sent to the states that `temp` names after the entries, leads down to where INIT of
   the entered states would lead.
   */
  lemma {:induction false} ReachesBootIffStartsAsIntended(t: Tree, h: Handlers, target: StateId)
    requires target != HSM_TOP
    ensures (exists n: nat :: Reaches(t, h, target, n, Boot(t, h, target))) <==> StartsAsIntended(t, h, target)
  {
    hide Boot, StartLeaf, Turns;
    WithinTop(t, target);
    BootIsEntries(t, h, target);
    ReplayBoot(t, h, target);
    var s := Starting(HSM_TOP, target, [], false);
    var leaf, boot := StartLeaf(t, h, HSM_TOP, target), Boot(t, h, target);
    if n: nat :| Reaches(t, h, target, n, boot) {
      EndsInStartLeaf(t, h, s, n);
    }
    if leaf == Some(boot.state) {
      var n := ReachesStartLeaf(t, h, s);
      EndsInStartLeaf(t, h, s, n);
      assert [] + boot.steps == boot.steps;
      assert Reaches(t, h, target, n, boot);
    }
  }

  lemma {:induction false} SilentTemp(t: Tree, h: Handlers, a: StateId, s: StateId, d: StateId)
    requires Within(t, s, a)
    requires forall x: StateId :: x != HSM_TOP && Within(t, s, x) ==> Ask(t, h, x, Entry).temp == None
    ensures EntryTemp(t, h, a, s, d) == d
    decreases t.Level(s)
  {
    hide Ask;
    if s != a {
      assert Within(t, s, s);
      SilentTemp(t, h, a, t.Parent(s), d);
    }
  }

  /** What the last of the entries that assigns to `temp` assigned is what it names. */
  lemma {:induction false} LastAssignmentCounts(t: Tree, h: Handlers, a: StateId, b: StateId, s: StateId, d: StateId, x: StateId)
    requires Within(t, s, b) && Within(t, b, a) && b != a && b != HSM_TOP && Within(t, s, a)
    requires Ask(t, h, b, Entry).temp == Some(x)
    requires forall y: StateId :: Within(t, s, y) && Within(t, y, b) && y != b ==> Ask(t, h, y, Entry).temp == None
    ensures EntryTemp(t, h, a, s, d) == x
    decreases t.Level(s)
  {
    hide Ask;
    if s == a {
      WithinIsDeeper(t, s, b);
      WithinIsDeeper(t, b, a);
    } else if s != b {
      assert Within(t, s, s);
      LastAssignmentCounts(t, h, a, b, t.Parent(s), d, x);
    }
  }

  /** For that it is enough that the ENTRY handlers on the way leave `temp` alone. */
  lemma {:induction false} SilentEntriesSuffice(t: Tree, h: Handlers, from: StateId, d: StateId)
    requires Obeys(t, h) && d != from && Within(t, d, from)
    requires forall s: StateId :: s != HSM_TOP && Within(t, InitLeaf(t, h, d), s) ==> Ask(t, h, s, Entry).temp == None
    ensures StartLeaf(t, h, from, d) == Some(InitLeaf(t, h, d))
    decreases HSM_MAX_NEST_DEPTH - t.Level(d)
  {
    hide Ask;
    InitStepsAreEntries(t, h, d);
    forall s: StateId | s != HSM_TOP && Within(t, d, s) ensures Ask(t, h, s, Entry).temp == None {
      WithinTrans(t, InitLeaf(t, h, d), d, s);
    }
    SilentTemp(t, h, from, d, d);
    assert d != HSM_TOP && ObeysAt(t, h, d);
    if Drills(t, h, d) {
      var e := Ask(t, h, d, Init).temp.value;
      WithinIsDeeper(t, e, d);
      SilentEntriesSuffice(t, h, d, e);
    }
  }

  // ------------------------------------------------------ a state without EV_ENTRY

  /** A composite state and a substate that has no case for EV_ENTRY, where start-up begins. */
  const OUTER: StateId := 1
  const INNER: StateId := 2
  const NESTED := RawTree([HSM_TOP, HSM_TOP, OUTER])

  lemma {:induction false} NestedIsTree()
    ensures NESTED.Valid()
  {
    forall s: StateId ensures NESTED.Level(s) < HSM_MAX_NEST_DEPTH {
      assert NESTED.Level(NESTED.Parent(s)) <= 1;
    }
  }

  /**
   Its default branch names the composite state in `temp`, which INIT then goes to; that leads
   back to the substate, and start-up never ends with its actions in place.
   */
  lemma {:induction false} MissingEntryCaseLosesStartUp(h: Handlers, n: nat)
    requires h == map[(OUTER, Init) := Reply(Tran, Some(INNER)), (INNER, Init) := Reply(Handled, None)]
    ensures NESTED.Valid() && Obeys(NESTED, h)
    ensures !Reaches(NESTED, h, INNER, n, Boot(NESTED, h, INNER))
  {
    NestedIsTree();
    var t: Tree := NESTED;
    assert t.Parent(INNER) == OUTER && t.Parent(OUTER) == HSM_TOP;
    assert Within(t, INNER, OUTER);
    WithinTop(t, INNER);
    assert EntryTemp(t, h, HSM_TOP, INNER, INNER) == OUTER;
    assert StartLeaf(t, h, HSM_TOP, INNER) == None;
    ReachesBootIffStartsAsIntended(t, h, INNER);
  }
}
