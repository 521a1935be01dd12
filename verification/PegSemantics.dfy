/**
 The clauses of libs/restinio/helpers/easy_parser.hpp as a pure semantics: a parsing
 expression grammar with a cut. A clause maps a position and a target value to a match
 or a failure; there is no input stream to move and nothing to roll back.
 */
module PegSemantics {
  import opened Sequences
  import opened Wrappers

  datatype CharClass = Exactly(c: char) | AnyBut(sentinel: char) | AnyChar | Space | Digit | HexDigit {
    predicate Has(ch: char) {
      match this
      case Exactly(c) => ch == c
      case AnyBut(c) => ch != c
      case AnyChar => true
      case Space => IsSpace(ch)
      case Digit => '0' <= ch <= '9'
      case HexDigit => '0' <= ch <= '9' || 'A' <= ch <= 'F' || 'a' <= ch <= 'f'
    }
  }

  predicate IsSpace(ch: char) {
    ch == ' ' || ch == '\t'
  }

  /** Values under construction: kept characters and the values of inner producers. */
  datatype Node = Ch(c: char) | Inner(nodes: seq<Node>)

  type Target = seq<Node>

  datatype Clause =
    | Symbol(accepts: CharClass, keep: bool)
    | Produce(items: seq<Clause>)                       // produce<T>(...) >> consumer
    | Sequence(items: seq<Clause>)
    | Alternatives(items: seq<Clause>)
    | Forced(items: seq<Clause>)                        // force_only_this_alternative
    | Maybe(items: seq<Clause>)
    | Not(items: seq<Clause>)
    | And(items: seq<Clause>)
    | Repeat(min: nat, max: nat, items: seq<Clause>)

  datatype Reason =
    | UnexpectedCharacter
    | UnexpectedEof
    | NoAppropriateAlternative
    | PatternNotFound
    | UnconsumedInput
    | ForceOnlyThisAlternativeFailed

  datatype ParseError = ParseError(position: nat, reason: Reason)

  /** A failure says where and why, and what the clause left in its target. */
  datatype Parse = Match(pos: nat, target: Target) | Fail(error: ParseError, target: Target)

  datatype Repeated = Repeated(count: nat, pos: nat, target: Target)

  function Peg(c: Clause, s: string, p: nat, t: Target): (r: Parse)
    requires p <= |s|
    ensures r.Match? ==> p <= r.pos <= |s|
    decreases c, 3
  {
    match c
    case Symbol(accepts, keep) =>
      if p == |s| then Fail(ParseError(p, UnexpectedEof), t)
      else if accepts.Has(s[p]) then Match(p + 1, if keep then t + [Ch(s[p])] else t)
      else Fail(ParseError(p, UnexpectedCharacter), t)
    case Produce(items) =>
      (match PegAll(items, s, p, [])
       case Match(p', v) => Match(p', t + [Inner(v)])
       case Fail(e, _) => Fail(e, t))
    case Sequence(items) =>
      (match PegAll(items, s, p, t)
       case Match(p', t') => Match(p', t')
       case Fail(e, _) => Fail(e, t))
    case Alternatives(items) => PegAny(items, s, p, t)
    case Forced(items) =>
      (match PegAll(items, s, p, t)
       case Match(p', t') => Match(p', t')
       case Fail(_, _) => Fail(ParseError(p, ForceOnlyThisAlternativeFailed), t))
    case Maybe(items) =>
      (match PegAll(items, s, p, t)
       case Match(p', t') => Match(p', t')
       case Fail(_, _) => Match(p, t))
    case Not(items) =>
      if PegAll(items, s, p, []).Match? then Fail(ParseError(p, PatternNotFound), t) else Match(p, t)
    case And(items) =>
      if PegAll(items, s, p, []).Match? then Match(p, t) else Fail(ParseError(p, PatternNotFound), t)
    case Repeat(min, max, items) =>
      var r := PegRepeat(items, s, p, t, max);
      if r.count >= min then Match(r.pos, r.target) else Fail(ParseError(r.pos, PatternNotFound), r.target)
  }

  /** One after the other; the first failure ends it and keeps what was put into the target. */
  function PegAll(items: seq<Clause>, s: string, p: nat, t: Target): (r: Parse)
    requires p <= |s|
    ensures r.Match? ==> p <= r.pos <= |s|
    decreases items, 0
  {
    if items == [] then Match(p, t)
    else
      match Peg(items[0], s, p, t)
      case Match(p', t') => PegAll(items[1..], s, p', t')
      case Fail(e, t') => Fail(e, t')
  }

  /** The first that matches; a forced failure rules out the remaining ones. */
  function PegAny(items: seq<Clause>, s: string, p: nat, t: Target): (r: Parse)
    requires p <= |s|
    ensures r.Match? ==> p <= r.pos <= |s|
    decreases items, 0
  {
    if items == [] then Fail(ParseError(p, NoAppropriateAlternative), t)
    else
      match Peg(items[0], s, p, t)
      case Match(p', t') => Match(p', t')
      case Fail(e, _) =>
        if e.reason.ForceOnlyThisAlternativeFailed? then Fail(ParseError(p, NoAppropriateAlternative), t)
        else PegAny(items[1..], s, p, t)
  }

  /** As often as possible, at most `left` times; the failing turn may leave its mark on the target. */
  function PegRepeat(items: seq<Clause>, s: string, p: nat, t: Target, left: nat): (r: Repeated)
    requires p <= |s|
    ensures p <= r.pos <= |s| && r.count <= left
    decreases items, 1, left
  {
    if left == 0 then Repeated(0, p, t)
    else
      match PegAll(items, s, p, t)
      case Fail(_, t') => Repeated(0, p, t')
      case Match(p', t') =>
        var r := PegRepeat(items, s, p', t', left - 1);
        Repeated(r.count + 1, r.pos, r.target)
  }

  // --------------------------------------------------- clauses in terms of each other

  /** Items in a row are one after the other, wherever the row is divided. */
  lemma {:induction false} InARow(a: seq<Clause>, b: seq<Clause>, s: string, p: nat, t: Target)
    requires p <= |s|
    ensures PegAll(a + b, s, p, t) ==
            match PegAll(a, s, p, t) case Match(p', t') => PegAll(b, s, p', t') case Fail(e, t') => Fail(e, t')
    decreases |a|
  {
    hide Peg;
    if a == [] {
      assert a + b == b;
    } else {
      assert (a + b)[1..] == a[1..] + b;
      var r := Peg(a[0], s, p, t);
      if r.Match? { InARow(a[1..], b, s, r.pos, r.target); }
    }
  }

  lemma {:induction false} OneInARow(c: Clause, s: string, p: nat, t: Target)
    requires p <= |s|
    ensures PegAll([c], s, p, t) == Peg(c, s, p, t)
  {
    assert [c][1..] == [];
    var r := Peg(c, s, p, t);
    if r.Match? { assert PegAll([], s, r.pos, r.target) == Match(r.pos, r.target); }
  }

  /** A sequence is its first part, then its second: both match, or the first failure of the two is reported. */
  lemma {:induction false} SequenceDivides(a: seq<Clause>, b: seq<Clause>, s: string, p: nat, t: Target)
    requires p <= |s|
    ensures Peg(Sequence(a + b), s, p, t) ==
            match Peg(Sequence(a), s, p, t)
            case Fail(e, _) => Fail(e, t)
            case Match(p', t') =>
              match Peg(Sequence(b), s, p', t') case Match(q, u) => Match(q, u) case Fail(e, _) => Fail(e, t)
  {
    hide PegAll;
    InARow(a, b, s, p, t);
  }

  lemma {:induction false} SequenceOfOne(c: Clause, s: string, p: nat, t: Target)
    requires p <= |s|
    ensures Peg(Sequence([c]), s, p, t) ==
            match Peg(c, s, p, t) case Match(q, u) => Match(q, u) case Fail(e, _) => Fail(e, t)
    ensures Peg(Sequence([]), s, p, t) == Match(p, t)
  {
    OneInARow(c, s, p, t);
  }

  /** A producer does what the sequence of its items does to an empty target, and adds the outcome as one value. */
  lemma {:induction false} ProducerWrapsSequence(items: seq<Clause>, s: string, p: nat, t: Target)
    requires p <= |s|
    ensures Peg(Produce(items), s, p, t) ==
            match Peg(Sequence(items), s, p, []) case Match(q, v) => Match(q, t + [Inner(v)]) case Fail(e, _) => Fail(e, t)
  {
    hide PegAll;
  }

  /** Look-aheads tell whether the sequence matches, without moving or writing; maybe makes it optional. */
  lemma {:induction false} LooksAhead(items: seq<Clause>, s: string, p: nat, t: Target)
    requires p <= |s|
    ensures var found := Peg(Sequence(items), s, p, t).Match?;
            && Peg(And(items), s, p, t) == (if found then Match(p, t) else Fail(ParseError(p, PatternNotFound), t))
            && Peg(Not(items), s, p, t) == (if found then Fail(ParseError(p, PatternNotFound), t) else Match(p, t))
            && Peg(Maybe(items), s, p, t) == (if found then Peg(Sequence(items), s, p, t) else Match(p, t))
  {
    hide PegAll, Peg;
    OnlyAppends(Sequence(items), s, p, t);
    LooksAheadFromNothing(items, s, p, t);
  }

  lemma {:induction false} LooksAheadFromNothing(items: seq<Clause>, s: string, p: nat, t: Target)
    requires p <= |s|
    ensures var found := Peg(Sequence(items), s, p, []).Match?;
            && Peg(And(items), s, p, t) == (if found then Match(p, t) else Fail(ParseError(p, PatternNotFound), t))
            && Peg(Not(items), s, p, t) == (if found then Fail(ParseError(p, PatternNotFound), t) else Match(p, t))
    ensures Peg(Maybe(items), s, p, t) ==
            if Peg(Sequence(items), s, p, t).Match? then Peg(Sequence(items), s, p, t) else Match(p, t)
  {
    hide PegAll;
  }

  function Times(k: nat, items: seq<Clause>): (r: seq<Clause>) {
    if k == 0 then [] else items + Times(k - 1, items)
  }

  /** A repetition makes as many turns as match, up to its maximum: just as many copies of the items in a row match. */
  lemma {:induction false} TurnsAreARow(items: seq<Clause>, s: string, p: nat, t: Target, max: nat)
    requires p <= |s|
    ensures var r := PegRepeat(items, s, p, t, max); var row := PegAll(Times(r.count, items), s, p, t);
            && row.Match? && row.pos == r.pos
            && (r.count == max ==> r.target == row.target)
            && (r.count < max ==> PegAll(items, s, r.pos, row.target).Fail? && r.target == PegAll(items, s, r.pos, row.target).target)
    decreases max
  {
    hide Peg;
    if max > 0 {
      var turn := PegAll(items, s, p, t);
      if turn.Match? {
        TurnsAreARow(items, s, turn.pos, turn.target, max - 1);
        var k := PegRepeat(items, s, turn.pos, turn.target, max - 1).count;
        InARow(items, Times(k, items), s, p, t);
      }
    }
  }

  lemma {:induction false} RepeatIsLongestRow(min: nat, max: nat, items: seq<Clause>, s: string, p: nat, t: Target)
    returns (k: nat)
    requires p <= |s|
    ensures k <= max
    ensures var row := Peg(Sequence(Times(k, items)), s, p, t);
            && row.Match?
            && (k < max ==> Peg(Sequence(items), s, row.pos, row.target).Fail?)
            && (if k >= min then Peg(Repeat(min, max, items), s, p, t).Match? && Peg(Repeat(min, max, items), s, p, t).pos == row.pos
                else Shape(Peg(Repeat(min, max, items), s, p, t)) == (false, 0, Some(ParseError(row.pos, PatternNotFound))))
  {
    hide PegAll, PegRepeat;
    TurnsAreARow(items, s, p, t, max);
    k := PegRepeat(items, s, p, t, max).count;
  }

  /** A symbol takes one character of its class, or fails where it stands. */
  lemma {:induction false} SymbolTakesOne(accepts: CharClass, keep: bool, s: string, p: nat, t: Target)
    requires p <= |s|
    ensures var r := Peg(Symbol(accepts, keep), s, p, t);
            && (r.Match? <==> p < |s| && accepts.Has(s[p]))
            && (r.Match? ==> r.pos == p + 1 && r.target == t + if keep then [Ch(s[p])] else [])
            && (r.Fail? ==>
                  && r.error.position == p && r.target == t
                  && r.error.reason == if p == |s| then UnexpectedEof else UnexpectedCharacter)
  {
    assert t + [] == t;
  }

  /** What the character classes contain, listed. */
  lemma {:induction false} ClassesAreListed(c: char)
    ensures Space.Has(c) <==> c in {' ', '\t'}
    ensures Digit.Has(c) <==> c in {'0', '1', '2', '3', '4', '5', '6', '7', '8', '9'}
    ensures HexDigit.Has(c) <==> Digit.Has(c) || c in {'A', 'B', 'C', 'D', 'E', 'F', 'a', 'b', 'c', 'd', 'e', 'f'}
    ensures Exactly(c).Has(c) && !AnyBut(c).Has(c) && AnyChar.Has(c)
    ensures forall d: char :: d != c ==> !Exactly(d).Has(c) && AnyBut(d).Has(c)
  {
  }

  // -------------------------------------------------------------- scope of cuts

  /** Can a failure of this clause be a forced one? */
  predicate MayCut(c: Clause)
    decreases c, 1
  {
    match c
    case Forced(_) => true
    case Produce(items) => AnyMayCut(items)
    case Sequence(items) => AnyMayCut(items)
    case _ => false
  }

  predicate AnyMayCut(items: seq<Clause>)
    decreases items, 0
  {
    items != [] && (MayCut(items[0]) || AnyMayCut(items[1..]))
  }

  /** A forced failure passes through sequences and producers only: every other clause contains it. */
  lemma {:induction false} CutComesFromForced(c: Clause, s: string, p: nat, t: Target)
    requires p <= |s|
    ensures var r := Peg(c, s, p, t);
            r.Fail? && r.error.reason.ForceOnlyThisAlternativeFailed? ==> MayCut(c)
    decreases c, 1
  {
    match c
    case Produce(items) => CutComesFromAny(items, s, p, []);
    case Sequence(items) => CutComesFromAny(items, s, p, t);
    case Alternatives(items) => AlternativesFailPlainly(items, s, p, t);
    case _ =>
  }

  lemma {:induction false} CutComesFromAny(items: seq<Clause>, s: string, p: nat, t: Target)
    requires p <= |s|
    ensures var r := PegAll(items, s, p, t);
            r.Fail? && r.error.reason.ForceOnlyThisAlternativeFailed? ==> AnyMayCut(items)
    decreases items, 0
  {
    if items != [] {
      CutComesFromForced(items[0], s, p, t);
      var r := Peg(items[0], s, p, t);
      if r.Match? { CutComesFromAny(items[1..], s, r.pos, r.target); }
    }
  }

  lemma {:induction false} AlternativesFailPlainly(items: seq<Clause>, s: string, p: nat, t: Target)
    requires p <= |s|
    ensures PegAny(items, s, p, t).Fail? ==> PegAny(items, s, p, t) == Fail(ParseError(p, NoAppropriateAlternative), t)
    decreases |items|
  {
    if items != [] { AlternativesFailPlainly(items[1..], s, p, t); }
  }

  /**
   Ordered choice with a cut: alternatives succeed exactly with the first item that matches
   while no item before it failed by force; otherwise the target is untouched.
   */
  lemma {:induction false} AlternativesChooseFirst(items: seq<Clause>, s: string, p: nat, t: Target)
    requires p <= |s|
    ensures match PegAny(items, s, p, t)
            case Match(p', t') =>
              exists k :: 0 <= k < |items| && Chosen(items, s, p, t, k) && Peg(items[k], s, p, t) == Match(p', t')
            case Fail(e, t') =>
              t' == t && forall k :: 0 <= k < |items| ==> !Chosen(items, s, p, t, k)
    decreases |items|
  {
    if items != [] {
      var rest := items[1..];
      AlternativesChooseFirst(rest, s, p, t);
      assert forall j :: 0 <= j < |rest| ==> rest[j] == items[j + 1];
      var first := Peg(items[0], s, p, t);
      if first.Match? {
        assert Chosen(items, s, p, t, 0);
      } else if !first.error.reason.ForceOnlyThisAlternativeFailed? {
        forall k | 0 <= k < |rest| ensures Chosen(rest, s, p, t, k) <==> Chosen(items, s, p, t, k + 1) {
          assert forall j :: 1 <= j < k + 1 ==> items[j] == rest[j - 1];
        }
        if PegAny(rest, s, p, t).Match? {
          var k :| 0 <= k < |rest| && Chosen(rest, s, p, t, k) && Peg(rest[k], s, p, t) == PegAny(rest, s, p, t);
          assert Chosen(items, s, p, t, k + 1);
        } else {
          forall k | 0 <= k < |items| ensures !Chosen(items, s, p, t, k) {
            if k > 0 { assert !Chosen(rest, s, p, t, k - 1); }
          }
        }
      }
    }
  }

  predicate Chosen(items: seq<Clause>, s: string, p: nat, t: Target, k: nat)
    requires p <= |s|
  {
    && k < |items|
    && Peg(items[k], s, p, t).Match?
    && forall j :: 0 <= j < k ==>
         Peg(items[j], s, p, t).Fail? && !Peg(items[j], s, p, t).error.reason.ForceOnlyThisAlternativeFailed?
  }

  /** A forced failure decides the innermost alternatives, and no more than those. */
  lemma {:induction false} CutIsInnermost(forced: Clause, others: seq<Clause>, outer: seq<Clause>, s: string, p: nat, t: Target)
    requires p <= |s|
    requires Peg(forced, s, p, t).Fail? && Peg(forced, s, p, t).error.reason.ForceOnlyThisAlternativeFailed?
    ensures Peg(Alternatives([forced] + others), s, p, t) == Fail(ParseError(p, NoAppropriateAlternative), t)
    ensures Peg(Alternatives([Alternatives([forced] + others)] + outer), s, p, t) == Peg(Alternatives(outer), s, p, t)
  {
    var inner := Alternatives([forced] + others);
    assert ([inner] + outer)[1..] == outer;
  }

  // ------------------------------------------------------------------ targets

  /** The same outcome, with `t` in front of what was put into the target. */
  function Shift(t: Target, r: Parse): Parse {
    match r
    case Match(p, v) => Match(p, t + v)
    case Fail(e, v) => Fail(e, t + v)
  }

  lemma {:induction false} ShiftTwice(t: Target, u: Target, r: Parse)
    ensures Shift(t, Shift(u, r)) == Shift(t + u, r)
    ensures Shift([], r) == r
  {
    assert t + (u + r.target) == (t + u) + r.target && [] + r.target == r.target;
  }

  /**
   A clause only ever appends: what it does to any target it does to the empty one. So where it
   matches or fails, and with what error, does not depend on the target.
   */
  lemma {:induction false} OnlyAppends(c: Clause, s: string, p: nat, t: Target)
    requires p <= |s|
    ensures Peg(c, s, p, t) == Shift(t, Peg(c, s, p, []))
    decreases c, 3
  {
    hide PegAll, PegAny, PegRepeat;
    assert t + [] == t;
    match c
    case Symbol(_, keep) => if p < |s| { assert [] + [Ch(s[p])] == [Ch(s[p])]; }
    case Alternatives(items) => OnlyAppendsAny(items, s, p, t);
    case Repeat(_, max, items) => OnlyAppendsRepeat(items, s, p, t, max);
    case Sequence(items) => OnlyAppendsAll(items, s, p, t);
    case Forced(items) => OnlyAppendsAll(items, s, p, t);
    case Maybe(items) => OnlyAppendsAll(items, s, p, t);
    case Produce(items) =>
      var r := PegAll(items, s, p, []);
      if r.Match? { assert [] + [Inner(r.target)] == [Inner(r.target)]; }
    case _ =>
  }

  lemma {:induction false} OnlyAppendsAll(items: seq<Clause>, s: string, p: nat, t: Target)
    requires p <= |s|
    ensures PegAll(items, s, p, t) == Shift(t, PegAll(items, s, p, []))
    decreases items, 0
  {
    hide Peg, Shift;
    if items == [] {
      ShiftNothing(p, t);
    } else {
      OnlyAppends(items[0], s, p, t);
      var first := Peg(items[0], s, p, []);
      ShiftCases(t, first);
      if first.Match? {
        OnlyAppendsAll(items[1..], s, first.pos, t + first.target);
        OnlyAppendsAll(items[1..], s, first.pos, first.target);
        ShiftTwice(t, first.target, PegAll(items[1..], s, first.pos, []));
      }
    }
  }

  lemma {:induction false} ShiftNothing(p: nat, t: Target)
    ensures Shift(t, Match(p, [])) == Match(p, t)
  {
    assert t + [] == t;
  }

  lemma {:induction false} ShiftCases(t: Target, r: Parse)
    ensures Shift(t, r) == if r.Match? then Match(r.pos, t + r.target) else Fail(r.error, t + r.target)
  {
  }

  lemma {:induction false} OnlyAppendsAny(items: seq<Clause>, s: string, p: nat, t: Target)
    requires p <= |s|
    ensures PegAny(items, s, p, t) == Shift(t, PegAny(items, s, p, []))
    decreases items, 0
  {
    hide Peg;
    assert t + [] == t;
    if items != [] {
      OnlyAppends(items[0], s, p, t);
      OnlyAppendsAny(items[1..], s, p, t);
    }
  }

  lemma {:induction false} OnlyAppendsRepeat(items: seq<Clause>, s: string, p: nat, t: Target, left: nat)
    requires p <= |s|
    ensures var r := PegRepeat(items, s, p, [], left);
            PegRepeat(items, s, p, t, left) == Repeated(r.count, r.pos, t + r.target)
    decreases items, 1, left
  {
    hide PegAll;
    assert t + [] == t;
    if left != 0 {
      OnlyAppendsAll(items, s, p, t);
      var turn := PegAll(items, s, p, []);
      if turn.Match? {
        OnlyAppendsRepeat(items, s, turn.pos, t + turn.target, left - 1);
        OnlyAppendsRepeat(items, s, turn.pos, turn.target, left - 1);
        var rest := PegRepeat(items, s, turn.pos, [], left - 1).target;
        assert (t + turn.target) + rest == t + (turn.target + rest);
      }
    }
  }

  lemma {:induction false} FirstOfAlternatives(c: Clause, others: seq<Clause>, s: string, p: nat, t: Target)
    requires p <= |s|
    ensures PegAny([c] + others, s, p, t) ==
            match Peg(c, s, p, t)
            case Match(p', t') => Match(p', t')
            case Fail(e, _) =>
              if e.reason.ForceOnlyThisAlternativeFailed? then Fail(ParseError(p, NoAppropriateAlternative), t)
              else PegAny(others, s, p, t)
    ensures PegAny([], s, p, t) == Fail(ParseError(p, NoAppropriateAlternative), t)
  {
    hide Peg;
    assert ([c] + others)[0] == c && ([c] + others)[1..] == others;
  }

  /**
   A forced alternative leaves no choice: whatever comes after it is never tried, so it might as
   well not be there.
   */
  lemma {:induction false} ForcedLeavesNoChoice(items: seq<Clause>, others: seq<Clause>, s: string, p: nat, t: Target)
    requires p <= |s|
    ensures Peg(Alternatives([Forced(items)] + others), s, p, t) == Peg(Alternatives([Sequence(items)]), s, p, t)
  {
    hide PegAll;
    FirstOfAlternatives(Forced(items), others, s, p, t);
    FirstOfAlternatives(Sequence(items), [], s, p, t);
    assert [Sequence(items)] + [] == [Sequence(items)];
    hide PegAny;
  }

  /** Nor does one behind items that match: the sequence then fails by force where it starts. */
  lemma {:induction false} ForcedItemCuts(before: seq<Clause>, items: seq<Clause>, after: seq<Clause>, s: string, p: nat, t: Target)
    requires p <= |s| && PegAll(before, s, p, t).Match?
    requires var r := PegAll(before, s, p, t); Peg(Sequence(items), s, r.pos, r.target).Fail?
    ensures var q := PegAll(before, s, p, t).pos;
            Peg(Sequence(before + [Forced(items)] + after), s, p, t) == Fail(ParseError(q, ForceOnlyThisAlternativeFailed), t)
  {
    var r := PegAll(before, s, p, t);
    InARow(before + [Forced(items)], after, s, p, t);
    InARow(before, [Forced(items)], s, p, t);
    OneInARow(Forced(items), s, r.pos, r.target);
  }

  lemma {:induction false} ForcedBehindPrefixLeavesNoChoice(before: seq<Clause>, items: seq<Clause>, others: seq<Clause>,
      s: string, p: nat, t: Target)
    requires p <= |s| && PegAll(before, s, p, t).Match?
    ensures Peg(Alternatives([Sequence(before + [Forced(items)])] + others), s, p, t) ==
            Peg(Alternatives([Sequence(before + items)]), s, p, t)
  {
    var r := PegAll(before, s, p, t);
    var forced, plain := Sequence(before + [Forced(items)]), Sequence(before + items);
    InARow(before, [Forced(items)], s, p, t);
    InARow(before, items, s, p, t);
    OneInARow(Forced(items), s, r.pos, r.target);
    FirstOfAlternatives(forced, others, s, p, t);
    FirstOfAlternatives(plain, [], s, p, t);
    assert [plain] + [] == [plain];
    hide PegAll, PegAny;
  }

  /** A producer whose failing item is a forced one passes the cut on just as well. */
  lemma {:induction false} ForcedItemCutsProducer(before: seq<Clause>, items: seq<Clause>, after: seq<Clause>, s: string, p: nat, t: Target)
    requires p <= |s| && PegAll(before, s, p, []).Match?
    requires var r := PegAll(before, s, p, []); Peg(Sequence(items), s, r.pos, r.target).Fail?
    ensures var q := PegAll(before, s, p, []).pos;
            Peg(Produce(before + [Forced(items)] + after), s, p, t) == Fail(ParseError(q, ForceOnlyThisAlternativeFailed), t)
  {
    hide PegAll;
    ForcedItemCuts(before, items, after, s, p, []);
    ProducerWrapsSequence(before + [Forced(items)] + after, s, p, t);
  }

  /** The outcome of a parse without the target. */
  function Shape(r: Parse): (bool, nat, Option<ParseError>) {
    match r
    case Match(p, _) => (true, p, None)
    case Fail(e, _) => (false, 0, Some(e))
  }

  lemma {:induction false} TargetDoesNotMatter(c: Clause, s: string, p: nat, t: Target, u: Target)
    requires p <= |s|
    ensures Shape(Peg(c, s, p, t)) == Shape(Peg(c, s, p, u))
  {
    hide Peg;
    OnlyAppends(c, s, p, t);
    OnlyAppends(c, s, p, u);
  }

  /** A failing clause leaves its target as it was, unless it is a repetition. */
  lemma {:induction false} FailureSparesTarget(c: Clause, s: string, p: nat, t: Target)
    requires p <= |s| && !c.Repeat?
    ensures Peg(c, s, p, t).Fail? ==> Peg(c, s, p, t).target == t
  {
    if c.Alternatives? { AlternativesFailPlainly(c.items, s, p, t); }
  }

  /** A repetition that falls short keeps the values of the turns it made; a sequence around it drops them. */
  lemma {:induction false} RepeatMarksTarget()
    ensures var twice := Repeat(2, 2, [Symbol(Exactly('a'), true)]);
            && Peg(twice, "ab", 0, []) == Fail(ParseError(1, PatternNotFound), [Ch('a')])
            && Peg(Sequence([twice]), "ab", 0, []) == Fail(ParseError(1, PatternNotFound), [])
  {
    var a := Symbol(Exactly('a'), true);
    assert [a][1..] == [];
    assert Peg(a, "ab", 0, []) == Match(1, [Ch('a')]);
    assert PegAll([a], "ab", 0, []) == Match(1, [Ch('a')]);
    assert PegAll([a], "ab", 1, [Ch('a')]) == Fail(ParseError(1, UnexpectedCharacter), [Ch('a')]);
    assert PegRepeat([a], "ab", 1, [Ch('a')], 1) == Repeated(0, 1, [Ch('a')]);
    assert PegRepeat([a], "ab", 0, [], 2) == Repeated(1, 1, [Ch('a')]);
  }

  /** What each turn of a repetition writes, the failing one included. */
  function Turns(items: seq<Clause>, s: string, p: nat, left: nat): (w: seq<Target>)
    requires p <= |s|
    decreases left
  {
    if left == 0 then []
    else
      match PegAll(items, s, p, [])
      case Fail(_, v) => [v]
      case Match(p', v) => [v] + Turns(items, s, p', left - 1)
  }

  lemma {:induction false} RepeatWritesTurns(items: seq<Clause>, s: string, p: nat, left: nat)
    requires p <= |s|
    ensures PegRepeat(items, s, p, [], left).target == Concat(Turns(items, s, p, left))
    decreases left
  {
    hide PegAll;
    if left != 0 {
      var turn := PegAll(items, s, p, []);
      if turn.Match? {
        RepeatWritesTurns(items, s, turn.pos, left - 1);
        OnlyAppendsRepeat(items, s, turn.pos, turn.target, left - 1);
        assert ([turn.target] + Turns(items, s, turn.pos, left - 1))[1..] == Turns(items, s, turn.pos, left - 1);
      } else {
        assert [turn.target][1..] == [] && turn.target + [] == turn.target;
      }
    }
  }

  /** A failing repetition leaves its target alone if and only if none of its turns, the failing one included, wrote anything. */
  lemma {:induction false} RepeatSparesTargetIff(min: nat, max: nat, items: seq<Clause>, s: string, p: nat, t: Target)
    requires p <= |s| && Peg(Repeat(min, max, items), s, p, t).Fail?
    ensures Peg(Repeat(min, max, items), s, p, t).target == t <==>
            forall i :: 0 <= i < |Turns(items, s, p, max)| ==> Turns(items, s, p, max)[i] == []
  {
    hide PegRepeat, Turns;
    OnlyAppendsRepeat(items, s, p, t, max);
    RepeatWritesTurns(items, s, p, max);
    ConcatIsEmpty(Turns(items, s, p, max));
    var written := Concat(Turns(items, s, p, max));
    assert |t + written| == |t| + |written|;
    if written == [] { assert t + written == t; }
  }

  /** No kept symbol and no producer, outside of look-aheads. */
  predicate Silent(c: Clause)
    decreases c, 1
  {
    match c
    case Symbol(_, keep) => !keep
    case Produce(_) => false
    case Sequence(items) => AllSilent(items)
    case Alternatives(items) => AllSilent(items)
    case Forced(items) => AllSilent(items)
    case Maybe(items) => AllSilent(items)
    case Not(_) => true
    case And(_) => true
    case Repeat(_, _, items) => AllSilent(items)
  }

  predicate AllSilent(items: seq<Clause>)
    decreases items, 0
  {
    items == [] || (Silent(items[0]) && AllSilent(items[1..]))
  }

  /** That is a guard enough: such a clause leaves its target alone whether it matches or fails. */
  lemma {:induction false} SilentSparesTarget(c: Clause, s: string, p: nat, t: Target)
    requires p <= |s| && Silent(c)
    ensures Peg(c, s, p, t).target == t
    decreases c, 3
  {
    hide PegAll, PegAny, PegRepeat;
    match c
    case Alternatives(items) => SilentSparesAny(items, s, p, t);
    case Repeat(_, max, items) => SilentSparesRepeat(items, s, p, t, max);
    case Sequence(items) => SilentSparesAll(items, s, p, t);
    case Forced(items) => SilentSparesAll(items, s, p, t);
    case Maybe(items) => SilentSparesAll(items, s, p, t);
    case _ =>
  }

  lemma {:induction false} SilentSparesAll(items: seq<Clause>, s: string, p: nat, t: Target)
    requires p <= |s| && AllSilent(items)
    ensures PegAll(items, s, p, t).target == t
    decreases items, 0
  {
    hide Peg;
    if items != [] {
      SilentSparesTarget(items[0], s, p, t);
      var r := Peg(items[0], s, p, t);
      if r.Match? { SilentSparesAll(items[1..], s, r.pos, t); }
    }
  }

  lemma {:induction false} SilentSparesAny(items: seq<Clause>, s: string, p: nat, t: Target)
    requires p <= |s| && AllSilent(items)
    ensures PegAny(items, s, p, t).target == t
    decreases items, 0
  {
    hide Peg;
    if items != [] {
      SilentSparesTarget(items[0], s, p, t);
      SilentSparesAny(items[1..], s, p, t);
    }
  }

  lemma {:induction false} SilentSparesRepeat(items: seq<Clause>, s: string, p: nat, t: Target, left: nat)
    requires p <= |s| && AllSilent(items)
    ensures PegRepeat(items, s, p, t, left).target == t
    decreases items, 1, left
  {
    hide PegAll;
    if left != 0 {
      SilentSparesAll(items, s, p, t);
      var r := PegAll(items, s, p, t);
      if r.Match? { SilentSparesRepeat(items, s, r.pos, t, left - 1); }
    }
  }

  /** not(not(x)) looks ahead like and(x), whatever x does to its target and wherever it is cut. */
  lemma {:induction false} NotNotIsAnd(items: seq<Clause>, s: string, p: nat, t: Target)
    requires p <= |s|
    ensures Peg(Not([Not(items)]), s, p, t) == Peg(And(items), s, p, t)
  {
    assert [Not(items)][1..] == [];
    var inner := Peg(Not(items), s, p, []);
    assert PegAll([Not(items)], s, p, []) == if inner.Match? then PegAll([], s, inner.pos, inner.target) else inner;
  }

  /** maybe(x) is at most one repetition of the sequence x. */
  lemma {:induction false} MaybeIsRepeatOnce(items: seq<Clause>, s: string, p: nat, t: Target)
    requires p <= |s|
    ensures Peg(Maybe(items), s, p, t) == Peg(Repeat(0, 1, [Sequence(items)]), s, p, t)
  {
    assert [Sequence(items)][1..] == [];
    var inner := Peg(Sequence(items), s, p, t);
    assert PegAll([Sequence(items)], s, p, t) == if inner.Match? then PegAll([], s, inner.pos, inner.target) else inner;
    if inner.Match? {
      assert PegRepeat([Sequence(items)], s, inner.pos, inner.target, 0) == Repeated(0, inner.pos, inner.target);
    }
  }

  // ----------------------------------------------------------------- progress

  /** Can the clause match without consuming anything? */
  predicate Nullable(c: Clause)
    decreases c, 1
  {
    match c
    case Symbol(_, _) => false
    case Produce(items) => AllNullable(items)
    case Sequence(items) => AllNullable(items)
    case Forced(items) => AllNullable(items)
    case Alternatives(items) => AnyNullable(items)
    case Maybe(_) => true
    case Not(_) => true
    case And(_) => true
    case Repeat(min, _, items) => min == 0 || AllNullable(items)
  }

  predicate AllNullable(items: seq<Clause>)
    decreases items, 0
  {
    items == [] || (Nullable(items[0]) && AllNullable(items[1..]))
  }

  predicate AnyNullable(items: seq<Clause>)
    decreases items, 0
  {
    items != [] && (Nullable(items[0]) || AnyNullable(items[1..]))
  }

  /** A clause that is not nullable strictly advances when it matches. */
  lemma {:induction false} Advances(c: Clause, s: string, p: nat, t: Target)
    requires p <= |s| && !Nullable(c)
    ensures Peg(c, s, p, t).Match? ==> p < Peg(c, s, p, t).pos
    decreases c, 1
  {
    match c
    case Symbol(_, _) =>
    case Produce(items) => AllAdvance(items, s, p, []);
    case Sequence(items) => AllAdvance(items, s, p, t);
    case Forced(items) => AllAdvance(items, s, p, t);
    case Alternatives(items) => AnyAdvances(items, s, p, t);
    case Repeat(_, max, items) => if max > 0 { AllAdvance(items, s, p, t); }
  }

  lemma {:induction false} AllAdvance(items: seq<Clause>, s: string, p: nat, t: Target)
    requires p <= |s| && !AllNullable(items)
    ensures PegAll(items, s, p, t).Match? ==> p < PegAll(items, s, p, t).pos
    decreases items, 0
  {
    var r := Peg(items[0], s, p, t);
    if r.Match? {
      if Nullable(items[0]) {
        AllAdvance(items[1..], s, r.pos, r.target);
      } else {
        Advances(items[0], s, p, t);
      }
    }
  }

  lemma {:induction false} AnyAdvances(items: seq<Clause>, s: string, p: nat, t: Target)
    requires p <= |s| && !AnyNullable(items)
    ensures PegAny(items, s, p, t).Match? ==> p < PegAny(items, s, p, t).pos
    decreases items, 0
  {
    if items != [] {
      Advances(items[0], s, p, t);
      AnyAdvances(items[1..], s, p, t);
    }
  }

  /** Over a body that is not nullable, at most as many turns succeed as characters remain. */
  lemma {:induction false} RepeatIsBounded(items: seq<Clause>, s: string, p: nat, t: Target, left: nat)
    requires p <= |s| && !AllNullable(items)
    ensures PegRepeat(items, s, p, t, left).count <= PegRepeat(items, s, p, t, left).pos - p
    decreases left
  {
    if left != 0 {
      AllAdvance(items, s, p, t);
      var r := PegAll(items, s, p, t);
      if r.Match? { RepeatIsBounded(items, s, r.pos, r.target, left - 1); }
    }
  }

  /** So any limit beyond the remaining input, such as N, means "no limit". */
  lemma {:induction false} RepeatLimitIsIrrelevant(items: seq<Clause>, s: string, p: nat, t: Target, m: nat, n: nat)
    requires p <= |s| && !AllNullable(items) && m > |s| - p && n > |s| - p
    ensures PegRepeat(items, s, p, t, m) == PegRepeat(items, s, p, t, n)
    decreases |s| - p
  {
    var r := PegAll(items, s, p, t);
    AllAdvance(items, s, p, t);
    if r.Match? { RepeatLimitIsIrrelevant(items, s, r.pos, r.target, m - 1, n - 1); }
  }
}
