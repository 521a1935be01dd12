/**
 The clauses of libs/restinio/helpers/easy_parser.hpp as they run: a source with one
 position that every clause moves, targets that are written through a reference, and
 guards that move the position back on leaving a scope. The contracts say that this
 machinery computes the semantics of PegSemantics and where it leaves the position.
 */
module EasyParser {
  import opened Wrappers
  import opened PegSemantics

  /** source_t */
  class Source {
    const data: string
    var index: nat

    ghost predicate Valid()
      reads this
    {
      index <= |data|
    }

    constructor (data: string)
      ensures Valid() && this.data == data && index == 0
    {
      this.data := data;
      index := 0;
    }

    method Getch() returns (c: Option<char>)
      requires Valid()
      modifies this
      ensures Valid()
      ensures old(index) < |data| ==> c == Some(data[old(index)]) && index == old(index) + 1
      ensures old(index) == |data| ==> c == None && index == old(index)
    {
      if index < |data| {
        c := Some(data[index]);
        index := index + 1;
      } else {
        c := None;
      }
    }

    method Putback()
      modifies this
      ensures index == if old(index) == 0 then 0 else old(index) - 1
    {
      if index != 0 { index := index - 1; }
    }

    method Backto(pos: nat)
      modifies this
      ensures index == if pos <= |data| then pos else old(index)
    {
      if pos <= |data| { index := pos; }
    }

    predicate Eof()
      reads this
    {
      index >= |data|
    }
  }

  /** content_consumer_t: unless committed, leaving its scope returns everything read since. */
  class ContentConsumer {
    const from: Source
    const startedAt: nat
    var consumed: bool

    constructor (from: Source)
      ensures this.from == from && startedAt == from.index && !consumed
    {
      this.from := from;
      startedAt := from.index;
      consumed := false;
    }

    method Commit()
      modifies this
      ensures consumed
    {
      consumed := true;
    }

    method Leave()
      requires startedAt <= |from.data|
      modifies from
      ensures from.index == if consumed then old(from.index) else startedAt
    {
      if !consumed { from.Backto(startedAt); }
    }
  }

  /** A value of the target type, passed by reference. */
  class Cell {
    var value: Target

    constructor (value: Target)
      ensures this.value == value
    {
      this.value := value;
    }
  }

  /** Where a failing clause leaves the position: only a bare producer does not return to its start. */
  function Halt(c: Clause, s: string, p: nat): (q: nat)
    requires p <= |s|
    ensures p <= q <= |s|
    decreases c, 1
  {
    match c
    case Produce(items) => HaltAll(items, s, p, [])
    case _ => p
  }

  function HaltAll(items: seq<Clause>, s: string, p: nat, t: Target): (q: nat)
    requires p <= |s|
    ensures p <= q <= |s|
    decreases items, 0
  {
    if items == [] then p
    else
      match Peg(items[0], s, p, t)
      case Match(p', t') => HaltAll(items[1..], s, p', t')
      case Fail(_, _) => Halt(items[0], s, p)
  }

  /** What running clause `c` must do to the position and the target, and what it must report. */
  ghost predicate Agrees(r: Parse, halt: nat, err: Option<ParseError>, index: nat, value: Target) {
    match r
    case Match(p, t) => err == None && index == p && value == t
    case Fail(e, t) => err == Some(e) && index == halt && value == t
  }

  /** try_process of any clause, producers bound to a consumer included. */
  method TryProcess(c: Clause, from: Source, target: Cell) returns (err: Option<ParseError>)
    requires from.Valid()
    modifies from, target
    ensures from.Valid()
    ensures Agrees(Peg(c, from.data, old(from.index), old(target.value)), Halt(c, from.data, old(from.index)),
                   err, from.index, target.value)
    decreases c, 3
  {
    match c
    case Symbol(accepts, keep) => err := TrySymbol(accepts, keep, from, target);
    case Produce(items) => err := TryProduce(items, from, target);
    case Sequence(items) => err := TrySequence(items, from, target);
    case Alternatives(items) => err := TryAlternatives(items, from, target);
    case Forced(items) => err := TryForced(items, from, target);
    case Maybe(items) => err := TryMaybe(items, from, target);
    case Not(items) => err := TryNot(items, from);
    case And(items) => err := TryAnd(items, from);
    case Repeat(min, max, items) => err := TryRepeat(min, max, items, from, target);
  }

  /** A symbol producer, bound to a consumer that either keeps the character or skips it. */
  method TrySymbol(accepts: CharClass, keep: bool, from: Source, target: Cell) returns (err: Option<ParseError>)
    requires from.Valid()
    modifies from, target
    ensures from.Valid()
    ensures Agrees(Peg(Symbol(accepts, keep), from.data, old(from.index), old(target.value)), old(from.index),
                   err, from.index, target.value)
  {
    var ch := from.Getch();
    if ch.Some? {
      if accepts.Has(ch.value) {
        if keep { target.value := target.value + [Ch(ch.value)]; }
        return None;
      }
      from.Putback();
      return Some(ParseError(from.index, UnexpectedCharacter));
    }
    return Some(ParseError(from.index, UnexpectedEof));
  }

  /** all_of over the items of a clause, each run on the same source and target. */
  method AllOf(items: seq<Clause>, from: Source, target: Cell) returns (err: Option<ParseError>)
    requires from.Valid()
    modifies from, target
    ensures from.Valid()
    ensures var s, p, t := from.data, old(from.index), old(target.value);
            Agrees(PegAll(items, s, p, t), HaltAll(items, s, p, t), err, from.index, target.value)
    decreases items, 2
  {
    ghost var s, p, t := from.data, from.index, target.value;
    var i := 0;
    err := None;
    while i < |items|
      invariant i <= |items| && from.Valid() && err == None
      invariant PegAll(items, s, p, t) == PegAll(items[i..], s, from.index, target.value)
      invariant HaltAll(items, s, p, t) == HaltAll(items[i..], s, from.index, target.value)
    {
      assert items[i..][0] == items[i] && items[i..][1..] == items[i + 1..];
      err := TryProcess(items[i], from, target);
      if err.Some? { return; }
      i := i + 1;
    }
  }

  method TryProduce(items: seq<Clause>, from: Source, target: Cell) returns (err: Option<ParseError>)
    requires from.Valid()
    modifies from, target
    ensures from.Valid()
    ensures Agrees(Peg(Produce(items), from.data, old(from.index), old(target.value)),
                   Halt(Produce(items), from.data, old(from.index)), err, from.index, target.value)
    decreases items, 3
  {
    var tmp := new Cell([]);
    err := AllOf(items, from, tmp);
    if err.None? { target.value := target.value + [Inner(tmp.value)]; }
  }

  method TrySequence(items: seq<Clause>, from: Source, target: Cell) returns (err: Option<ParseError>)
    requires from.Valid()
    modifies from, target
    ensures from.Valid()
    ensures Agrees(Peg(Sequence(items), from.data, old(from.index), old(target.value)), old(from.index),
                   err, from.index, target.value)
    decreases items, 3
  {
    var consumer := new ContentConsumer(from);
    var tmp := new Cell(target.value);
    err := AllOf(items, from, tmp);
    if err.None? {
      target.value := tmp.value;
      consumer.Commit();
    }
    consumer.Leave();
  }

  method TryForced(items: seq<Clause>, from: Source, target: Cell) returns (err: Option<ParseError>)
    requires from.Valid()
    modifies from, target
    ensures from.Valid()
    ensures Agrees(Peg(Forced(items), from.data, old(from.index), old(target.value)), old(from.index),
                   err, from.index, target.value)
    decreases items, 4
  {
    var startingPos := from.index;
    err := TrySequence(items, from, target);
    if err.Some? { err := Some(ParseError(startingPos, ForceOnlyThisAlternativeFailed)); }
  }

  method TryAlternatives(items: seq<Clause>, from: Source, target: Cell) returns (err: Option<ParseError>)
    requires from.Valid()
    modifies from, target
    ensures from.Valid()
    ensures Agrees(PegAny(items, from.data, old(from.index), old(target.value)), old(from.index),
                   err, from.index, target.value)
    decreases items, 3
  {
    ghost var s, t := from.data, target.value;
    var startingPos := from.index;
    var actual: Option<ParseError> := None;
    var success := false;
    var i := 0;
    while i < |items| && !success
      invariant i <= |items| && from.Valid()
      invariant !success ==> from.index == startingPos && target.value == t
      invariant !success ==> PegAny(items, s, startingPos, t) == PegAny(items[i..], s, startingPos, t)
      invariant success && actual.None? ==> PegAny(items, s, startingPos, t) == Match(from.index, target.value)
      invariant success && actual.Some? ==> from.index == startingPos && target.value == t
      invariant success && actual.Some? ==>
        PegAny(items, s, startingPos, t) == Fail(ParseError(startingPos, NoAppropriateAlternative), t)
      decreases |items| - i, !success
    {
      assert items[i..][0] == items[i] && items[i..][1..] == items[i + 1..];
      var consumer := new ContentConsumer(from);
      var tmp := new Cell(target.value);
      actual := TryProcess(items[i], from, tmp);
      if actual.None? {
        target.value := tmp.value;
        consumer.Commit();
        success := true;
      } else {
        success := actual.value.reason.ForceOnlyThisAlternativeFailed?;
      }
      consumer.Leave();
      i := i + 1;
    }
    if !success || actual.Some? { return Some(ParseError(startingPos, NoAppropriateAlternative)); }
    return None;
  }

  method TryMaybe(items: seq<Clause>, from: Source, target: Cell) returns (err: Option<ParseError>)
    requires from.Valid()
    modifies from, target
    ensures from.Valid()
    ensures Agrees(Peg(Maybe(items), from.data, old(from.index), old(target.value)), old(from.index),
                   err, from.index, target.value)
    decreases items, 3
  {
    var consumer := new ContentConsumer(from);
    var tmp := new Cell(target.value);
    var inner := AllOf(items, from, tmp);
    if inner.None? {
      target.value := tmp.value;
      consumer.Commit();
    }
    consumer.Leave();
    return None;
  }

  method TryNot(items: seq<Clause>, from: Source) returns (err: Option<ParseError>)
    requires from.Valid()
    modifies from
    ensures from.Valid()
    ensures forall t :: Agrees(Peg(Not(items), from.data, old(from.index), t), old(from.index), err, from.index, t)
    decreases items, 3
  {
    var consumer := new ContentConsumer(from);
    var dummy := new Cell([]);
    var inner := AllOf(items, from, dummy);
    err := if inner.None? then Some(ParseError(consumer.startedAt, PatternNotFound)) else None;
    consumer.Leave();
  }

  method TryAnd(items: seq<Clause>, from: Source) returns (err: Option<ParseError>)
    requires from.Valid()
    modifies from
    ensures from.Valid()
    ensures forall t :: Agrees(Peg(And(items), from.data, old(from.index), t), old(from.index), err, from.index, t)
    decreases items, 3
  {
    var consumer := new ContentConsumer(from);
    var dummy := new Cell([]);
    var inner := AllOf(items, from, dummy);
    err := if inner.Some? then Some(ParseError(consumer.startedAt, PatternNotFound)) else None;
    consumer.Leave();
  }

  method TryRepeat(min: nat, max: nat, items: seq<Clause>, from: Source, target: Cell) returns (err: Option<ParseError>)
    requires from.Valid()
    modifies from, target
    ensures from.Valid()
    ensures Agrees(Peg(Repeat(min, max, items), from.data, old(from.index), old(target.value)), old(from.index),
                   err, from.index, target.value)
    decreases items, 3
  {
    ghost var s, p, t := from.data, from.index, target.value;
    var wholeConsumer := new ContentConsumer(from);
    var count := 0;
    var failureDetected := false;
    while !failureDetected && count != max
      invariant count <= max && from.Valid()
      invariant fresh(wholeConsumer) && !wholeConsumer.consumed
      invariant !failureDetected ==> var r := PegRepeat(items, s, from.index, target.value, max - count);
                  PegRepeat(items, s, p, t, max) == Repeated(count + r.count, r.pos, r.target)
      invariant failureDetected ==> PegRepeat(items, s, p, t, max) == Repeated(count, from.index, target.value)
      decreases max - count, !failureDetected
    {
      var itemConsumer := new ContentConsumer(from);
      var inner := AllOf(items, from, target);
      failureDetected := inner.Some?;
      if !failureDetected {
        itemConsumer.Commit();
        count := count + 1;
      }
      itemConsumer.Leave();
    }
    if count >= min {
      wholeConsumer.Commit();
      err := None;
    } else {
      err := Some(ParseError(from.index, PatternNotFound));
    }
    wholeConsumer.Leave();
  }

  /** A bare producer is the exception: failing at the second symbol, it keeps the first one read. */
  lemma {:induction false} ProducerDoesNotRollBack()
    ensures var c := Produce([Symbol(Exactly('a'), true), Symbol(Exactly('b'), true)]);
            Peg(c, "ac", 0, []).Fail? && Halt(c, "ac", 0) == 1 && Halt(Sequence([c]), "ac", 0) == 0
  {
    var items := [Symbol(Exactly('a'), true), Symbol(Exactly('b'), true)];
    assert items[1..] == [items[1]];
    assert Peg(items[0], "ac", 0, []) == Match(1, [Ch('a')]);
    assert PegAll(items, "ac", 0, []) == PegAll(items[1..], "ac", 1, [Ch('a')]);
    assert HaltAll(items, "ac", 0, []) == HaltAll(items[1..], "ac", 1, [Ch('a')]);
  }

  datatype Failing = Failing(item: nat, start: nat)

  /** Which item of a failing sequence of items fails, and where it starts. */
  function FailingItem(items: seq<Clause>, s: string, p: nat, t: Target): (f: Failing)
    requires p <= |s| && PegAll(items, s, p, t).Fail?
    ensures f.item < |items| && p <= f.start <= |s|
    decreases |items|
  {
    match Peg(items[0], s, p, t)
    case Fail(_, _) => Failing(0, p)
    case Match(p', t') => var f := FailingItem(items[1..], s, p', t'); Failing(f.item + 1, f.start)
  }

  /** It fails there, after the items before it have matched up to there. */
  lemma {:induction false} ItemFails(items: seq<Clause>, s: string, p: nat, t: Target)
    requires p <= |s| && PegAll(items, s, p, t).Fail?
    ensures var f := FailingItem(items, s, p, t); var before := PegAll(items[..f.item], s, p, t);
            && before.Match? && before.pos == f.start && Peg(items[f.item], s, f.start, before.target).Fail?
            && HaltAll(items, s, p, t) == Halt(items[f.item], s, f.start)
    decreases |items|
  {
    hide Peg, Halt;
    var first := Peg(items[0], s, p, t);
    if first.Match? {
      var rest := items[1..];
      var f := FailingItem(rest, s, first.pos, first.target);
      ItemFails(rest, s, first.pos, first.target);
      assert items[..f.item + 1][0] == items[0] && items[..f.item + 1][1..] == rest[..f.item] && rest[f.item] == items[f.item + 1];
    } else {
      assert items[..0] == [];
    }
  }

  /**
   A failing producer is back at its start if and only if the items before the failing one have
   consumed nothing and that one is itself back at its start.
   */
  lemma {:induction false} ProducerReturnsIff(items: seq<Clause>, s: string, p: nat)
    requires p <= |s| && PegAll(items, s, p, []).Fail?
    ensures var f := FailingItem(items, s, p, []);
            Halt(Produce(items), s, p) == p <==> f.start == p && Halt(items[f.item], s, p) == p
  {
    ItemFails(items, s, p, []);
  }

  // ------------------------------------------------------------- whole inputs

  function Trimmed(text: string): (s: string)
    ensures |s| <= |text| && s == text[..|s|]
    ensures s == [] || !IsSpace(s[|s| - 1])
    ensures forall k :: |s| <= k < |text| ==> IsSpace(text[k])
  {
    if text != [] && IsSpace(text[|text| - 1]) then Trimmed(text[..|text| - 1]) else text
  }

  method RemoveTrailingSpaces(from: string) returns (r: string)
    ensures r == Trimmed(from)
  {
    var s := |from|;
    while s != 0 && IsSpace(from[s - 1])
      invariant 0 <= s <= |from| && Trimmed(from) == Trimmed(from[..s])
    {
      assert from[..s][..s - 1] == from[..s - 1];
      s := s - 1;
    }
    r := from[..s];
  }

  method EnsureNoRemainingContent(from: Source) returns (err: Option<ParseError>)
    requires from.Valid()
    modifies from
    ensures from.Valid()
    ensures err == None <==> forall k :: old(from.index) <= k < |from.data| ==> IsSpace(from.data[k])
    ensures err.Some? ==> err == Some(ParseError(from.index, UnconsumedInput)) && old(from.index) <= from.index < |from.data|
                          && !IsSpace(from.data[from.index])
                          && forall k :: old(from.index) <= k < from.index ==> IsSpace(from.data[k])
  {
    while !from.Eof()
      invariant from.Valid() && old(from.index) <= from.index
      invariant forall k :: old(from.index) <= k < from.index ==> IsSpace(from.data[k])
      decreases |from.data| - from.index
    {
      var ch := from.Getch();
      if !IsSpace(ch.value) {
        from.Putback();
        return Some(ParseError(from.index, UnconsumedInput));
      }
    }
    return None;
  }

  /**
   try_parse with a top level producer: it succeeds exactly when the producer matches the
   trimmed text up to its very end; otherwise it reports the producer's own failure, or
   the first character left over that is not a space.
   */
  method TryParse(text: string, items: seq<Clause>) returns (r: Result<Target, ParseError>)
    ensures var s := Trimmed(text);
            match PegAll(items, s, 0, [])
            case Fail(e, _) => r == Err(e)
            case Match(p, v) =>
              if p == |s| then r == Ok(v)
              else r.Err? && r.error.reason == UnconsumedInput && p <= r.error.position < |s|
                   && !IsSpace(s[r.error.position]) && forall k :: p <= k < r.error.position ==> IsSpace(s[k])
  {
    var s := RemoveTrailingSpaces(text);
    assert s != [] ==> !IsSpace(s[|s| - 1]);
    var source := new Source(s);
    var value := new Cell([]);
    var err := AllOf(items, source, value);
    if err.Some? { return Err(err.value); }
    ghost var p := source.index;
    err := EnsureNoRemainingContent(source);
    if err.Some? { return Err(err.value); }
    return Ok(value.value);
  }
}
