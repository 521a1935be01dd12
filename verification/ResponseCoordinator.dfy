/**
 libs/restinio/impl/response_coordinator.hpp: the ring of response contexts and the
 coordinator over it, updated in place. Both are proved against PipelineSpec.
 */
module ResponseCoordinator {
  import opened Wrappers
  import opened WriteGroups
  import opened PipelineSpec

  function Wrap(x: nat, n: nat): nat
    requires 0 < n
  {
    x % n
  }

  lemma {:induction false} WrapOnce(x: nat, n: nat)
    requires 0 < n && x < 2 * n
    ensures Wrap(x, n) == if x < n then x else x - n
  {
    if x < n {
    } else {
      assert x == 1 * n + (x - n);
    }
  }

  /** The id that the request after the newest one gets. */
  predicate Follows(queue: seq<Context>, counter: nat) {
    counter < REQUEST_IDS && (queue != [] ==> counter == IdOf(queue[0].id + |queue|))
  }

  lemma {:induction false} NumberedPush(queue: seq<Context>, ctx: Context)
    requires Numbered(queue) && Follows(queue, ctx.id)
    ensures Numbered(queue + [ctx]) && Follows(queue + [ctx], IdOf(ctx.id + 1))
  {
    var queue' := queue + [ctx];
    assert queue == [] ==> ctx.id == IdOf(ctx.id);
    hide IdOf;
    if queue != [] {
      assert queue'[0] == queue[0];
      IdOfShift(queue[0].id + |queue|, 1);
    }
    forall i | 0 <= i < |queue'| ensures queue'[i].id == IdOf(queue'[0].id + i) {
      if i < |queue| { assert queue'[i] == queue[i]; }
    }
  }

  lemma {:induction false} NumberedUpdate(queue: seq<Context>, at: nat, ctx: Context)
    requires Numbered(queue) && at < |queue| && ctx.id == queue[at].id
    ensures Numbered(queue[at := ctx])
  {
    hide IdOf;
    var queue' := queue[at := ctx];
    forall i | 0 <= i < |queue'| ensures queue'[i].id == IdOf(queue'[0].id + i) {
      assert queue[i].id == IdOf(queue[0].id + i);
    }
  }

  lemma {:induction false} NumberedDrop(queue: seq<Context>, counter: nat)
    requires Numbered(queue) && queue != [] && Follows(queue, counter)
    ensures Numbered(queue[1..]) && Follows(queue[1..], counter)
  {
    hide IdOf;
    var queue' := queue[1..];
    forall i | 0 <= i < |queue'| ensures queue'[i].id == IdOf(queue'[0].id + i) {
      assert queue[i + 1].id == IdOf(queue[0].id + (i + 1)) && queue[1].id == IdOf(queue[0].id + 1);
      IdOfShift(queue[0].id + 1, i);
    }
    if queue' != [] {
      assert queue[1].id == IdOf(queue[0].id + 1);
      IdOfShift(queue[0].id + 1, |queue'|);
    }
  }

  /** An id between the oldest and the newest one is in flight: there is no gap. */
  lemma {:induction false} NumberedSpan(queue: seq<Context>, id: nat)
    requires Numbered(queue) && queue != [] && queue[0].id <= id <= queue[|queue| - 1].id
    ensures id - queue[0].id < |queue|
  {
    hide IdOf;
    var last := |queue| - 1;
    assert queue[0].id == IdOf(queue[0].id) && queue[last].id == IdOf(queue[0].id + last);
    IdOfSum(queue[0].id, last);
  }

  /** m_contexts is a fixed-size ring; slots outside the window are kept for reuse. */
  class ContextTable {
    const contexts: array<Context>
    var first: nat
    var used: nat

    /** Is slot `j` inside the window of `used` slots that starts at `first`? */
    predicate Used(j: int)
      reads this
    {
      first <= j < first + used || j + contexts.Length < first + used
    }

    ghost predicate Shape()
      reads this
    {
      && used <= contexts.Length
      && first <= contexts.Length
      && (contexts.Length > 0 ==> first < contexts.Length)
    }

    /** Free slots never hold write groups: reinit() does not clear them. */
    ghost predicate Valid()
      reads this, contexts
      ensures Valid() ==> Shape()
    {
      && Shape()
      && (forall j :: 0 <= j < contexts.Length && !Used(j) ==> contexts[j].groups == [])
    }

    /** The contexts in flight, oldest first. */
    ghost function Queue(): seq<Context>
      reads this, contexts
      requires Shape()
    {
      if first + used <= contexts.Length then contexts[first..first + used]
      else contexts[first..] + contexts[..first + used - contexts.Length]
    }

    /** The slot of the i-th context in flight. */
    function Slot(i: nat): nat
      reads this
      requires 0 < contexts.Length
    {
      Wrap(first + i, contexts.Length)
    }

    /** Slot number `slot` is a reference to the i-th context in flight. */
    ghost predicate Holds(slot: nat, i: nat)
      reads this, contexts
      requires Valid()
    {
      slot < contexts.Length && i < used && slot == Slot(i) && i < |Queue()| && contexts[slot] == Queue()[i]
    }

    lemma {:induction false} QueueLength()
      requires Shape()
      ensures |Queue()| == used
    {
    }

    lemma {:induction false} SlotHolds(i: nat)
      requires Valid() && i < used
      ensures Slot(i) < contexts.Length && Used(Slot(i)) && |Queue()| == used && Queue()[i] == contexts[Slot(i)]
      ensures Slot(i) == if first + i < contexts.Length then first + i else first + i - contexts.Length
    {
      hide Wrap;
      WrapOnce(first + i, contexts.Length);
    }

    constructor (capacity: nat)
      ensures Valid() && Queue() == [] && contexts.Length == capacity && fresh(contexts)
    {
      contexts := new Context[capacity](_ => Context(0, [], false, false));
      first, used := 0, 0;
    }

    method Empty() returns (r: bool)
      requires Valid()
      ensures r <==> Queue() == []
      ensures used == |Queue()|
    {
      r := used == 0;
    }

    method IsFull() returns (r: bool)
      requires Valid()
      ensures r <==> |Queue()| == contexts.Length
      ensures |Queue()| == used <= contexts.Length
    {
      r := contexts.Length == used;
    }

    method Front() returns (ctx: Context)
      requires Valid() && Queue() != []
      ensures ctx == Queue()[0]
    {
      SlotHolds(0);
      ctx := contexts[first];
    }

    /** The slot of the context of a request, if it is among those in flight. */
    method GetByReqId(id: nat) returns (slot: Option<nat>)
      requires Valid() && Numbered(Queue())
      ensures slot.Some? <==> Lookup(Queue(), id).Some?
      ensures slot.Some? ==>
                && slot.value < contexts.Length
                && Holds(slot.value, Lookup(Queue(), id).value)
    {
      hide Numbered, ContextTable.Queue, Wrap, ContextTable.Used;
      var empty := Empty();
      if empty {
        return None;
      }
      SlotHolds(0);
      SlotHolds(used - 1);
      var front := contexts[first].id;
      var back := contexts[Wrap(first + (used - 1), contexts.Length)].id;
      if id < front || id > back {
        return None;
      }
      NumberedSpan(Queue(), id);
      SlotHolds(id - front);
      slot := Some(Wrap(first + (id - front), contexts.Length));
    }

    /** The first free slot. */
    ghost predicate IsNext(slot: nat)
      reads this
    {
      slot < contexts.Length && slot == if first + used < contexts.Length then first + used else first + used - contexts.Length
    }

    /** reinit() of a free slot: the id and the flags, not the groups. */
    method Reinit(slot: nat, id: nat)
      requires Valid() && slot < contexts.Length && !Used(slot)
      modifies contexts
      ensures Valid() && Queue() == old(Queue())
      ensures contexts[slot] == Context(id, [], false, false)
    {
      contexts[slot] := Context(id, contexts[slot].groups, false, false);
    }

    /** Takes the first free slot into the window. */
    method Extend(ghost slot: nat)
      requires Valid() && used < contexts.Length && IsNext(slot)
      modifies this`used
      ensures Valid() && Queue() == old(Queue()) + [contexts[slot]]
    {
      used := used + 1;
    }

    /** Puts a new context behind the last one; false when the ring is full. */
    method Push(id: nat) returns (ok: bool)
      requires Valid()
      modifies this, contexts
      ensures Valid() && ok == (|old(Queue())| < contexts.Length)
      ensures Queue() == if ok then old(Queue()) + [Context(id, [], false, false)] else old(Queue())
    {
      hide Wrap, ContextTable.Valid, ContextTable.Queue;
      var full := IsFull();
      if full {
        return false;
      }
      WrapOnce(first + used, contexts.Length);
      var next := Wrap(first + used, contexts.Length);
      Reinit(next, id);
      Extend(next);
      ok := true;
    }

    /** Moves the window on by one slot. */
    method DropFirst()
      requires Shape() && Queue() != []
      modifies this
      ensures Shape() && Queue() == old(Queue())[1..]
      ensures used == old(used) - 1 && first == if old(first) + 1 == contexts.Length then 0 else old(first) + 1
    {
      used := used - 1;
      first := first + 1;
      if contexts.Length == first {
        first := 0;
      }
    }

    /** Drops the oldest context; only if nothing is queued there any more, its slot is free of groups. */
    method PopFront()
      requires Valid() && Queue() != []
      modifies this
      ensures Shape() && Queue() == old(Queue())[1..]
      ensures Valid() <==> old(Queue())[0].groups == []
    {
      hide Wrap, ContextTable.Slot, ContextTable.Queue;
      ghost var freed := first;
      QueueLength();
      SlotHolds(0);
      DropFirst();
      assert !Used(freed);
    }

    /** Writes through a reference to the i-th context in flight. */
    method Update(ghost i: nat, slot: nat, ctx: Context)
      requires Valid() && Holds(slot, i)
      modifies contexts
      ensures Valid() && |old(Queue())| == |Queue()| && Queue() == old(Queue())[i := ctx]
    {
      SlotHolds(i);
      contexts[slot] := ctx;
    }

    method UpdateFront(ctx: Context)
      requires Valid() && Queue() != []
      modifies contexts
      ensures Valid() && Queue() == [ctx] + old(Queue())[1..]
    {
      SlotHolds(0);
      Update(0, first, ctx);
    }
  }

  lemma {:induction false} NoCallbacks()
    ensures QueueCallbacks([]) == multiset{}
  {
  }

  lemma {:induction false} DequeueCallbacks(queue: seq<Context>, ctx: Context)
    requires queue != [] && queue[0].groups != [] && ctx.groups == queue[0].groups[1..]
    ensures AllCallbacks(queue) == Callbacks(queue[0].groups[0].notificator) + AllCallbacks([ctx] + queue[1..])
  {
    QueueTokensFront(queue[0].groups);
    assert ([ctx] + queue[1..])[1..] == queue[1..];
  }

  class ResponseCoordinator {
    var counter: nat
    var closed: bool
    const table: ContextTable

    ghost predicate Valid()
      reads this, table, table.contexts
    {
      && table.Valid()
      && Numbered(table.Queue())
      && Follows(table.Queue(), counter)
    }

    ghost function State(): Coordinator
      reads this, table, table.contexts
      requires Valid()
    {
      Coordinator(counter, closed, table.Queue())
    }

    constructor (capacity: nat)
      ensures Valid() && State() == Coordinator(0, false, []) && table.contexts.Length == capacity
      ensures fresh(table) && fresh(table.contexts)
    {
      counter, closed := 0, false;
      table := new ContextTable(capacity);
    }

    /** Reserves a context for a new request; None when the table is full. */
    method RegisterNewRequest() returns (id: Option<nat>)
      requires Valid()
      modifies this, table, table.contexts
      ensures Valid()
      ensures id == if |old(State()).queue| < table.contexts.Length then Some(old(counter)) else None
      ensures State() == if id.Some? then Register(old(State())) else old(State())
    {
      hide ContextTable.Queue, ContextTable.Valid, Numbered;
      ghost var queue := table.Queue();
      var ok := table.Push(counter);
      if !ok {
        return None;
      }
      NumberedPush(queue, Context(counter, [], false, false));
      id := Some(counter);
      counter := IdOf(counter + 1);
    }

    method AppendResponse(id: nat, isFinal: bool, close: bool, wg: WriteGroup) returns (r: Result<(), AppendError>)
      requires Valid()
      modifies table.contexts
      ensures Valid()
      ensures match Append(old(State()), id, isFinal, close, wg)
              case Err(e) => r == Err(e) && State() == old(State())
              case Ok(c) => r.Ok? && State() == c
    {
      hide ContextTable.Queue, ContextTable.Valid, Numbered, Enqueue, Lookup;
      if closed {
        return Err(CoordinatorClosed);
      }
      var slot := table.GetByReqId(id);
      if slot.None? {
        return Err(UnknownRequest);
      }
      ghost var at := Lookup(table.Queue(), id).value;
      var ctx := table.contexts[slot.value];
      if ctx.isFinal {
        return Err(AlreadyComplete);
      }
      var ctx' := Context(ctx.id, Enqueue(ctx.groups, wg), isFinal, close);
      NumberedUpdate(table.Queue(), at, ctx');
      table.Update(at, slot.value, ctx');
      r := Ok(());
    }

    /** The next group of the oldest request, if it has one. */
    method PopReadyBuffers() returns (r: Result<Option<WriteGroup>, AppendError>)
      requires Valid()
      modifies this, table, table.contexts
      ensures Valid()
      ensures old(closed) ==> r == Err(CoordinatorClosed) && State() == old(State())
      ensures !old(closed) ==> r == Ok(Pop(old(State())).group) && State() == Pop(old(State())).coordinator
    {
      hide ContextTable.Queue, ContextTable.Valid, Numbered;
      if closed {
        return Err(CoordinatorClosed);
      }
      r := Ok(None);
      var empty := table.Empty();
      if !empty {
        var ctx := table.Front();
        if ctx.groups != [] {
          ghost var queue := table.Queue();
          var ctx' := ctx.(groups := ctx.groups[1..]);
          assert queue[0 := ctx'] == [ctx'] + queue[1..];
          NumberedUpdate(queue, 0, ctx');
          table.UpdateFront(ctx');
          r := Ok(Some(ctx.groups[0]));
          if ctx'.groups == [] && ctx'.isFinal {
            closed := ctx'.isFinal && ctx'.close;
            NumberedDrop(table.Queue(), counter);
            table.PopFront();
            assert table.Queue() == queue[1..];
          }
        }
      }
    }

    /** Drops all contexts; returns the callbacks told that nothing was written. */
    method Reset() returns (failed: seq<Callback>)
      requires Valid()
      modifies table, table.contexts
      ensures Valid() && State() == old(State()).(queue := [])
      ensures multiset(failed) == AllCallbacks(old(State()).queue)
    {
      hide ContextTable.Queue, ContextTable.Valid, Numbered, QueueCallbacks;
      failed := [];
      var empty := table.Empty();
      while !empty
        invariant Valid()
        invariant empty <==> table.Queue() == []
        invariant multiset(failed) + AllCallbacks(table.Queue()) == AllCallbacks(old(State()).queue)
        decreases |table.Queue()|
      {
        failed := FailFront(failed);
        ghost var queue := table.Queue();
        NumberedDrop(queue, counter);
        NoCallbacks();
        table.PopFront();
        empty := table.Empty();
      }
    }

    /** Dequeues every group of the oldest context, telling each callback about the failure. */
    method FailFront(before: seq<Callback>) returns (failed: seq<Callback>)
      requires Valid() && table.Queue() != []
      modifies table.contexts
      ensures Valid() && |table.Queue()| == |old(table.Queue())|
      ensures table.Queue()[0].groups == []
      ensures multiset(failed) + AllCallbacks(table.Queue()) == multiset(before) + AllCallbacks(old(table.Queue()))
    {
      hide ContextTable.Queue, ContextTable.Valid, Numbered, QueueCallbacks, AllCallbacks;
      failed := before;
      var ctx := table.Front();
      while ctx.groups != []
        invariant Valid() && |table.Queue()| == |old(table.Queue())| && ctx == table.Queue()[0]
        invariant multiset(failed) + AllCallbacks(table.Queue()) == multiset(before) + AllCallbacks(old(table.Queue()))
        decreases |ctx.groups|
      {
        ghost var queue := table.Queue();
        ghost var ctx' := ctx.(groups := ctx.groups[1..]);
        DequeueCallbacks(queue, ctx');
        NumberedUpdate(queue, 0, ctx');
        assert queue[0 := ctx'] == [ctx'] + queue[1..];
        table.UpdateFront(ctx.(groups := ctx.groups[1..]));
        if ctx.groups[0].notificator.Some? {
          failed := failed + [ctx.groups[0].notificator.value];
        }
        ctx := table.Front();
      }
    }
  }
}
