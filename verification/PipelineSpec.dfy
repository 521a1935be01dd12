/**
 The pipelined response path as one state machine: the response coordinator's bounded
 queue of contexts, the group being written, and the environment's atomic steps
 (a request arrives, a handler answers, a write completes or fails, the connection
 closes). The history variables record what was answered and what was observed.
 */
module PipelineSpec {
  import opened Wrappers
  import opened WriteGroups

  /** request_id_t is a 32-bit unsigned integer. */
  const REQUEST_IDS: nat := 0x1_0000_0000

  /** The most buffers one gather write takes. */
  const MAX_IOV_LEN: nat := 64

  // -------------------------------------------------------------- coordinator

  datatype Context = Context(id: nat, groups: seq<WriteGroup>, isFinal: bool, close: bool)

  datatype Coordinator = Coordinator(counter: nat, closed: bool, queue: seq<Context>)

  datatype AppendError = CoordinatorClosed | UnknownRequest | AlreadyComplete

  /** The id of the n-th request: ids are handed out one after the other, modulo 2^32. */
  function IdOf(n: nat): (id: nat)
    ensures id < REQUEST_IDS
  {
    n % REQUEST_IDS
  }

  function Register(c: Coordinator): Coordinator {
    c.(counter := IdOf(c.counter + 1), queue := c.queue + [Context(c.counter, [], false, false)])
  }

  /** get_by_req_id: the position of a request between the oldest and the newest one. */
  function Lookup(queue: seq<Context>, id: nat): (r: Option<nat>)
    ensures r.Some? ==> r.value < |queue|
  {
    if queue == [] || id < queue[0].id || id > queue[|queue| - 1].id || id - queue[0].id >= |queue| then None
    else Some(id - queue[0].id)
  }

  /** The i-th context in flight has the i-th id after the first one's. */
  ghost predicate Numbered(queue: seq<Context>) {
    forall i {:trigger queue[i]} :: 0 <= i < |queue| ==> queue[i].id == IdOf(queue[0].id + i)
  }

  ghost predicate Consecutive(queue: seq<Context>) {
    |queue| <= REQUEST_IDS && Numbered(queue)
  }

  /** Some id in flight lies beyond the last one there is, and so has become small again. */
  predicate Wrapped(queue: seq<Context>) {
    queue != [] && queue[0].id + |queue| > REQUEST_IDS
  }

  lemma {:induction false} IdOfSum(first: nat, i: nat)
    requires first < REQUEST_IDS
    ensures first + i < REQUEST_IDS ==> IdOf(first + i) == first + i
    ensures REQUEST_IDS <= first + i < 2 * REQUEST_IDS ==> IdOf(first + i) == first + i - REQUEST_IDS
  {
    if REQUEST_IDS <= first + i < 2 * REQUEST_IDS {
      assert first + i == REQUEST_IDS + (first + i - REQUEST_IDS);
    }
  }

  lemma {:induction false} IdOfShift(n: nat, i: nat)
    ensures IdOf(IdOf(n) + i) == IdOf(n + i)
  {
    assert n == (n / REQUEST_IDS) * REQUEST_IDS + IdOf(n);
    assert n + i == (n / REQUEST_IDS) * REQUEST_IDS + (IdOf(n) + i);
  }

  lemma {:induction false} UnwrappedIds(queue: seq<Context>, i: nat)
    requires Numbered(queue) && !Wrapped(queue) && i < |queue|
    ensures queue[i].id == queue[0].id + i
  {
    hide IdOf;
    assert queue[0].id == IdOf(queue[0].id);
    IdOfSum(queue[0].id, i);
  }

  lemma {:induction false} UnwrappedAreFound(queue: seq<Context>, id: nat)
    requires Numbered(queue) && !Wrapped(queue)
    ensures forall i: nat :: Lookup(queue, id) == Some(i) <==> i < |queue| && queue[i].id == id
  {
    hide Numbered;
    forall i: nat | i < |queue| ensures queue[i].id == queue[0].id + i { UnwrappedIds(queue, i); }
  }

  /** With at most as many contexts as ids, the newest id is then smaller than the oldest. */
  lemma {:induction false} WrappedAreNotFound(queue: seq<Context>, id: nat)
    requires Consecutive(queue) && Wrapped(queue)
    ensures queue[|queue| - 1].id < queue[0].id && Lookup(queue, id) == None
  {
    hide IdOf;
    assert queue[0].id == IdOf(queue[0].id);
    IdOfSum(queue[0].id, |queue| - 1);
  }

  lemma {:induction false} FullTurn(first: nat)
    requires first < REQUEST_IDS
    ensures IdOf(first + REQUEST_IDS) == first
  {
    IdOfSum(first, REQUEST_IDS);
  }

  lemma {:induction false} WrappedIsMissed(queue: seq<Context>) returns (i: nat)
    requires Numbered(queue) && Wrapped(queue)
    ensures i < |queue| && Lookup(queue, queue[i].id) != Some(i)
  {
    hide IdOf;
    if |queue| <= REQUEST_IDS {
      WrappedAreNotFound(queue, queue[0].id);
      i := 0;
    } else {
      assert queue[0].id == IdOf(queue[0].id);
      FullTurn(queue[0].id);
      i := REQUEST_IDS;
    }
  }

  /**
   A request in flight is found under its own id, and nothing else is, exactly while the
   ids in flight have not wrapped around; once they have, no request is found at all.
   */
  lemma {:induction false} LookupFindsUnlessWrapped(queue: seq<Context>, id: nat)
    requires Numbered(queue)
    ensures !Wrapped(queue) ==> forall i: nat :: Lookup(queue, id) == Some(i) <==> i < |queue| && queue[i].id == id
    ensures Wrapped(queue) && |queue| <= REQUEST_IDS ==> Lookup(queue, id) == None
    ensures (forall i: nat :: i < |queue| ==> Lookup(queue, queue[i].id) == Some(i)) <==> !Wrapped(queue)
  {
    hide Lookup, Numbered, Wrapped;
    if Wrapped(queue) {
      if |queue| <= REQUEST_IDS { WrappedAreNotFound(queue, id); }
      var i := WrappedIsMissed(queue);
    } else {
      UnwrappedAreFound(queue, id);
      forall i: nat | i < |queue| ensures Lookup(queue, queue[i].id) == Some(i) { UnwrappedAreFound(queue, queue[i].id); }
    }
  }

  function Append(c: Coordinator, id: nat, isFinal: bool, close: bool, wg: WriteGroup): Result<Coordinator, AppendError> {
    if c.closed then Err(CoordinatorClosed)
    else
      match Lookup(c.queue, id)
      case None => Err(UnknownRequest)
      case Some(at) =>
        var ctx := c.queue[at];
        if ctx.isFinal then Err(AlreadyComplete)
        else
          Ok(c.(queue := c.queue[at := Context(ctx.id, Enqueue(ctx.groups, wg), isFinal, close)]))
  }

  datatype Popped = Popped(coordinator: Coordinator, group: Option<WriteGroup>)

  function Pop(c: Coordinator): Popped {
    if c.queue == [] || c.queue[0].groups == [] then Popped(c, None)
    else
      var ctx := c.queue[0];
      var group, rest := ctx.groups[0], ctx.groups[1..];
      if rest == [] && ctx.isFinal then
        Popped(c.(closed := ctx.close, queue := c.queue[1..]), Some(group))
      else
        Popped(c.(queue := [ctx.(groups := rest)] + c.queue[1..]), Some(group))
  }

  function GroupCount(queue: seq<Context>): nat {
    if queue == [] then 0 else |queue[0].groups| + GroupCount(queue[1..])
  }

  lemma {:induction false} PopShrinks(c: Coordinator)
    ensures Pop(c).group.Some? ==> GroupCount(Pop(c).coordinator.queue) < GroupCount(c.queue)
  {
    if Pop(c).group.Some? {
      var queue' := Pop(c).coordinator.queue;
      if queue' != c.queue[1..] {
        assert queue'[1..] == c.queue[1..];
      }
    }
  }

  /** The callbacks that reset() tells about the failure. */
  function AllCallbacks(queue: seq<Context>): multiset<Callback> {
    if queue == [] then multiset{} else QueueCallbacks(queue[0].groups) + AllCallbacks(queue[1..])
  }

  // --------------------------------------------------------------- connection

  /** The group being written; its operation in flight covers the last `busy` items handed out. */
  datatype Output = Output(group: Option<WriteGroup>, next: nat, busy: nat)

  datatype Conn = Conn(
    capacity: nat,
    faulty: set<Callback>,            // callbacks that throw
    isOpen: bool,
    coordinator: Coordinator,
    output: Output,
    answers: seq<seq<Token>>,         // per request: what its accepted answers promise
    log: seq<Token>,                  // items written, callbacks told "success"
    submitted: multiset<Callback>,
    failed: multiset<Callback>)       // callbacks told an error

  /** How many items, from `next` on, go into one write operation. */
  function BatchLength(items: seq<Item>, next: nat): nat
    requires next < |items|
  {
    if items[next].File? then 1 else BufferRun(items, next, MAX_IOV_LEN)
  }

  function BufferRun(items: seq<Item>, from: nat, limit: nat): (n: nat)
    requires from <= |items|
    ensures n <= limit && from + n <= |items|
    ensures forall i :: from <= i < from + n ==> items[i].Buffer?
    ensures n < limit && from + n < |items| ==> items[from + n].File?
    decreases limit
  {
    if limit == 0 || from == |items| || items[from].File? then 0 else 1 + BufferRun(items, from + 1, limit - 1)
  }

  function Close(c: Conn): Conn {
    c.(isOpen := false,
       failed := c.failed + AllCallbacks(c.coordinator.queue),
       coordinator := c.coordinator.(queue := []))
  }

  /** Hands out the next operation of the current group, or finishes the group. */
  function Continue(c: Conn): Conn
    requires c.output.group.Some?
    decreases GroupCount(c.coordinator.queue), 2
  {
    var wg := c.output.group.value;
    if c.output.next < |wg.items| then
      var n := BatchLength(wg.items, c.output.next);
      c.(output := Output(Some(wg), c.output.next + n, n))
    else Finish(c)
  }

  function Finish(c: Conn): Conn
    requires c.output.group.Some?
    decreases GroupCount(c.coordinator.queue), 1
  {
    var notificator := c.output.group.value.notificator;
    var c' := c.(log := c.log + NotifyTokens(notificator), output := Output(None, 0, 0));
    if notificator.Some? && notificator.value in c.faulty then Close(c')
    else if c.coordinator.closed then Close(c')
    else InitWrite(c')
  }

  function InitWrite(c: Conn): Conn
    decreases GroupCount(c.coordinator.queue), 0
  {
    var popped := Pop(c.coordinator);
    if popped.group.None? then c
    else
      PopShrinks(c.coordinator);
      Continue(c.(coordinator := popped.coordinator, output := Output(popped.group, c.output.next, 0)))
  }

  datatype Step =
    | Arrive
    | Answer(id: nat, isFinal: bool, close: bool, wg: WriteGroup)
    | WriteDone
    | WriteError(aborted: bool)
    | Shutdown

  predicate Enabled(c: Conn, s: Step) {
    match s
    case Arrive => c.isOpen && |c.coordinator.queue| < c.capacity
    case Answer(_, _, _, _) => true
    case WriteDone => c.output.group.Some?
    // an operation is aborted only after the socket was closed
    case WriteError(aborted) => c.output.group.Some? && (aborted ==> !c.isOpen)
    case Shutdown => true
  }

  function DoArrive(c: Conn): Conn {
    c.(coordinator := Register(c.coordinator), answers := c.answers + [[]])
  }

  /** Adds to the answers of the request that `id` names: the ids in flight belong to the newest requests. */
  function Record(answers: seq<seq<Token>>, queue: seq<Context>, id: nat, more: seq<Token>): (r: seq<seq<Token>>) {
    match Lookup(queue, id)
    case None => answers
    case Some(at) =>
      var k := |answers| - |queue| + at;
      if 0 <= k < |answers| then answers[k := answers[k] + more] else answers
  }

  function DoAnswer(c: Conn, id: nat, isFinal: bool, close: bool, wg: WriteGroup): Conn {
    var c' := c.(submitted := c.submitted + Callbacks(wg.notificator));
    if !c.isOpen || c.coordinator.closed then c'.(failed := c.failed + Callbacks(wg.notificator))
    else
      match Append(c.coordinator, id, isFinal, close, wg)
      case Err(_) => Close(c'.(failed := c.failed + Callbacks(wg.notificator)))
      case Ok(coordinator) =>
        var c'' := c'.(coordinator := coordinator,
                       answers := Record(c.answers, c.coordinator.queue, id, GroupTokens(wg)));
        if c.output.group.None? then InitWrite(c'') else c''
  }

  /** The items of the operation that completed are written. */
  function DoWriteDone(c: Conn): Conn
    requires c.output.group.Some?
  {
    var items := c.output.group.value.items;
    var c' := if c.output.busy <= c.output.next <= |items|
              then c.(log := c.log + ItemTokens(items[c.output.next - c.output.busy..c.output.next]))
              else c;
    Continue(c'.(output := c.output.(busy := 0)))
  }

  /** The group fails; unless its callback throws, the item index keeps its stale value. */
  function DoWriteError(c: Conn, aborted: bool): Conn
    requires c.output.group.Some?
  {
    var c' := if aborted then c else Close(c);
    var notificator := c.output.group.value.notificator;
    var next := if notificator.Some? && notificator.value in c.faulty then 0 else c.output.next;
    c'.(failed := c'.failed + Callbacks(notificator), output := Output(None, next, 0))
  }

  function Do(c: Conn, s: Step): Conn
    requires Enabled(c, s)
  {
    match s
    case Arrive => DoArrive(c)
    case Answer(id, isFinal, close, wg) => DoAnswer(c, id, isFinal, close, wg)
    case WriteDone => DoWriteDone(c)
    case WriteError(aborted) => DoWriteError(c, aborted)
    case Shutdown => Close(c)
  }

  function Fresh(capacity: nat, faulty: set<Callback>): Conn {
    Conn(capacity, faulty, true, Coordinator(0, false, []), Output(None, 0, 0), [], [], multiset{}, multiset{})
  }

  /** A step that is not enabled does not happen. */
  function RunFrom(c: Conn, steps: seq<Step>): Conn {
    if steps == [] then c
    else
      var c' := RunFrom(c, steps[..|steps| - 1]);
      if Enabled(c', steps[|steps| - 1]) then Do(c', steps[|steps| - 1]) else c'
  }

  function Run(capacity: nat, faulty: set<Callback>, steps: seq<Step>): Conn {
    RunFrom(Fresh(capacity, faulty), steps)
  }
}
