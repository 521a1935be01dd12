/** What every run of the pipelined response path keeps. */
module PipelineProof {
  import opened Sequences
  import opened Wrappers
  import opened WriteGroups
  import opened PipelineSpec

  // ----------------------------------------------------------- the invariant

  predicate OutputOk(o: Output) {
    match o.group
    case None => o.busy == 0
    case Some(wg) => o.busy <= o.next <= |wg.items|
  }

  /** What the current group still promises: its unwritten items and its callback. */
  function Rest(o: Output): seq<Token>
    requires OutputOk(o)
  {
    match o.group
    case None => []
    case Some(wg) => ItemTokens(wg.items[o.next - o.busy..]) + NotifyTokens(wg.notificator)
  }

  function LogCallbacks(log: seq<Token>): multiset<Callback> {
    if log == [] then multiset{}
    else
      var last := log[|log| - 1];
      LogCallbacks(log[..|log| - 1]) + (if last.Notified? then multiset{last.callback} else multiset{})
  }

  function OutputCallbacks(o: Output): multiset<Callback> {
    if o.group.Some? then Callbacks(o.group.value.notificator) else multiset{}
  }

  /** Observed, or on its way out. */
  function Base(c: Conn): seq<Token>
    requires OutputOk(c.output)
  {
    c.log + Rest(c.output)
  }

  function Front(c: Conn): int {
    |c.answers| - |c.coordinator.queue|
  }

  /** The contexts in flight are those of the newest of the `issued` requests; a context marked final still has a group, so it cannot stall the table. */
  ghost predicate QueueOk(queue: seq<Context>, issued: nat) {
    && |queue| <= issued
    && (forall i {:trigger queue[i]} :: 0 <= i < |queue| ==>
          queue[i].id == IdOf(issued - |queue| + i) && (queue[i].isFinal ==> queue[i].groups != []))
  }

  /** After `base`, every queued observation sits where its request's turn comes. */
  ghost predicate AlignedWith(base: seq<Token>, queue: seq<Context>, answers: seq<seq<Token>>)
    requires |queue| <= |answers|
  {
    var f := |answers| - |queue|;
    && (queue == [] ==> base == Concat(answers))
    && (queue != [] ==> base + QueueTokens(queue[0].groups) == Concat(answers[..f + 1]))
    && (forall i {:trigger queue[i]} :: 1 <= i < |queue| ==> QueueTokens(queue[i].groups) == answers[f + i])
  }

  ghost predicate WellQueued(c: Conn) {
    && c.coordinator.counter == IdOf(|c.answers|)
    && QueueOk(c.coordinator.queue, |c.answers|)
  }

  ghost predicate Aligned(c: Conn)
    requires OutputOk(c.output) && WellQueued(c)
  {
    AlignedWith(Base(c), c.coordinator.queue, c.answers)
  }

  /** Each submitted callback is pending or was invoked, once per submission. */
  ghost predicate Conserved(c: Conn) {
    c.submitted == c.failed + LogCallbacks(c.log) + OutputCallbacks(c.output) + AllCallbacks(c.coordinator.queue)
  }

  ghost predicate Core(c: Conn) {
    && OutputOk(c.output)
    && Conserved(c)
    && (c.isOpen ==> WellQueued(c) && Aligned(c) && (c.output.group.None? ==> c.output.next == 0))
    && (!c.isOpen ==> c.coordinator.queue == [] && Base(c) <= Concat(c.answers))
  }

  /** While open, not closed by a response and idle, the oldest request has nothing queued. */
  ghost predicate Idle(c: Conn) {
    && !c.coordinator.closed
    && (c.coordinator.queue == [] || c.coordinator.queue[0].groups == [])
  }

  ghost predicate Inv(c: Conn) {
    && Core(c)
    && (c.output.group.Some? ==> c.output.busy > 0)
    && (c.isOpen && c.output.group.None? ==> Idle(c))
  }

  // ------------------------------------------------------------- preservation

  lemma {:induction false} ItemTokensSplit(a: seq<Item>, b: seq<Item>)
    ensures ItemTokens(a + b) == ItemTokens(a) + ItemTokens(b)
  {
  }

  lemma {:induction false} LogItems(log: seq<Token>, items: seq<Item>)
    ensures LogCallbacks(log + ItemTokens(items)) == LogCallbacks(log)
    decreases |items|
  {
    if items == [] {
      assert log + ItemTokens(items) == log;
    } else {
      var init, last := items[..|items| - 1], items[|items| - 1];
      LogItems(log, init);
      var whole := log + ItemTokens(items);
      assert whole[..|whole| - 1] == log + ItemTokens(init);
    }
  }

  lemma {:induction false} LogNotify(log: seq<Token>, n: Option<Callback>)
    ensures LogCallbacks(log + NotifyTokens(n)) == LogCallbacks(log) + Callbacks(n)
  {
    var whole := log + NotifyTokens(n);
    if n.Some? {
      assert whole[..|whole| - 1] == log;
    } else {
      assert whole == log;
    }
  }

  lemma {:induction false} CloseCore(c: Conn)
    requires Core(c)
    ensures Core(Close(c)) && !Close(c).isOpen && Close(c).output == c.output
  {
    hide Concat, QueueTokens, LogCallbacks, ItemTokens;
    var c' := Close(c);
    assert Conserved(c');
    if c.isOpen {
      ConcatPrefix(c.answers, if c.coordinator.queue == [] then |c.answers| else Front(c) + 1);
      assert c.answers[..|c.answers|] == c.answers;
      assert Base(c') == Base(c);
      var queue := c.coordinator.queue;
      if queue != [] {
        assert Base(c) <= Base(c) + QueueTokens(queue[0].groups);
      }
    } else {
      assert c'.failed == c.failed;
    }
  }

  lemma {:induction false} FreshRest(wg: WriteGroup)
    ensures Rest(Output(Some(wg), 0, 0)) == GroupTokens(wg)
  {
    assert wg.items[0..] == wg.items;
  }

  /** The connection after pop_ready_buffers and start_next_write_group. */
  function Popping(c: Conn): Conn
    requires Pop(c.coordinator).group.Some?
  {
    c.(coordinator := Pop(c.coordinator).coordinator, output := Output(Pop(c.coordinator).group, c.output.next, 0))
  }

  lemma {:induction false} DropFrontAligned(base: seq<Token>, queue: seq<Context>, answers: seq<seq<Token>>)
    requires queue != [] && QueueOk(queue, |answers|) && AlignedWith(base, queue, answers)
    ensures QueueOk(queue[1..], |answers|)
    ensures AlignedWith(base + QueueTokens(queue[0].groups), queue[1..], answers)
  {
    hide Concat, QueueTokens;
    var f := |answers| - |queue|;
    var rest := queue[1..];
    assert forall i :: 0 <= i < |rest| ==> rest[i] == queue[i + 1];
    if rest == [] {
      assert answers[..f + 1] == answers;
    } else {
      ConcatSnoc(answers[..f + 1], answers[f + 1]);
      assert answers[..f + 1] + [answers[f + 1]] == answers[..f + 2];
      assert rest[0] == queue[1];
    }
  }

  lemma {:induction false} ReplaceFrontAligned(base: seq<Token>, queue: seq<Context>, answers: seq<seq<Token>>,
      base': seq<Token>, ctx: Context)
    requires queue != [] && QueueOk(queue, |answers|) && AlignedWith(base, queue, answers)
    requires ctx.id == queue[0].id && (ctx.isFinal ==> ctx.groups != [])
    requires base' + QueueTokens(ctx.groups) == base + QueueTokens(queue[0].groups)
    ensures QueueOk([ctx] + queue[1..], |answers|)
    ensures AlignedWith(base', [ctx] + queue[1..], answers)
  {
    hide Concat, QueueTokens;
    var queue' := [ctx] + queue[1..];
    assert forall i :: 1 <= i < |queue'| ==> queue'[i] == queue[i];
  }

  lemma {:induction false} PopAligned(base: seq<Token>, c: Coordinator, answers: seq<seq<Token>>)
    requires QueueOk(c.queue, |answers|) && AlignedWith(base, c.queue, answers) && Pop(c).group.Some?
    ensures QueueOk(Pop(c).coordinator.queue, |answers|)
    ensures AlignedWith(base + GroupTokens(Pop(c).group.value), Pop(c).coordinator.queue, answers)
  {
    hide Concat, QueueTokens, GroupTokens;
    var ctx := c.queue[0];
    var group, rest := ctx.groups[0], ctx.groups[1..];
    QueueTokensFront(ctx.groups);
    if rest == [] && ctx.isFinal {
      DropFrontAligned(base, c.queue, answers);
      NoTokens();
      assert GroupTokens(group) + [] == GroupTokens(group);
    } else {
      ReplaceFrontAligned(base, c.queue, answers, base + GroupTokens(group), ctx.(groups := rest));
    }
  }

  lemma {:induction false} NoTokens()
    ensures QueueTokens([]) == [] && QueueCallbacks([]) == multiset{}
  {
  }

  /** The callback of a group that is taken leaves the queue with it. */
  lemma {:induction false} PopCallbacks(c: Coordinator)
    requires Pop(c).group.Some?
    ensures AllCallbacks(c.queue) == Callbacks(Pop(c).group.value.notificator) + AllCallbacks(Pop(c).coordinator.queue)
  {
    hide QueueCallbacks, Callbacks;
    var ctx, rest, queue' := c.queue[0], c.queue[1..], Pop(c).coordinator.queue;
    QueueTokensFront(ctx.groups);
    NoTokens();
    if queue' != rest {
      assert queue'[1..] == rest;
    }
  }

  lemma {:induction false} PopConserved(c: Conn)
    requires Conserved(c) && c.output.group.None? && Pop(c.coordinator).group.Some?
    ensures Conserved(Popping(c))
  {
    hide AllCallbacks, LogCallbacks, Pop;
    PopCallbacks(c.coordinator);
  }

  lemma {:induction false} PopCore(c: Conn)
    requires Core(c) && c.isOpen && c.output.group.None? && Pop(c.coordinator).group.Some?
    ensures Core(Popping(c))
  {
    hide Concat, QueueTokens, GroupTokens, AllCallbacks, LogCallbacks, QueueCallbacks, ItemTokens;
    PopConserved(c);
    FreshRest(Pop(c.coordinator).group.value);
    assert c.log + [] == c.log;
    PopAligned(Base(c), c.coordinator, c.answers);
  }

  /** Continuing the current group: nothing is in flight. */
  lemma {:induction false} ContinueInv(c: Conn)
    requires Core(c) && c.output.group.Some? && c.output.busy == 0
    ensures Inv(Continue(c))
    decreases GroupCount(c.coordinator.queue), 2
  {
    hide Inv, Finish, BatchLength;
    var wg := c.output.group.value;
    if c.output.next < |wg.items| {
      BatchIsPositive(wg.items, c.output.next);
      BatchInv(c, BatchLength(wg.items, c.output.next));
    } else {
      FinishInv(c);
    }
  }

  /** The next operation is handed out. */
  lemma {:induction false} BatchInv(c: Conn, n: nat)
    requires Core(c) && c.output.group.Some? && c.output.busy == 0
    requires 0 < n <= |c.output.group.value.items| - c.output.next
    ensures Inv(c.(output := Output(c.output.group, c.output.next + n, n)))
  {
    hide Concat, QueueTokens, AllCallbacks, LogCallbacks, QueueCallbacks, ItemTokens;
    assert Base(c.(output := Output(c.output.group, c.output.next + n, n))) == Base(c);
  }

  lemma {:induction false} BatchIsPositive(items: seq<Item>, next: nat)
    requires next < |items|
    ensures 0 < BatchLength(items, next) <= |items| - next
  {
  }

  lemma {:induction false} FinishInv(c: Conn)
    requires Core(c) && c.output.group.Some? && c.output.busy == 0
    requires c.output.next == |c.output.group.value.items|
    ensures Inv(Finish(c))
    decreases GroupCount(c.coordinator.queue), 1
  {
    hide Concat, QueueTokens, AllCallbacks, LogCallbacks, QueueCallbacks, InitWrite;
    var wg := c.output.group.value;
    var c' := c.(log := c.log + NotifyTokens(wg.notificator), output := Output(None, 0, 0));
    assert wg.items[c.output.next..] == [];
    assert Rest(c.output) == NotifyTokens(wg.notificator);
    assert Base(c') == Base(c) by {
      assert c'.log + [] == c'.log;
    }
    LogNotify(c.log, wg.notificator);
    assert Core(c');
    if (wg.notificator.Some? && wg.notificator.value in c.faulty) || c.coordinator.closed {
      CloseCore(c');
    } else {
      InitWriteInv(c');
    }
  }

  lemma {:induction false} InitWriteInv(c: Conn)
    requires Core(c) && c.output.group.None? && !c.coordinator.closed
    ensures Inv(InitWrite(c))
    decreases GroupCount(c.coordinator.queue), 0
  {
    if Pop(c.coordinator).group.Some? {
      PopShrinks(c.coordinator);
      assert c.isOpen;
      PopCore(c);
      ContinueInv(Popping(c));
    }
  }

  lemma {:induction false} WriteDoneInv(c: Conn)
    requires Inv(c) && c.output.group.Some?
    ensures Inv(DoWriteDone(c))
  {
    hide Concat, QueueTokens, AllCallbacks, LogCallbacks, QueueCallbacks, ItemTokens, Continue;
    var o := c.output;
    var items := o.group.value.items;
    var written, left := items[o.next - o.busy..o.next], items[o.next..];
    assert items[o.next - o.busy..] == written + left;
    ItemTokensSplit(written, left);
    LogItems(c.log, written);
    var c' := c.(log := c.log + ItemTokens(written), output := o.(busy := 0));
    assert Base(c') == Base(c);
    ContinueInv(c');
  }

  lemma {:induction false} WriteErrorInv(c: Conn, aborted: bool)
    requires Inv(c) && Enabled(c, WriteError(aborted))
    ensures Inv(DoWriteError(c, aborted))
  {
    hide Concat, QueueTokens, AllCallbacks, LogCallbacks, QueueCallbacks, ItemTokens;
    var c' := if aborted then c else Close(c);
    CloseCore(c);
    assert !c'.isOpen && Core(c') && c'.output == c.output;
    var d := DoWriteError(c, aborted);
    assert Base(d) == c'.log by { assert c'.log + [] == c'.log; }
    assert c'.log <= Base(c');
    assert Conserved(d);
  }

  lemma {:induction false} ArriveAligned(base: seq<Token>, queue: seq<Context>, answers: seq<seq<Token>>, ctx: Context)
    requires QueueOk(queue, |answers|) && AlignedWith(base, queue, answers)
    requires ctx == Context(IdOf(|answers|), [], false, false)
    ensures QueueOk(queue + [ctx], |answers + [[]]|)
    ensures AlignedWith(base, queue + [ctx], answers + [[]])
  {
    hide Concat, QueueTokens, IdOf;
    var queue', answers' := queue + [ctx], answers + [[]];
    var f := |answers| - |queue|;
    NoTokens();
    ConcatSnoc(answers, []);
    assert forall i :: 0 <= i < |queue| ==> queue'[i] == queue[i];
    if queue == [] {
      assert answers'[..f + 1] == answers';
      assert base + [] == base && Concat(answers) + [] == Concat(answers);
    } else {
      assert answers'[..f + 1] == answers[..f + 1];
    }
  }

  lemma {:induction false} ArriveInv(c: Conn)
    requires Inv(c) && Enabled(c, Arrive)
    ensures Inv(DoArrive(c))
  {
    hide Concat, QueueTokens, GroupTokens, AllCallbacks, LogCallbacks, QueueCallbacks, ItemTokens, IdOf;
    var c' := DoArrive(c);
    var queue := c.coordinator.queue;
    IdOfShift(|c.answers|, 1);
    ArriveAligned(Base(c), queue, c.answers, Context(c.coordinator.counter, [], false, false));
    AllCallbacksSnoc(queue, Context(c.coordinator.counter, [], false, false));
    NoTokens();
    assert Base(c') == Base(c);
    assert queue != [] ==> c'.coordinator.queue[0] == queue[0];
  }

  lemma {:induction false} AllCallbacksSnoc(queue: seq<Context>, ctx: Context)
    ensures AllCallbacks(queue + [ctx]) == AllCallbacks(queue) + QueueCallbacks(ctx.groups)
    decreases |queue|
  {
    if queue == [] {
      assert [ctx][1..] == [];
    } else {
      assert (queue + [ctx])[1..] == queue[1..] + [ctx];
      AllCallbacksSnoc(queue[1..], ctx);
    }
  }

  lemma {:induction false} AllCallbacksUpdate(queue: seq<Context>, at: nat, ctx: Context, more: multiset<Callback>)
    requires at < |queue| && QueueCallbacks(ctx.groups) == QueueCallbacks(queue[at].groups) + more
    ensures AllCallbacks(queue[at := ctx]) == AllCallbacks(queue) + more
    decreases |queue|
  {
    if at == 0 {
      assert queue[0 := ctx][1..] == queue[1..];
    } else {
      assert queue[at := ctx][1..] == queue[1..][at - 1 := ctx];
      AllCallbacksUpdate(queue[1..], at - 1, ctx, more);
    }
  }

  /** The connection right after append_response accepted an answer. */
  function Appending(c: Conn, id: nat, isFinal: bool, close: bool, wg: WriteGroup): Conn
    requires Append(c.coordinator, id, isFinal, close, wg).Ok?
  {
    c.(submitted := c.submitted + Callbacks(wg.notificator),
       coordinator := Append(c.coordinator, id, isFinal, close, wg).value,
       answers := Record(c.answers, c.coordinator.queue, id, GroupTokens(wg)))
  }

  lemma {:induction false} AppendAligned(base: seq<Token>, queue: seq<Context>, answers: seq<seq<Token>>,
      at: nat, ctx: Context, more: seq<Token>)
    requires QueueOk(queue, |answers|) && AlignedWith(base, queue, answers)
    requires at < |queue| && ctx.id == queue[at].id && ctx.groups != []
    requires QueueTokens(ctx.groups) == QueueTokens(queue[at].groups) + more
    ensures QueueOk(queue[at := ctx], |answers|)
    ensures var k := |answers| - |queue| + at; AlignedWith(base, queue[at := ctx], answers[k := answers[k] + more])
  {
    hide Concat, QueueTokens, IdOf;
    var f := |answers| - |queue|;
    var k := f + at;
    var queue', answers' := queue[at := ctx], answers[k := answers[k] + more];
    assert forall i :: 0 <= i < |queue| && i != at ==> queue'[i] == queue[i] && answers'[f + i] == answers[f + i];
    if at == 0 {
      ConcatSnoc(answers[..f], answers[f]);
      ConcatSnoc(answers[..f], answers'[f]);
      assert answers[..f] + [answers[f]] == answers[..f + 1];
      assert answers[..f] + [answers'[f]] == answers'[..f + 1];
      AppendAssoc(base, QueueTokens(queue[0].groups), more);
      AppendAssoc(Concat(answers[..f]), answers[f], more);
    } else {
      assert answers'[..f + 1] == answers[..f + 1];
    }
  }

  lemma {:induction false} AppendAssoc(a: seq<Token>, b: seq<Token>, c: seq<Token>)
    ensures (a + b) + c == a + (b + c)
  {
  }

  lemma {:induction false} AppendCore(c: Conn, id: nat, isFinal: bool, close: bool, wg: WriteGroup)
    requires c.isOpen && Core(c) && Append(c.coordinator, id, isFinal, close, wg).Ok?
    ensures Core(Appending(c, id, isFinal, close, wg))
  {
    hide Concat, QueueTokens, GroupTokens, AllCallbacks, LogCallbacks, QueueCallbacks, ItemTokens, Enqueue, Lookup, IdOf;
    var queue := c.coordinator.queue;
    var at := Lookup(queue, id).value;
    var c' := Appending(c, id, isFinal, close, wg);
    var ctx := c'.coordinator.queue[at];
    EnqueueKeepsTokens(queue[at].groups, wg);
    AllCallbacksUpdate(queue, at, ctx, Callbacks(wg.notificator));
    AppendAligned(Base(c), queue, c.answers, at, ctx, GroupTokens(wg));
    assert Base(c') == Base(c);
  }

  lemma {:induction false} AnswerInv(c: Conn, id: nat, isFinal: bool, close: bool, wg: WriteGroup)
    requires Inv(c)
    ensures Inv(DoAnswer(c, id, isFinal, close, wg))
  {
    hide Concat, QueueTokens, GroupTokens, AllCallbacks, LogCallbacks, QueueCallbacks, ItemTokens, Enqueue, InitWrite, Lookup, IdOf;
    var refused := c.(submitted := c.submitted + Callbacks(wg.notificator),
                      failed := c.failed + Callbacks(wg.notificator));
    assert Base(refused) == Base(c);
    assert Core(refused);
    if c.isOpen && !c.coordinator.closed {
      if Append(c.coordinator, id, isFinal, close, wg).Ok? {
        AppendCore(c, id, isFinal, close, wg);
        if c.output.group.None? {
          InitWriteInv(Appending(c, id, isFinal, close, wg));
        }
      } else {
        CloseCore(refused);
      }
    }
  }

  lemma {:induction false} StepInv(c: Conn, s: Step)
    requires Inv(c) && Enabled(c, s)
    ensures Inv(Do(c, s))
  {
    match s
    case Arrive => ArriveInv(c);
    case Answer(id, isFinal, close, wg) => AnswerInv(c, id, isFinal, close, wg);
    case WriteDone => WriteDoneInv(c);
    case WriteError(aborted) => WriteErrorInv(c, aborted);
    case Shutdown => CloseCore(c);
  }

  lemma {:induction false} RunFromInv(c: Conn, steps: seq<Step>)
    requires Inv(c)
    ensures Inv(RunFrom(c, steps))
    decreases |steps|
  {
    if steps != [] {
      var last := steps[|steps| - 1];
      var c' := RunFrom(c, steps[..|steps| - 1]);
      RunFromInv(c, steps[..|steps| - 1]);
      if Enabled(c', last) { StepInv(c', last); }
    }
  }

  lemma {:induction false} RunInv(capacity: nat, faulty: set<Callback>, steps: seq<Step>)
    ensures Inv(Run(capacity, faulty, steps))
  {
    RunFromInv(Fresh(capacity, faulty), steps);
  }

  // ---------------------------------------------------------------- theorems

  /** Everything handed to the socket: what was written, and the operation in flight. */
  function Handed(c: Conn): seq<Token>
    requires OutputOk(c.output)
  {
    match c.output.group
    case None => c.log
    case Some(wg) => c.log + ItemTokens(wg.items[c.output.next - c.output.busy..c.output.next])
  }

  lemma {:induction false} HandedIsPrefix(c: Conn)
    requires OutputOk(c.output)
    ensures Handed(c) <= Base(c)
  {
    if c.output.group.Some? {
      var o, items := c.output, c.output.group.value.items;
      assert items[o.next - o.busy..] == items[o.next - o.busy..o.next] + items[o.next..];
      ItemTokensSplit(items[o.next - o.busy..o.next], items[o.next..]);
    }
  }

  lemma {:induction false} BaseInOrder(c: Conn)
    requires Inv(c)
    ensures Base(c) <= Concat(c.answers)
  {
    if c.isOpen {
      var queue := c.coordinator.queue;
      if queue != [] {
        assert Base(c) <= Base(c) + QueueTokens(queue[0].groups);
        ConcatPrefix(c.answers, Front(c) + 1);
      }
    }
  }

  /**
   In every run the items handed to the socket and the callbacks told "success" come in
   request order, whatever the order of the answers: each callback after all items of its
   own group and of everything before it.
   */
  lemma {:induction false} WireInRequestOrder(capacity: nat, faulty: set<Callback>, steps: seq<Step>)
    ensures var c := Run(capacity, faulty, steps);
            OutputOk(c.output) && Handed(c) <= Concat(c.answers) && c.log <= Handed(c)
  {
    var c := Run(capacity, faulty, steps);
    RunInv(capacity, faulty, steps);
    HandedIsPrefix(c);
    BaseInOrder(c);
  }

  /**
   A connection that is open and idle has written everything answered up to and including the
   oldest request that is not answered in full; with none of those left, everything.
   */
  lemma {:induction false} IdleHasWrittenEverything(capacity: nat, faulty: set<Callback>, steps: seq<Step>)
    ensures var c := Run(capacity, faulty, steps);
            var complete := |c.answers| - |c.coordinator.queue|;
            c.isOpen && c.output.group.None? ==>
              0 <= complete &&
              c.log == Concat(if c.coordinator.queue == [] then c.answers else c.answers[..complete + 1])
  {
    var c := Run(capacity, faulty, steps);
    RunInv(capacity, faulty, steps);
    if c.isOpen && c.output.group.None? {
      assert c.log + [] == c.log;
      NoTokens();
    }
  }

  /** While open, not closed by a response and not writing, nothing that could be written is waiting. */
  lemma {:induction false} NeverStalls(capacity: nat, faulty: set<Callback>, steps: seq<Step>)
    ensures var c := Run(capacity, faulty, steps);
            c.isOpen && c.output.group.None? ==>
              && !c.coordinator.closed
              && Pop(c.coordinator).group.None?
              && (c.coordinator.queue != [] ==> c.coordinator.queue[0].groups == [])
              && (forall ctx :: ctx in c.coordinator.queue && ctx.isFinal ==> ctx.groups != [])
  {
    RunInv(capacity, faulty, steps);
  }

  /** Only the answers per request matter: two runs that agree on them put the same stream on the wire. */
  lemma {:induction false} InterleavingIsIrrelevant(capacity: nat, faulty: set<Callback>, one: seq<Step>, two: seq<Step>)
    requires Run(capacity, faulty, one).answers == Run(capacity, faulty, two).answers
    ensures var c, d := Run(capacity, faulty, one), Run(capacity, faulty, two);
            OutputOk(c.output) && OutputOk(d.output) && (Handed(c) <= Handed(d) || Handed(d) <= Handed(c))
  {
    WireInRequestOrder(capacity, faulty, one);
    WireInRequestOrder(capacity, faulty, two);
  }

  /** No callback is invoked more often than it was submitted; once closed and drained, exactly as often. */
  lemma {:induction false} CallbacksAreInvokedOnce(capacity: nat, faulty: set<Callback>, steps: seq<Step>)
    ensures var c := Run(capacity, faulty, steps);
            && LogCallbacks(c.log) + c.failed <= c.submitted
            && (!c.isOpen && c.output.group.None? ==> LogCallbacks(c.log) + c.failed == c.submitted)
  {
    RunInv(capacity, faulty, steps);
  }

  /** Closed by a response: nothing beyond `limit` will ever be observed. */
  ghost predicate Frozen(c: Conn, limit: seq<Token>) {
    OutputOk(c.output) && c.coordinator.closed && Base(c) <= limit
  }

  lemma {:induction false} ContinueKeepsBase(c: Conn)
    requires OutputOk(c.output) && c.output.group.Some? && c.output.busy == 0 && c.coordinator.closed
    ensures OutputOk(Continue(c).output) && Base(Continue(c)) == Base(c) && Continue(c).coordinator.closed
  {
    hide Finish, NotifyTokens, ItemTokens;
    var items := c.output.group.value.items;
    if c.output.next < |items| {
      hide BatchLength;
      BatchIsPositive(items, c.output.next);
    } else {
      FinishKeepsBase(c);
    }
  }

  lemma {:induction false} FinishKeepsBase(c: Conn)
    requires OutputOk(c.output) && c.output.group.Some? && c.output.busy == 0 && c.coordinator.closed
    requires c.output.next == |c.output.group.value.items|
    ensures OutputOk(Finish(c).output) && Base(Finish(c)) == Base(c) && Finish(c).coordinator.closed
  {
    hide InitWrite, AllCallbacks;
    var wg := c.output.group.value;
    var c' := c.(log := c.log + NotifyTokens(wg.notificator), output := Output(None, 0, 0));
    assert wg.items[c.output.next..] == [] && ItemTokens([]) == [];
    assert Finish(c) == Close(c');
    assert Base(Finish(c)) == c'.log + [];
  }

  lemma {:induction false} WriteDoneKeepsBase(c: Conn)
    requires OutputOk(c.output) && c.output.group.Some? && c.coordinator.closed
    ensures var d := DoWriteDone(c); OutputOk(d.output) && Base(d) == Base(c) && d.coordinator.closed
  {
    hide Continue, AllCallbacks, ItemTokens;
    var o, items := c.output, c.output.group.value.items;
    var written, left := items[o.next - o.busy..o.next], items[o.next..];
    assert items[o.next - o.busy..] == written + left;
    ItemTokensSplit(written, left);
    var c' := c.(log := c.log + ItemTokens(written), output := o.(busy := 0));
    assert Base(c') == Base(c);
    ContinueKeepsBase(c');
  }

  lemma {:induction false} StepFrozen(c: Conn, s: Step, limit: seq<Token>)
    requires Inv(c) && Enabled(c, s) && Frozen(c, limit)
    ensures Frozen(Do(c, s), limit)
  {
    hide InitWrite, DoWriteDone, AllCallbacks, Concat, QueueTokens, LogCallbacks, QueueCallbacks;
    var d := Do(c, s);
    StepInv(c, s);
    hide Inv;
    if s.WriteDone? {
      WriteDoneKeepsBase(c);
    } else if s.WriteError? {
      assert Base(d) == c.log + [];
      assert c.log <= Base(c);
    } else {
      OthersKeepBase(c, s);
    }
  }

  lemma {:induction false} OthersKeepBase(c: Conn, s: Step)
    requires Enabled(c, s) && OutputOk(c.output) && c.coordinator.closed && !s.WriteDone? && !s.WriteError?
    ensures OutputOk(Do(c, s).output) && Base(Do(c, s)) == Base(c) && Do(c, s).coordinator.closed
  {
    hide InitWrite, AllCallbacks, Append, Callbacks, NotifyTokens, ItemTokens;
  }

  lemma {:induction false} RunFrozen(c: Conn, steps: seq<Step>, limit: seq<Token>)
    requires Inv(c) && Frozen(c, limit)
    ensures Frozen(RunFrom(c, steps), limit)
    decreases |steps|
  {
    if steps != [] {
      var init, last := steps[..|steps| - 1], steps[|steps| - 1];
      RunFrozen(c, init, limit);
      RunFromInv(c, init);
      if Enabled(RunFrom(c, init), last) { StepFrozen(RunFrom(c, init), last, limit); }
    }
  }

  /** Once the response marked final and connection-close was taken up, only its own group goes out. */
  lemma {:induction false} NothingAfterConnectionClose(capacity: nat, faulty: set<Callback>, steps: seq<Step>, more: seq<Step>)
    requires Run(capacity, faulty, steps).coordinator.closed
    ensures var c, d := Run(capacity, faulty, steps), RunFrom(Run(capacity, faulty, steps), more);
            OutputOk(c.output) && OutputOk(d.output) && Handed(d) <= Base(c)
  {
    var c := Run(capacity, faulty, steps);
    RunInv(capacity, faulty, steps);
    RunFrozen(c, more, Base(c));
    HandedIsPrefix(RunFrom(c, more));
  }

  /** No group starts once the connection is closed and drained, so the stale item index is never used. */
  lemma {:induction false} DrainedStaysDrained(c: Conn, steps: seq<Step>)
    requires Inv(c) && !c.isOpen && c.output.group.None?
    ensures var d := RunFrom(c, steps);
            !d.isOpen && d.output == c.output && d.log == c.log && d.answers == c.answers
    decreases |steps|
  {
    if steps != [] {
      DrainedStaysDrained(c, steps[..|steps| - 1]);
    }
  }

  // --------------------------------------------------- answers and their requests

  lemma {:induction false} QueueIsNumbered(queue: seq<Context>, issued: nat)
    requires QueueOk(queue, issued)
    ensures Numbered(queue)
  {
    hide IdOf;
    forall i | 0 <= i < |queue| ensures queue[i].id == IdOf(queue[0].id + i) {
      assert queue[i].id == IdOf(issued - |queue| + i) && queue[0].id == IdOf(issued - |queue|);
      IdOfShift(issued - |queue|, i);
    }
  }

  /** In every run the requests in flight can be found, and so answered, if and only if their ids have not wrapped. */
  lemma {:induction false} RequestsAreFoundUnlessWrapped(capacity: nat, faulty: set<Callback>, steps: seq<Step>)
    ensures var queue := Run(capacity, faulty, steps).coordinator.queue;
            (forall i: nat :: i < |queue| ==> Lookup(queue, queue[i].id) == Some(i)) <==> !Wrapped(queue)
  {
    hide Run, Wrapped, Inv, Numbered, Lookup;
    var c := Run(capacity, faulty, steps);
    RunInv(capacity, faulty, steps);
    InFlight(c);
    LookupFindsUnlessWrapped(c.coordinator.queue, 0);
  }

  lemma {:induction false} InFlight(c: Conn)
    requires Inv(c)
    ensures Numbered(c.coordinator.queue)
    ensures c.coordinator.queue != [] ==> c.isOpen && QueueOk(c.coordinator.queue, |c.answers|)
  {
    if c.coordinator.queue != [] { QueueIsNumbered(c.coordinator.queue, |c.answers|); }
  }

  /** An answer that is accepted is recorded for the request that its id names, counted from the first one on. */
  lemma {:induction false} AnswersReachTheirRequests(capacity: nat, faulty: set<Callback>, steps: seq<Step>,
      id: nat, isFinal: bool, close: bool, wg: WriteGroup)
    requires Append(Run(capacity, faulty, steps).coordinator, id, isFinal, close, wg).Ok?
    ensures var c := Run(capacity, faulty, steps);
            var k := |c.answers| - |c.coordinator.queue| + Lookup(c.coordinator.queue, id).value;
            && 0 <= k < |c.answers| && IdOf(k) == id
            && Record(c.answers, c.coordinator.queue, id, GroupTokens(wg)) == c.answers[k := c.answers[k] + GroupTokens(wg)]
  {
    hide Run, IdOf, Inv, QueueOk, Enqueue, GroupTokens, Numbered;
    var c := Run(capacity, faulty, steps);
    RunInv(capacity, faulty, steps);
    InFlight(c);
    FoundIdMatches(c.coordinator.queue, |c.answers|, id);
  }

  lemma {:induction false} FoundIdMatches(queue: seq<Context>, issued: nat, id: nat)
    requires QueueOk(queue, issued) && Lookup(queue, id).Some?
    ensures |queue| <= issued && IdOf(issued - |queue| + Lookup(queue, id).value) == id
  {
    hide IdOf;
    var at, last := Lookup(queue, id).value, |queue| - 1;
    assert queue[0].id == IdOf(issued - |queue|) && queue[last].id == IdOf(issued - |queue| + last);
    IdOfShift(issued - |queue|, at);
    IdOfSum(queue[0].id, at);
  }

  // ------------------------------------------------------- a run that wraps the ids

  const NOTHING := WriteGroup([], 0, None)

  /** `n` requests, each answered in full with nothing to write before the next one arrives. */
  function Served(n: nat): (steps: seq<Step>) {
    if n == 0 then [] else Served(n - 1) + [Arrive, Answer(IdOf(n - 1), true, false, NOTHING)]
  }

  ghost predicate Rests(c: Conn, n: nat) {
    && c.isOpen && |c.answers| == n
    && c.coordinator == Coordinator(IdOf(n), false, [])
    && c.output == Output(None, 0, 0)
  }

  lemma {:induction false} RunFromSnoc(c: Conn, steps: seq<Step>, s: Step)
    ensures var d := RunFrom(c, steps); RunFrom(c, steps + [s]) == if Enabled(d, s) then Do(d, s) else d
  {
    assert (steps + [s])[..|steps|] == steps;
  }

  lemma {:induction false} ServeOne(c: Conn, n: nat)
    requires Rests(c, n) && c.capacity > 0
    ensures Enabled(c, Arrive)
    ensures Rests(Do(Do(c, Arrive), Answer(IdOf(n), true, false, NOTHING)), n + 1)
    ensures Do(Do(c, Arrive), Answer(IdOf(n), true, false, NOTHING)).capacity == c.capacity
  {
    IdOfShift(n, 1);
    hide IdOf;
    var d := Do(c, Arrive);
    assert d.coordinator.queue == [Context(IdOf(n), [], false, false)];
    assert Lookup(d.coordinator.queue, IdOf(n)) == Some(0);
    AnswerNothing(d, IdOf(n));
  }

  /** An answer with nothing to write, to the one request in flight, completes it at once. */
  lemma {:induction false} AnswerNothing(c: Conn, id: nat)
    requires c.isOpen && !c.coordinator.closed && c.output == Output(None, 0, 0)
    requires c.coordinator.queue == [Context(id, [], false, false)]
    ensures var e := Do(c, Answer(id, true, false, NOTHING));
            && e.isOpen && |e.answers| == |c.answers| && e.capacity == c.capacity
            && e.coordinator == c.coordinator.(queue := []) && e.output == c.output
  {
    var queue, done := c.coordinator.queue, Context(id, [NOTHING], true, false);
    assert Lookup(queue, id) == Some(0) && queue[0 := done] == [done];
    assert Enqueue([], NOTHING) == [NOTHING];
    var accepted := c.coordinator.(queue := [done]);
    assert Append(c.coordinator, id, true, false, NOTHING) == Ok(accepted);
    assert Pop(accepted) == Popped(accepted.(queue := []), Some(NOTHING));
    var a := c.(submitted := c.submitted + Callbacks(None), coordinator := accepted,
                answers := Record(c.answers, queue, id, GroupTokens(NOTHING)));
    var p := a.(coordinator := accepted.(queue := []), output := Output(Some(NOTHING), 0, 0));
    assert InitWrite(a) == Continue(p) == Finish(p);
  }

  lemma {:induction false} ServedRests(capacity: nat, faulty: set<Callback>, n: nat)
    requires capacity > 0
    ensures Rests(Run(capacity, faulty, Served(n)), n) && Run(capacity, faulty, Served(n)).capacity == capacity
    decreases n
  {
    hide Do, IdOf, Rests;
    var start := Fresh(capacity, faulty);
    if n == 0 {
      FreshRests(capacity, faulty);
    } else {
      ServedRests(capacity, faulty, n - 1);
      var before := Served(n - 1);
      var c := RunFrom(start, before);
      ServeOne(c, n - 1);
      RunFromSnoc(start, before, Arrive);
      RunFromSnoc(start, before + [Arrive], Answer(IdOf(n - 1), true, false, NOTHING));
      assert before + [Arrive] + [Answer(IdOf(n - 1), true, false, NOTHING)] == Served(n);
    }
  }

  lemma {:induction false} FreshRests(capacity: nat, faulty: set<Callback>)
    ensures Rests(Run(capacity, faulty, []), 0) && Run(capacity, faulty, []).capacity == capacity
  {
  }

  /**
   With two requests in flight when the counter wraps, ids 2^32 - 1 and 0, neither can be answered:
   the answer is refused and closes the connection.
   */
  lemma {:induction false} WrappedRunCloses(capacity: nat, faulty: set<Callback>, isFinal: bool, close: bool, wg: WriteGroup)
    requires capacity >= 2
    ensures var c := Run(capacity, faulty, Served(0xFFFF_FFFF) + [Arrive] + [Arrive]);
            && c.isOpen && |c.coordinator.queue| == 2
            && c.coordinator.queue[0].id == 0xFFFF_FFFF && c.coordinator.queue[1].id == 0
            && !Do(c, Answer(0xFFFF_FFFF, isFinal, close, wg)).isOpen
            && !Do(c, Answer(0, isFinal, close, wg)).isOpen
  {
    var start, steps := Fresh(capacity, faulty), Served(0xFFFF_FFFF);
    ServedRests(capacity, faulty, 0xFFFF_FFFF);
    RunFromSnoc(start, steps, Arrive);
    RunFromSnoc(start, steps + [Arrive], Arrive);
    hide RunFrom, Served;
    TwoArrive(RunFrom(start, steps));
    var c := Run(capacity, faulty, steps + [Arrive] + [Arrive]);
    hide Run;
    assert Lookup(c.coordinator.queue, 0xFFFF_FFFF) == None && Lookup(c.coordinator.queue, 0) == None;
  }

  lemma {:induction false} TwoArrive(c: Conn)
    requires Rests(c, 0xFFFF_FFFF) && c.capacity >= 2
    ensures Enabled(c, Arrive) && Enabled(Do(c, Arrive), Arrive)
    ensures var d := Do(Do(c, Arrive), Arrive);
            d.isOpen && !d.coordinator.closed && d.coordinator.queue == [Context(0xFFFF_FFFF, [], false, false), Context(0, [], false, false)]
  {
    assert IdOf(0xFFFF_FFFF) == 0xFFFF_FFFF && IdOf(0xFFFF_FFFF + 1) == 0;
  }

  /**
   Why an aborted operation must mean a closed connection: on an open one the group fails, the
   index stays where it was, and the items of the next group are passed over.
   */
  lemma {:induction false} AbortWhileOpenLosesItems(a: Item, b: Item)
    requires a.Buffer? && b.Buffer?
    ensures var c := DoAnswer(DoArrive(Fresh(1, {})), 0, false, false, WriteGroup([a], 0, None));
            c.isOpen && c.output.group.Some? && !Enabled(c, WriteError(true))
    ensures var c := DoAnswer(DoArrive(Fresh(1, {})), 0, false, false, WriteGroup([a], 0, None));
            var d := DoWriteError(c, true);
            var e := DoAnswer(d, 0, false, false, WriteGroup([b], 0, None));
            && d.output == Output(None, 1, 0)
            && e.isOpen && e.output == Output(None, 0, 0)
            && e.answers == [[Sent(a), Sent(b)]] && e.log == []
  {
    var first, second := WriteGroup([a], 0, None), WriteGroup([b], 0, None);
    var r := DoArrive(Fresh(1, {}));
    assert r.coordinator.queue == [Context(0, [], false, false)];
    AnswerToIdle(r, first);
    assert BufferRun([a], 1, MAX_IOV_LEN - 1) == 0;
    var c := DoAnswer(r, 0, false, false, first);
    assert c.isOpen && c.output == Output(Some(first), 1, 1);
    var d := DoWriteError(c, true);
    assert GroupTokens(first) == [Sent(a)] && GroupTokens(second) == [Sent(b)];
    assert r.answers == [[]] && [] + [Sent(a)] == [Sent(a)];
    assert d.answers == [[Sent(a)]];
    AnswerIsPassedOver(d, second);
    assert [Sent(a)] + [Sent(b)] == [Sent(a), Sent(b)];
  }

  /** With the index beyond its items, a group without callback is finished before any of it is written. */
  lemma {:induction false} AnswerIsPassedOver(c: Conn, wg: WriteGroup)
    requires c.isOpen && !c.coordinator.closed && c.output.group.None? && |c.answers| == 1
    requires c.coordinator.queue == [Context(0, [], false, false)]
    requires c.output.next >= |wg.items| && wg.notificator.None?
    ensures DoAnswer(c, 0, false, false, wg) == c.(answers := [c.answers[0] + GroupTokens(wg)], output := Output(None, 0, 0))
  {
    hide GroupTokens, DoAnswer;
    AnswerToIdle(c, wg);
    var x := c.(answers := [c.answers[0] + GroupTokens(wg)], output := Output(Some(wg), c.output.next, 0));
    var e := x.(output := Output(None, 0, 0));
    assert c.log + [] == c.log && c.submitted + multiset{} == c.submitted;
    assert Continue(x) == Finish(x) == InitWrite(e) == e;
  }

  /** An answer to the one request in flight of an idle connection starts its group. */
  lemma {:induction false} AnswerToIdle(c: Conn, wg: WriteGroup)
    requires c.isOpen && !c.coordinator.closed && c.output.group.None? && |c.answers| == 1
    requires c.coordinator.queue == [Context(0, [], false, false)]
    ensures DoAnswer(c, 0, false, false, wg) ==
            Continue(c.(submitted := c.submitted + Callbacks(wg.notificator),
                        answers := [c.answers[0] + GroupTokens(wg)],
                        output := Output(Some(wg), c.output.next, 0)))
  {
    hide GroupTokens, Callbacks, Continue;
    var queue, filled := c.coordinator.queue, Context(0, [wg], false, false);
    assert Lookup(queue, 0) == Some(0) && queue[0 := filled] == [filled];
    assert Enqueue([], wg) == [wg];
    var accepted := c.coordinator.(queue := [filled]);
    assert Append(c.coordinator, 0, false, false, wg) == Ok(accepted);
    assert [wg][1..] == [] && [filled][1..] == [] && [Context(0, [], false, false)] + [] == queue;
    assert Pop(accepted) == Popped(c.coordinator, Some(wg));
    assert Record(c.answers, queue, 0, GroupTokens(wg)) == [c.answers[0] + GroupTokens(wg)];
  }
}
