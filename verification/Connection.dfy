/**
 The writing side of a connection: libs/restinio/impl/write_group_output_ctx.hpp and the
 write path of libs/restinio/impl/connection.hpp, updated in place. The methods are the
 steps of PipelineSpec; what all runs of those steps keep is proved in PipelineProof.
 */
module Connection {
  import opened Sequences
  import opened Wrappers
  import opened WriteGroups
  import opened PipelineSpec
  import opened ResponseCoordinator

  datatype Operation = NoneOp | TrivialOp(bufs: seq<Item>) | FileOp(file: Item)

  /** The successive operations that write `items` from position `from` on. */
  function Operations(items: seq<Item>, from: nat): seq<seq<Item>>
    requires from <= |items|
    decreases |items| - from
  {
    if from == |items| then []
    else
      BatchFits(items, from);
      [items[from..from + BatchLength(items, from)]] + Operations(items, from + BatchLength(items, from))
  }

  lemma {:induction false} BatchFits(items: seq<Item>, from: nat)
    requires from < |items|
    ensures 0 < BatchLength(items, from) <= |items| - from
  {
    assert items[from].Buffer? ==> BufferRun(items, from, MAX_IOV_LEN) > 0;
  }

  lemma {:induction false} BufferRunStep(items: seq<Item>, from: nat, limit: nat)
    requires from <= |items|
    ensures BufferRun(items, from, limit)
         == if limit == 0 || from == |items| || items[from].File? then 0 else 1 + BufferRun(items, from + 1, limit - 1)
  {
  }

  predicate IsOperation(op: seq<Item>) {
    && op != []
    && (op[0].File? ==> |op| == 1)
    && (op[0].Buffer? ==> |op| <= MAX_IOV_LEN && forall i :: 0 <= i < |op| ==> op[i].Buffer?)
  }

  /** The operations partition the items in order; each is one file or 1 to MAX_IOV_LEN buffers. */
  lemma {:induction false} OperationsPartition(items: seq<Item>, from: nat)
    requires from <= |items|
    ensures Concat(Operations(items, from)) == items[from..]
    ensures forall op :: op in Operations(items, from) ==> IsOperation(op)
    decreases |items| - from
  {
    hide BatchLength, IsOperation;
    if from < |items| {
      BatchIsOperation(items, from);
      var n := BatchLength(items, from);
      OperationsPartition(items, from + n);
      var ops, rest := Operations(items, from), Operations(items, from + n);
      assert ops == [items[from..from + n]] + rest;
      assert ops[1..] == rest;
      assert items[from..] == items[from..from + n] + items[from + n..];
    }
  }

  lemma {:induction false} BatchIsOperation(items: seq<Item>, from: nat)
    requires from < |items|
    ensures 0 < BatchLength(items, from) <= |items| - from
    ensures IsOperation(items[from..from + BatchLength(items, from)])
  {
    BatchFits(items, from);
  }

  /** Neighbouring buffers are written apart only when an operation is full. */
  lemma {:induction false} OperationsAreMaximal(items: seq<Item>, from: nat, k: nat)
    requires from <= |items| && k + 1 < |Operations(items, from)|
    ensures var ops := Operations(items, from);
            && ops[k] != [] && ops[k + 1] != []
            && (ops[k][0].Buffer? && ops[k + 1][0].Buffer? ==> |ops[k]| == MAX_IOV_LEN)
    decreases k
  {
    hide BatchLength;
    BatchBoundary(items, from);
    var n := BatchLength(items, from);
    var ops, rest := Operations(items, from), Operations(items, from + n);
    assert ops == [items[from..from + n]] + rest && ops[k + 1] == rest[k];
    if k > 0 {
      OperationsAreMaximal(items, from + n, k - 1);
      assert ops[k] == rest[k - 1];
    } else {
      BatchBoundary(items, from + n);
    }
  }

  lemma {:induction false} BatchBoundary(items: seq<Item>, from: nat)
    requires from < |items|
    ensures var n := BatchLength(items, from);
            && 0 < n <= |items| - from
            && (items[from].Buffer? && from + n < |items| && items[from + n].Buffer? ==> n == MAX_IOV_LEN)
  {
    BatchFits(items, from);
  }

  class WriteGroupOutputCtx {
    var currentWg: Option<WriteGroup>
    var nextWritableItemIndex: nat
    var asioBufs: seq<Item>

    constructor ()
      ensures currentWg == None && nextWritableItemIndex == 0
    {
      currentWg, nextWritableItemIndex, asioBufs := None, 0, [];
    }

    /** Does not touch the item index. */
    method StartNextWriteGroup(wg: WriteGroup)
      modifies this`currentWg
      ensures currentWg == Some(wg)
    {
      currentWg := Some(wg);
    }

    /** The next solid piece of the current group, or NoneOp when it is exhausted. */
    method ExtractNextWriteOperation() returns (op: Operation)
      requires currentWg.Some?
      modifies this`nextWritableItemIndex, this`asioBufs
      ensures var items, i := currentWg.value.items, old(nextWritableItemIndex);
              if i < |items| then
                && nextWritableItemIndex == i + BatchLength(items, i) <= |items|
                && op == if items[i].File? then FileOp(items[i]) else TrivialOp(items[i..nextWritableItemIndex])
              else
                op == NoneOp && nextWritableItemIndex == i
    {
      op := NoneOp;
      if nextWritableItemIndex < |currentWg.value.items| {
        BatchFits(currentWg.value.items, nextWritableItemIndex);
        if currentWg.value.items[nextWritableItemIndex].Buffer? {
          op := PrepareTrivialBuffers();
        } else {
          op := FileOp(currentWg.value.items[nextWritableItemIndex]);
          nextWritableItemIndex := nextWritableItemIndex + 1;
        }
      }
    }

    method PrepareTrivialBuffers() returns (op: Operation)
      requires currentWg.Some? && nextWritableItemIndex <= |currentWg.value.items|
      modifies this`nextWritableItemIndex, this`asioBufs
      ensures var items, i := currentWg.value.items, old(nextWritableItemIndex);
              && nextWritableItemIndex == i + BufferRun(items, i, MAX_IOV_LEN)
              && op == TrivialOp(items[i..nextWritableItemIndex])
    {
      hide BufferRun;
      asioBufs := [];
      var items := currentWg.value.items;
      ghost var start := nextWritableItemIndex;
      while nextWritableItemIndex < |items| && items[nextWritableItemIndex].Buffer? && MAX_IOV_LEN > |asioBufs|
        invariant start <= nextWritableItemIndex <= |items| && |asioBufs| <= MAX_IOV_LEN
        invariant asioBufs == items[start..nextWritableItemIndex]
        invariant start + BufferRun(items, start, MAX_IOV_LEN)
               == nextWritableItemIndex + BufferRun(items, nextWritableItemIndex, MAX_IOV_LEN - |asioBufs|)
        decreases |items| - nextWritableItemIndex
      {
        BufferRunStep(items, nextWritableItemIndex, MAX_IOV_LEN - |asioBufs|);
        assert items[start..nextWritableItemIndex + 1] == items[start..nextWritableItemIndex] + [items[nextWritableItemIndex]];
        asioBufs := asioBufs + [items[nextWritableItemIndex]];
        nextWritableItemIndex := nextWritableItemIndex + 1;
      }
      BufferRunStep(items, nextWritableItemIndex, MAX_IOV_LEN - |asioBufs|);
      op := TrivialOp(asioBufs);
    }

    /** Tells the callback "success" and forgets the group, also when the callback throws. */
    method FinishWriteGroup(faulty: set<Callback>) returns (told: Option<Callback>, threw: bool)
      requires currentWg.Some?
      modifies this
      ensures told == old(currentWg).value.notificator && threw == (told.Some? && told.value in faulty)
      ensures currentWg == None && nextWritableItemIndex == 0
    {
      told := currentWg.value.notificator;
      threw := told.Some? && told.value in faulty;
      currentWg, nextWritableItemIndex := None, 0;
    }

    /** Tells the callback an error; the index is reset only if the callback throws. */
    method FailWriteGroup(faulty: set<Callback>) returns (told: Option<Callback>)
      requires currentWg.Some?
      modifies this
      ensures told == old(currentWg).value.notificator && currentWg == None
      ensures nextWritableItemIndex == if told.Some? && told.value in faulty then 0 else old(nextWritableItemIndex)
    {
      told := currentWg.value.notificator;
      currentWg := None;
      if told.Some? && told.value in faulty {
        nextWritableItemIndex := 0;
      }
    }
  }

  datatype ErrorCode = Success | OperationAborted | OtherError

  class Connection {
    const faulty: set<Callback>
    const coordinator: ResponseCoordinator
    const output: WriteGroupOutputCtx
    var isOpen: bool
    ghost var busy: nat
    ghost var answers: seq<seq<Token>>
    ghost var log: seq<Token>
    ghost var submitted: multiset<Callback>
    ghost var failed: multiset<Callback>

    ghost const Repr: set<object> := {this, coordinator, coordinator.table, coordinator.table.contexts, output}

    ghost predicate Valid()
      reads Repr
    {
      && coordinator.Valid()
      && busy <= output.nextWritableItemIndex
      && (busy > 0 ==> output.currentWg.Some? && output.nextWritableItemIndex <= |output.currentWg.value.items|)
      && (!isOpen ==> coordinator.table.Queue() == [])
    }

    ghost function State(): Conn
      reads Repr
      requires Valid()
    {
      Conn(coordinator.table.contexts.Length, faulty, isOpen, coordinator.State(),
           Output(output.currentWg, output.nextWritableItemIndex, busy), answers, log, submitted, failed)
    }

    constructor (capacity: nat, faulty: set<Callback>)
      ensures Valid() && State() == Fresh(capacity, faulty) && fresh(Repr)
    {
      hide ContextTable.Valid, ContextTable.Queue, Numbered, Follows;
      this.faulty := faulty;
      coordinator := new ResponseCoordinator(capacity);
      output := new WriteGroupOutputCtx();
      isOpen, busy := true, 0;
      answers, log, submitted, failed := [], [], multiset{}, multiset{};
    }

    /** Closes the socket and tells the callbacks of everything still queued. */
    method Close()
      requires Valid()
      modifies Repr
      ensures Valid() && State() == PipelineSpec.Close(old(State()))
    {
      hide ContextTable.Valid, ContextTable.Queue, Numbered, Follows, AllCallbacks, BatchLength, BufferRun;
      isOpen := false;
      var told := coordinator.Reset();
      failed := failed + multiset(told);
    }

    method InitWrite()
      requires Valid() && output.currentWg.None? && !coordinator.closed
      modifies Repr
      ensures Valid() && State() == PipelineSpec.InitWrite(old(State()))
      decreases GroupCount(coordinator.table.Queue()), 0
    {
      hide ContextTable.Valid, ContextTable.Queue, Numbered, Follows, AllCallbacks, BatchLength, BufferRun;
      PopShrinks(coordinator.State());
      var r := coordinator.PopReadyBuffers();
      if r.value.Some? {
        output.StartNextWriteGroup(r.value.value);
        HandleCurrentWriteCtx();
      }
    }

    /** Starts the next operation of the current group, or finishes the group. */
    method HandleCurrentWriteCtx()
      requires Valid() && output.currentWg.Some? && busy == 0
      modifies Repr
      ensures Valid() && State() == Continue(old(State()))
      decreases GroupCount(coordinator.table.Queue()), 2
    {
      hide ContextTable.Valid, ContextTable.Queue, Numbered, Follows, AllCallbacks, BatchLength, BufferRun, Finish, GroupCount;
      ghost var from := output.nextWritableItemIndex;
      var op := output.ExtractNextWriteOperation();
      if op.NoneOp? {
        FinishHandlingCurrentWriteCtx();
      } else {
        busy := output.nextWritableItemIndex - from;
      }
    }

    method FinishHandlingCurrentWriteCtx()
      requires Valid() && output.currentWg.Some? && busy == 0
      modifies Repr
      ensures Valid() && State() == Finish(old(State()))
      decreases GroupCount(coordinator.table.Queue()), 1
    {
      hide ContextTable.Valid, ContextTable.Queue, Numbered, Follows, AllCallbacks, BatchLength, BufferRun, PipelineSpec.InitWrite, PipelineSpec.Close, GroupCount;
      var told, threw := output.FinishWriteGroup(faulty);
      log := log + NotifyTokens(told);
      if threw || coordinator.closed {
        Close();
      } else {
        InitWrite();
      }
    }

    /** A request was read and reserves its place in the pipeline. */
    method OnRequest()
      requires Valid() && Enabled(State(), Arrive)
      modifies Repr
      ensures Valid() && State() == Do(old(State()), Arrive)
    {
      var id := coordinator.RegisterNewRequest();
      answers := answers + [[]];
    }

    /** Runs the implementation; an exception from it closes the connection. */
    method WriteResponseParts(id: nat, isFinal: bool, close: bool, wg: WriteGroup)
      requires Valid()
      modifies Repr
      ensures Valid() && State() == Do(old(State()), Answer(id, isFinal, close, wg))
    {
      hide ContextTable.Valid, ContextTable.Queue, Numbered, Follows, AllCallbacks, Append, PipelineSpec.InitWrite;
      var threw := WriteResponsePartsImpl(id, isFinal, close, wg);
      if threw {
        Close();
      }
    }

    method WriteResponsePartsImpl(id: nat, isFinal: bool, close: bool, wg: WriteGroup) returns (threw: bool)
      requires Valid()
      modifies Repr
      ensures Valid()
      ensures threw <==> old(isOpen && !coordinator.closed) && Append(old(State()).coordinator, id, isFinal, close, wg).Err?
      ensures !threw ==> State() == DoAnswer(old(State()), id, isFinal, close, wg)
      ensures threw ==>
                State() == old(State()).(submitted := old(submitted) + Callbacks(wg.notificator),
                                         failed := old(failed) + Callbacks(wg.notificator))
    {
      hide ContextTable.Valid, ContextTable.Queue, Numbered, Follows, AllCallbacks, PipelineSpec.InitWrite;
      submitted := submitted + Callbacks(wg.notificator);
      threw := false;
      if isOpen && !coordinator.closed {
        threw := AppendOrDestroy(id, isFinal, close, wg);
        if !threw && output.currentWg.None? {
          InitWrite();
        }
      } else {
        failed := failed + Callbacks(wg.notificator);
      }
    }

    /** A group that cannot be appended is destroyed, which tells its callback. */
    method AppendOrDestroy(id: nat, isFinal: bool, close: bool, wg: WriteGroup) returns (threw: bool)
      requires Valid() && isOpen && !coordinator.closed
      modifies Repr
      ensures Valid()
      ensures match Append(old(State()).coordinator, id, isFinal, close, wg)
              case Err(_) => threw && State() == old(State()).(failed := old(failed) + Callbacks(wg.notificator))
              case Ok(c) =>
                && !threw
                && State() == old(State()).(
                     coordinator := c,
                     answers := Record(old(answers), old(State()).coordinator.queue, id, GroupTokens(wg)))
    {
      hide ContextTable.Valid, ContextTable.Queue, Numbered, Follows, Lookup, Enqueue, GroupTokens;
      ghost var queue := coordinator.table.Queue();
      var r := coordinator.AppendResponse(id, isFinal, close, wg);
      threw := r.Err?;
      if threw {
        failed := failed + Callbacks(wg.notificator);
      } else {
        answers := Record(answers, queue, id, GroupTokens(wg));
      }
    }

    /** The environment completes the operation in flight. */
    method AfterWrite(ec: ErrorCode)
      requires Valid() && output.currentWg.Some?
      modifies Repr
      ensures Valid()
      ensures State() == if ec.Success? then DoWriteDone(old(State())) else DoWriteError(old(State()), ec.OperationAborted?)
    {
      hide ContextTable.Valid, ContextTable.Queue, Numbered, Follows, DoWriteDone, DoWriteError;
      if ec.Success? {
        AfterWriteSuccess();
      } else {
        AfterWriteFailure(ec.OperationAborted?);
      }
    }

    method AfterWriteSuccess()
      requires Valid() && output.currentWg.Some?
      modifies Repr
      ensures Valid() && State() == DoWriteDone(old(State()))
    {
      hide ContextTable.Valid, ContextTable.Queue, Numbered, Follows, Continue, ItemTokens;
      ghost var items := output.currentWg.value.items;
      if output.nextWritableItemIndex <= |items| {
        log := log + ItemTokens(items[output.nextWritableItemIndex - busy..output.nextWritableItemIndex]);
      }
      busy := 0;
      HandleCurrentWriteCtx();
    }

    method AfterWriteFailure(aborted: bool)
      requires Valid() && output.currentWg.Some?
      modifies Repr
      ensures Valid() && State() == DoWriteError(old(State()), aborted)
    {
      hide ContextTable.Valid, ContextTable.Queue, Numbered, Follows, AllCallbacks;
      if !aborted {
        Close();
      }
      var told := output.FailWriteGroup(faulty);
      failed := failed + Callbacks(told);
      busy := 0;
    }
  }
}
