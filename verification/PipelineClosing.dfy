/**
 When the pipelined response path accepts an answer and when it closes, in terms of the steps
 taken and the answers accepted rather than of the coordinator's own flags.
 */
module PipelineClosing {
  import opened Sequences
  import opened Wrappers
  import opened WriteGroups
  import opened PipelineSpec
  import opened PipelineProof

  // ------------------------------------------------------------- answers so far

  /** What the last accepted answer to a request said: is it complete, and is the connection to be closed? */
  datatype Flag = Flag(isFinal: bool, close: bool)

  predicate Accepted(c: Conn, s: Step) {
    s.Answer? && c.isOpen && Append(c.coordinator, s.id, s.isFinal, s.close, s.wg).Ok?
  }

  /** The request, counted from the first one on, that an id in flight belongs to. */
  function Named(c: Conn, id: nat): (k: int) {
    match Lookup(c.coordinator.queue, id)
    case None => -1
    case Some(at) => |c.answers| - |c.coordinator.queue| + at
  }

  function Told(flags: seq<Flag>, c: Conn, s: Step): (r: seq<Flag>) {
    if s.Arrive? && Enabled(c, s) then flags + [Flag(false, false)]
    else if Accepted(c, s) && 0 <= Named(c, s.id) < |flags| then flags[Named(c, s.id) := Flag(s.isFinal, s.close)]
    else flags
  }

  /** For each request of a run what its last accepted answer said. */
  function Flags(capacity: nat, faulty: set<Callback>, steps: seq<Step>): (flags: seq<Flag>) {
    if steps == [] then []
    else
      var before := steps[..|steps| - 1];
      Told(Flags(capacity, faulty, before), Run(capacity, faulty, before), steps[|steps| - 1])
  }

  predicate Closing(f: Flag) {
    f.isFinal && f.close
  }

  // ----------------------------------------------------------------- invariant

  /** The contexts carry the flags of the newest requests; those that have left were complete, and only the last of them may close. */
  ghost predicate OpenFlags(co: Coordinator, flags: seq<Flag>) {
    && |co.queue| <= |flags|
    && var f := |flags| - |co.queue|;
       && (forall i {:trigger co.queue[i]} :: 0 <= i < |co.queue| ==>
             co.queue[i].isFinal == flags[f + i].isFinal && co.queue[i].close == flags[f + i].close)
       && (forall k :: 0 <= k < f ==> flags[k].isFinal)
       && (forall k :: 0 <= k < f - 1 ==> !flags[k].close)
       && (co.closed <==> f > 0 && flags[f - 1].close)
  }

  ghost predicate Flagged(c: Conn, flags: seq<Flag>)
    requires OutputOk(c.output)
  {
    && |flags| == |c.answers|
    && (c.isOpen ==>
          && OpenFlags(c.coordinator, flags)
          && (c.coordinator.closed ==> Base(c) == Concat(c.answers[..|c.answers| - |c.coordinator.queue|])))
    && (!c.isOpen ==> forall k :: 0 <= k < |flags| && Closing(flags[k]) ==> Base(c) <= Concat(c.answers[..k + 1]))
  }

  lemma {:induction false} PrefixOfPrefix(answers: seq<seq<Token>>, m: nat, n: nat)
    requires m <= n <= |answers|
    ensures Concat(answers[..m]) <= Concat(answers[..n])
  {
    ConcatPrefix(answers[..n], m);
    assert answers[..n][..m] == answers[..m];
  }

  /** Nothing handed out or on its way lies beyond a closing response. */
  lemma {:induction false} NothingBeyond(c: Conn, flags: seq<Flag>, k: nat)
    requires Core(c) && Flagged(c, flags) && k < |flags| && Closing(flags[k])
    ensures Base(c) <= Concat(c.answers[..k + 1])
  {
    hide Concat, QueueTokens, Conserved, Rest, Base;
    if c.isOpen {
      var queue := c.coordinator.queue;
      var f := |c.answers| - |queue|;
      if k < f {
        assert k == f - 1 && c.coordinator.closed;
      } else {
        assert Base(c) <= Base(c) + QueueTokens(queue[0].groups);
        PrefixOfPrefix(c.answers, f + 1, k + 1);
      }
    }
  }

  lemma {:induction false} CloseFlagged(c: Conn, flags: seq<Flag>)
    requires Core(c) && Flagged(c, flags)
    ensures Flagged(Close(c), flags)
  {
    hide Concat, AllCallbacks, Conserved, OpenFlags;
    CloseCore(c);
    assert Base(Close(c)) == Base(c);
    forall k | 0 <= k < |flags| && Closing(flags[k]) ensures Base(c) <= Concat(c.answers[..k + 1]) {
      NothingBeyond(c, flags, k);
    }
  }

  lemma {:induction false} PopFlags(co: Coordinator, flags: seq<Flag>)
    requires OpenFlags(co, flags) && !co.closed && Pop(co).group.Some?
    ensures OpenFlags(Pop(co).coordinator, flags)
    ensures Pop(co).coordinator.closed ==>
              Pop(co).coordinator.queue == co.queue[1..] && co.queue[0].groups == [Pop(co).group.value]
  {
    hide OpenFlags;
    var ctx := co.queue[0];
    if ctx.groups[1..] == [] && ctx.isFinal {
      LeavingFlags(co, flags);
      assert ctx.groups == [ctx.groups[0]] + ctx.groups[1..];
    } else {
      ShrinkingFlags(co, flags, ctx.groups[1..]);
    }
  }

  /** A complete context leaves the table and may close the coordinator. */
  lemma {:induction false} LeavingFlags(co: Coordinator, flags: seq<Flag>)
    requires OpenFlags(co, flags) && !co.closed && co.queue != [] && co.queue[0].isFinal
    ensures OpenFlags(co.(closed := co.queue[0].close, queue := co.queue[1..]), flags)
  {
    var rest, f := co.queue[1..], |flags| - |co.queue|;
    assert forall i :: 0 <= i < |rest| ==> rest[i] == co.queue[i + 1];
    assert co.queue[0].isFinal == flags[f].isFinal;
  }

  lemma {:induction false} ShrinkingFlags(co: Coordinator, flags: seq<Flag>, groups: seq<WriteGroup>)
    requires OpenFlags(co, flags) && co.queue != []
    ensures OpenFlags(co.(queue := [co.queue[0].(groups := groups)] + co.queue[1..]), flags)
  {
    var queue' := [co.queue[0].(groups := groups)] + co.queue[1..];
    assert forall i :: 1 <= i < |queue'| ==> queue'[i] == co.queue[i];
  }

  lemma {:induction false} PopFlagged(c: Conn, flags: seq<Flag>)
    requires Core(c) && Flagged(c, flags) && c.isOpen && c.output.group.None? && !c.coordinator.closed
    requires Pop(c.coordinator).group.Some?
    ensures OutputOk(Popping(c).output) && Flagged(Popping(c), flags)
  {
    hide Concat, GroupTokens, Conserved, OpenFlags, QueueTokens;
    PopFlags(c.coordinator, flags);
    if Popping(c).coordinator.closed {
      var group := Pop(c.coordinator).group.value;
      FreshRest(group);
      OneGroup(group);
      assert c.log + [] == c.log;
    }
  }

  lemma {:induction false} OneGroup(group: WriteGroup)
    ensures QueueTokens([group]) == GroupTokens(group)
  {
    assert [group][..0] == [] && QueueTokens([]) == [];
  }

  lemma {:induction false} ContinueFlagged(c: Conn, flags: seq<Flag>)
    requires Core(c) && Flagged(c, flags) && c.output.group.Some? && c.output.busy == 0
    ensures OutputOk(Continue(c).output) && Flagged(Continue(c), flags)
    decreases GroupCount(c.coordinator.queue), 2
  {
    hide Finish, BatchLength, Concat, Conserved, OpenFlags, AlignedWith, QueueOk, ItemTokens, NotifyTokens;
    var wg := c.output.group.value;
    if c.output.next < |wg.items| {
      BatchIsPositive(wg.items, c.output.next);
      assert Base(Continue(c)) == Base(c);
    } else {
      FinishFlagged(c, flags);
    }
  }

  /** The connection after the callback of its finished group was told. */
  function Finished(c: Conn): Conn
    requires c.output.group.Some?
  {
    c.(log := c.log + NotifyTokens(c.output.group.value.notificator), output := Output(None, 0, 0))
  }

  lemma {:induction false} FinishedCore(c: Conn)
    requires Core(c) && c.output.group.Some? && c.output.busy == 0 && c.output.next == |c.output.group.value.items|
    ensures Core(Finished(c)) && Base(Finished(c)) == Base(c)
  {
    hide Concat, QueueTokens, AllCallbacks, LogCallbacks, QueueCallbacks;
    var wg := c.output.group.value;
    assert wg.items[c.output.next..] == [] && ItemTokens([]) == [];
    assert Rest(c.output) == NotifyTokens(wg.notificator);
    assert Finished(c).log + [] == Finished(c).log;
    LogNotify(c.log, wg.notificator);
  }

  lemma {:induction false} FinishFlagged(c: Conn, flags: seq<Flag>)
    requires Core(c) && Flagged(c, flags) && c.output.group.Some? && c.output.busy == 0
    requires c.output.next == |c.output.group.value.items|
    ensures OutputOk(Finish(c).output) && Flagged(Finish(c), flags)
    decreases GroupCount(c.coordinator.queue), 1
  {
    hide InitWrite, Concat, Core, OpenFlags, Base, NotifyTokens;
    FinishedCore(c);
    var d := Finished(c);
    assert OutputOk(d.output) && Flagged(d, flags);
    var n := c.output.group.value.notificator;
    if (n.Some? && n.value in c.faulty) || c.coordinator.closed {
      CoreOutput(d);
      CloseFlagged(d, flags);
    } else {
      InitWriteFlagged(d, flags);
    }
  }

  lemma {:induction false} CoreOutput(c: Conn)
    requires Core(c)
    ensures OutputOk(c.output)
  {
  }

  lemma {:induction false} InitWriteFlagged(c: Conn, flags: seq<Flag>)
    requires Core(c) && OutputOk(c.output) && Flagged(c, flags) && c.output.group.None? && !c.coordinator.closed
    ensures OutputOk(InitWrite(c).output) && Flagged(InitWrite(c), flags)
    decreases GroupCount(c.coordinator.queue), 0
  {
    hide Concat, OpenFlags, Base, Conserved, Aligned;
    if Pop(c.coordinator).group.Some? {
      PopShrinks(c.coordinator);
      assert c.isOpen;
      PopCore(c);
      PopFlagged(c, flags);
      ContinueFlagged(Popping(c), flags);
    }
  }

  lemma {:induction false} WrittenCore(c: Conn)
    requires Inv(c) && c.output.group.Some?
    ensures var items := c.output.group.value.items;
            var d := c.(log := c.log + ItemTokens(items[c.output.next - c.output.busy..c.output.next]), output := c.output.(busy := 0));
            Core(d) && Base(d) == Base(c) && DoWriteDone(c) == Continue(d)
  {
    hide Concat, QueueTokens, AllCallbacks, LogCallbacks, QueueCallbacks, ItemTokens, Continue;
    var o := c.output;
    var items := o.group.value.items;
    var written, left := items[o.next - o.busy..o.next], items[o.next..];
    assert items[o.next - o.busy..] == written + left;
    ItemTokensSplit(written, left);
    LogItems(c.log, written);
    var d := c.(log := c.log + ItemTokens(written), output := o.(busy := 0));
    assert Base(d) == Base(c);
  }

  lemma {:induction false} WriteDoneFlagged(c: Conn, flags: seq<Flag>)
    requires Inv(c) && Flagged(c, flags) && c.output.group.Some?
    ensures OutputOk(DoWriteDone(c).output) && Flagged(DoWriteDone(c), flags)
  {
    hide Continue, DoWriteDone, Concat, OpenFlags, Base, Conserved, Aligned, ItemTokens;
    WrittenCore(c);
    var items := c.output.group.value.items;
    var d := c.(log := c.log + ItemTokens(items[c.output.next - c.output.busy..c.output.next]), output := c.output.(busy := 0));
    ContinueFlagged(d, flags);
  }

  lemma {:induction false} WriteErrorFlagged(c: Conn, aborted: bool, flags: seq<Flag>)
    requires Inv(c) && Flagged(c, flags) && Enabled(c, WriteError(aborted))
    ensures OutputOk(DoWriteError(c, aborted).output) && Flagged(DoWriteError(c, aborted), flags)
  {
    hide Concat, OpenFlags, Conserved, AllCallbacks, ItemTokens;
    var c' := if aborted then c else Close(c);
    CloseCore(c);
    CloseFlagged(c, flags);
    var d := DoWriteError(c, aborted);
    assert Base(d) == c'.log by { assert c'.log + [] == c'.log; }
    assert c'.log <= Base(c');
  }

  lemma {:induction false} ArriveFlagged(c: Conn, flags: seq<Flag>)
    requires Inv(c) && Flagged(c, flags) && Enabled(c, Arrive)
    ensures OutputOk(DoArrive(c).output) && Flagged(DoArrive(c), flags + [Flag(false, false)])
  {
    hide Concat, Conserved, Aligned, Rest;
    var d := DoArrive(c);
    var queue := c.coordinator.queue;
    var f := |c.answers| - |queue|;
    assert d.answers[..f] == c.answers[..f];
    assert Base(d) == Base(c);
    assert forall i :: 0 <= i < |queue| ==> d.coordinator.queue[i] == queue[i];
  }

  /** An accepted answer changes the flags of the request that it names, and its context alike. */
  lemma {:induction false} AppendFlags(co: Coordinator, flags: seq<Flag>, id: nat, isFinal: bool, close: bool, wg: WriteGroup)
    requires OpenFlags(co, flags) && !co.closed && Append(co, id, isFinal, close, wg).Ok?
    ensures var k := |flags| - |co.queue| + Lookup(co.queue, id).value;
            0 <= k < |flags| && OpenFlags(Append(co, id, isFinal, close, wg).value, flags[k := Flag(isFinal, close)])
  {
    hide Lookup, Enqueue;
    var at := Lookup(co.queue, id).value;
    var queue' := Append(co, id, isFinal, close, wg).value.queue;
    assert forall i :: 0 <= i < |queue'| && i != at ==> queue'[i] == co.queue[i];
  }

  /** The connection after an answer was refused, or came too late. */
  function Refused(c: Conn, wg: WriteGroup): Conn {
    c.(submitted := c.submitted + Callbacks(wg.notificator), failed := c.failed + Callbacks(wg.notificator))
  }

  lemma {:induction false} AnswerFlagged(c: Conn, flags: seq<Flag>, s: Step)
    requires Inv(c) && Flagged(c, flags) && s.Answer?
    ensures OutputOk(Do(c, s).output) && Flagged(Do(c, s), Told(flags, c, s))
  {
    hide Core, Flagged, InitWrite, Append, Callbacks, AllCallbacks, OutputOk;
    InvCore(c);
    RefusedFlagged(c, flags, s.wg);
    if c.isOpen && !c.coordinator.closed {
      if Accepted(c, s) {
        AcceptedFlagged(c, flags, s);
        var d := Appending(c, s.id, s.isFinal, s.close, s.wg);
        if c.output.group.None? { InitWriteFlagged(d, Told(flags, c, s)); }
      } else {
        CloseFlagged(Refused(c, s.wg), flags);
        CoreOutput(Refused(c, s.wg));
      }
    } else {
      LateIsRefused(c, s);
    }
  }

  lemma {:induction false} LateIsRefused(c: Conn, s: Step)
    ensures Accepted(c, s) ==> c.isOpen && !c.coordinator.closed
  {
  }

  lemma {:induction false} RefusedFlagged(c: Conn, flags: seq<Flag>, wg: WriteGroup)
    requires Core(c) && OutputOk(c.output) && Flagged(c, flags)
    ensures Core(Refused(c, wg)) && OutputOk(Refused(c, wg).output) && Flagged(Refused(c, wg), flags)
  {
    hide Concat, OpenFlags, AllCallbacks, LogCallbacks, Rest, Callbacks, AlignedWith, QueueOk, OutputCallbacks;
    assert Base(Refused(c, wg)) == Base(c);
  }

  lemma {:induction false} AcceptedFlagged(c: Conn, flags: seq<Flag>, s: Step)
    requires Core(c) && OutputOk(c.output) && Flagged(c, flags) && Accepted(c, s)
    ensures var d := Appending(c, s.id, s.isFinal, s.close, s.wg);
            && Core(d) && OutputOk(d.output) && d.isOpen && !d.coordinator.closed
            && Flagged(d, Told(flags, c, s))
  {
    hide Concat, OpenFlags, GroupTokens, Append, Core, Base;
    LateIsRefused(c, s);
    AppendFlags(c.coordinator, flags, s.id, s.isFinal, s.close, s.wg);
    AppendCore(c, s.id, s.isFinal, s.close, s.wg);
    StillOpen(c, s);
  }

  lemma {:induction false} StillOpen(c: Conn, s: Step)
    requires Accepted(c, s)
    ensures Lookup(c.coordinator.queue, s.id).Some?
    ensures var d := Appending(c, s.id, s.isFinal, s.close, s.wg);
            d.isOpen && !d.coordinator.closed && |d.answers| == |c.answers| && |d.coordinator.queue| == |c.coordinator.queue|
  {
    hide Lookup, Enqueue, GroupTokens;
  }

  lemma {:induction false} StepFlagged(c: Conn, s: Step, flags: seq<Flag>)
    requires Inv(c) && Flagged(c, flags) && Enabled(c, s)
    ensures OutputOk(Do(c, s).output) && Flagged(Do(c, s), Told(flags, c, s))
  {
    hide Flagged, Inv, DoWriteDone, DoWriteError, DoArrive, DoAnswer, Close;
    InvCore(c);
    match s
    case Arrive => ArriveFlagged(c, flags);
    case Answer(_, _, _, _) => AnswerFlagged(c, flags, s);
    case WriteDone => WriteDoneFlagged(c, flags);
    case WriteError(aborted) => WriteErrorFlagged(c, aborted, flags);
    case Shutdown =>
      CloseCore(c);
      CloseFlagged(c, flags);
  }

  lemma {:induction false} InvCore(c: Conn)
    requires Inv(c)
    ensures Core(c) && OutputOk(c.output)
  {
  }

  lemma {:induction false} RunFlagged(capacity: nat, faulty: set<Callback>, steps: seq<Step>)
    ensures Inv(Run(capacity, faulty, steps)) && OutputOk(Run(capacity, faulty, steps).output)
    ensures Flagged(Run(capacity, faulty, steps), Flags(capacity, faulty, steps))
    decreases |steps|
  {
    hide Inv, Flagged, Do;
    RunInv(capacity, faulty, steps);
    InvCore(Run(capacity, faulty, steps));
    if steps == [] {
      FreshFlagged(capacity, faulty);
    } else {
      var before, last := steps[..|steps| - 1], steps[|steps| - 1];
      RunFlagged(capacity, faulty, before);
      var c := Run(capacity, faulty, before);
      if Enabled(c, last) { StepFlagged(c, last, Flags(capacity, faulty, before)); }
    }
  }

  lemma {:induction false} FreshFlagged(capacity: nat, faulty: set<Callback>)
    ensures Flagged(Fresh(capacity, faulty), [])
  {
  }

  // ------------------------------------------------------------------ theorems

  /** An accepted answer goes to a request that was not answered in full before. */
  lemma {:induction false} AcceptedOnce(c: Conn, flags: seq<Flag>, s: Step)
    requires OutputOk(c.output) && Flagged(c, flags) && Accepted(c, s)
    ensures 0 <= Named(c, s.id) < |flags| && !flags[Named(c, s.id)].isFinal
  {
    hide Lookup, Concat, Base;
  }

  /** What was said of a request that is answered in full is not taken back. */
  lemma {:induction false} FinalFlagsStay(capacity: nat, faulty: set<Callback>, steps: seq<Step>, more: seq<Step>, k: nat)
    requires k < |Flags(capacity, faulty, steps)| && Flags(capacity, faulty, steps)[k].isFinal
    ensures var flags := Flags(capacity, faulty, steps + more);
            k < |flags| && flags[k] == Flags(capacity, faulty, steps)[k]
    decreases |more|
  {
    hide Run, Named, Accepted, Enabled, Flagged, Inv;
    if more == [] {
      assert steps + more == steps;
    } else {
      var before, last := more[..|more| - 1], more[|more| - 1];
      FinalFlagsStay(capacity, faulty, steps, before, k);
      assert (steps + more)[..|steps + more| - 1] == steps + before;
      var c := Run(capacity, faulty, steps + before);
      RunFlagged(capacity, faulty, steps + before);
      if Accepted(c, last) { AcceptedOnce(c, Flags(capacity, faulty, steps + before), last); }
    }
  }

  /**
   Once an accepted answer to a request was final with connection-close, nothing of any later
   request is handed to the socket, however the run goes on.
   */
  lemma {:induction false} NothingAfterClosingAnswer(capacity: nat, faulty: set<Callback>, steps: seq<Step>, more: seq<Step>, k: nat)
    requires k < |Flags(capacity, faulty, steps)| && Closing(Flags(capacity, faulty, steps)[k])
    ensures var c := Run(capacity, faulty, steps + more);
            OutputOk(c.output) && k < |c.answers| && Handed(c) <= Concat(c.answers[..k + 1])
  {
    hide Run, Flags, Concat, Base, Inv, Handed;
    FinalFlagsStay(capacity, faulty, steps, more, k);
    RunFlagged(capacity, faulty, steps + more);
    var c := Run(capacity, faulty, steps + more);
    InvCore(c);
    NothingBeyond(c, Flags(capacity, faulty, steps + more), k);
    HandedIsPrefix(c);
  }

  /** The answers up to the k-th are complete and written, and the k-th one was to close the connection. */
  ghost predicate EndedBy(c: Conn, flags: seq<Flag>, k: nat) {
    && k < |flags| && k < |c.answers|
    && Closing(flags[k]) && (forall j :: 0 <= j < k ==> flags[j].isFinal)
    && c.log == Concat(c.answers[..k + 1])
  }

  /** An operation in flight has something left to write. */
  lemma {:induction false} BusyIsBehind(c: Conn)
    requires Inv(c) && OutputOk(c.output)
    ensures c.output.group.Some? ==> |c.log| < |Base(c)|
  {
    hide Core;
  }

  lemma {:induction false} EndedIsClosed(c: Conn, flags: seq<Flag>, k: nat)
    requires Inv(c) && OutputOk(c.output) && Flagged(c, flags) && EndedBy(c, flags, k)
    ensures !c.isOpen
  {
    hide Concat, QueueTokens, Conserved, AlignedWith, Base;
    NothingBeyond(c, flags, k);
    BusyIsBehind(c);
  }

  ghost predicate Ended(c: Conn, flags: seq<Flag>) {
    exists k: nat :: EndedBy(c, flags, k)
  }

  /** Some callback that throws was told. */
  predicate Threw(c: Conn) {
    exists i :: 0 <= i < |c.log| && c.log[i].Notified? && c.log[i].callback in c.faulty
  }

  /** The connection is still open and no callback threw, or it has ended in one of two ways. */
  ghost predicate Outcome(c: Conn, flags: seq<Flag>) {
    if c.isOpen then !Threw(c) else c.output.group.None? && (Threw(c) || Ended(c, flags))
  }

  lemma {:induction false} ContinueOutcome(c: Conn, flags: seq<Flag>)
    requires Core(c) && Flagged(c, flags) && c.output.group.Some? && c.output.busy == 0 && c.isOpen && !Threw(c)
    ensures Outcome(Continue(c), flags)
    decreases GroupCount(c.coordinator.queue), 2
  {
    hide Finish, BatchLength, Concat, Conserved, Flagged, AlignedWith, QueueOk, Ended, ItemTokens, NotifyTokens;
    var wg := c.output.group.value;
    if c.output.next < |wg.items| {
      assert Continue(c).log == c.log;
    } else {
      FinishOutcome(c, flags);
    }
  }

  lemma {:induction false} FinishOutcome(c: Conn, flags: seq<Flag>)
    requires Core(c) && Flagged(c, flags) && c.output.group.Some? && c.output.busy == 0 && c.isOpen && !Threw(c)
    requires c.output.next == |c.output.group.value.items|
    ensures Outcome(Finish(c), flags)
    decreases GroupCount(c.coordinator.queue), 1
  {
    hide InitWrite, Concat, Core, Base, AllCallbacks, Ended, OpenFlags;
    FinishedCore(c);
    CoreOutput(Finished(c));
    var d, n := Finished(c), c.output.group.value.notificator;
    assert Flagged(d, flags);
    FinishedThrew(c);
    if n.Some? && n.value in c.faulty {
      assert Threw(Close(d));
    } else if c.coordinator.closed {
      ClosingEnds(d, flags);
    } else {
      InitWriteOutcome(d, flags);
    }
  }

  lemma {:induction false} FinishedThrew(c: Conn)
    requires c.output.group.Some?
    ensures var n := c.output.group.value.notificator;
            Threw(Finished(c)) <==> Threw(c) || (n.Some? && n.value in c.faulty)
  {
    var d, n := Finished(c), c.output.group.value.notificator;
    assert forall i :: 0 <= i < |c.log| ==> d.log[i] == c.log[i];
    if n.Some? { assert d.log[|c.log|] == Notified(n.value); }
    if Threw(c) {
      var i :| 0 <= i < |c.log| && c.log[i].Notified? && c.log[i].callback in c.faulty;
      assert d.log[i] == c.log[i];
    }
  }

  /** The last group of a closing response was written. */
  lemma {:induction false} ClosingEnds(c: Conn, flags: seq<Flag>)
    requires OutputOk(c.output) && Flagged(c, flags) && c.isOpen && c.output.group.None? && c.coordinator.closed
    ensures Ended(Close(c), flags)
  {
    hide Concat, AllCallbacks;
    assert c.log + [] == c.log;
    assert EndedBy(Close(c), flags, |flags| - |c.coordinator.queue| - 1);
  }

  lemma {:induction false} InitWriteOutcome(c: Conn, flags: seq<Flag>)
    requires Core(c) && OutputOk(c.output) && Flagged(c, flags) && c.output.group.None? && !c.coordinator.closed && c.isOpen && !Threw(c)
    ensures Outcome(InitWrite(c), flags)
    decreases GroupCount(c.coordinator.queue), 0
  {
    hide Concat, Flagged, Base, Conserved, Aligned, Ended;
    if Pop(c.coordinator).group.Some? {
      PopShrinks(c.coordinator);
      PopCore(c);
      PopFlagged(c, flags);
      ContinueOutcome(Popping(c), flags);
    }
  }

  /** What closes an open connection at once: a shutdown, a failed write, an answer to a request that is unknown or answered in full. */
  predicate Disturbs(c: Conn, s: Step) {
    c.isOpen && match s
      case Shutdown => true
      case WriteError(_) => true
      case Answer(id, isFinal, close, wg) => !c.coordinator.closed && !Accepted(c, s)
      case _ => false
  }

  predicate Disturbed(capacity: nat, faulty: set<Callback>, steps: seq<Step>) {
    steps != [] &&
    var c := Run(capacity, faulty, steps[..|steps| - 1]);
    Disturbed(capacity, faulty, steps[..|steps| - 1]) || (Enabled(c, steps[|steps| - 1]) && Disturbs(c, steps[|steps| - 1]))
  }

  lemma {:induction false} DisturbingCloses(c: Conn, s: Step)
    requires Enabled(c, s) && Disturbs(c, s)
    ensures !Do(c, s).isOpen
  {
    hide Append, AllCallbacks;
  }

  lemma {:induction false} ItemsDoNotThrow(c: Conn, items: seq<Item>)
    ensures Threw(c.(log := c.log + ItemTokens(items))) <==> Threw(c)
  {
    var d := c.(log := c.log + ItemTokens(items));
    assert forall i :: 0 <= i < |c.log| ==> d.log[i] == c.log[i];
    assert forall i :: |c.log| <= i < |d.log| ==> d.log[i].Sent?;
    if Threw(c) {
      var i :| 0 <= i < |c.log| && c.log[i].Notified? && c.log[i].callback in c.faulty;
      assert d.log[i] == c.log[i];
    }
  }

  lemma {:induction false} WriteDoneOutcome(c: Conn, flags: seq<Flag>)
    requires Inv(c) && Flagged(c, flags) && c.output.group.Some? && c.isOpen && !Threw(c)
    ensures Outcome(DoWriteDone(c), flags)
  {
    hide Continue, DoWriteDone, Concat, OpenFlags, Base, Conserved, Aligned, ItemTokens, Threw, Ended;
    WrittenCore(c);
    var items := c.output.group.value.items[c.output.next - c.output.busy..c.output.next];
    var d := c.(log := c.log + ItemTokens(items), output := c.output.(busy := 0));
    ItemsDoNotThrow(c.(output := d.output), items);
    ThrewIsLogged(c, c.(output := d.output));
    ContinueOutcome(d, flags);
  }

  lemma {:induction false} ThrewIsLogged(c: Conn, d: Conn)
    requires c.log == d.log && c.faulty == d.faulty
    ensures Threw(c) <==> Threw(d)
  {
  }

  lemma {:induction false} AnswerOutcome(c: Conn, flags: seq<Flag>, s: Step)
    requires Inv(c) && Flagged(c, flags) && s.Answer? && c.isOpen && !Threw(c) && !Disturbs(c, s)
    ensures Outcome(Do(c, s), Told(flags, c, s))
  {
    hide Core, Flagged, InitWrite, Append, Callbacks, AllCallbacks, OutputOk, Threw, Ended, Told;
    InvCore(c);
    if Accepted(c, s) {
      AcceptedFlagged(c, flags, s);
      LateIsRefused(c, s);
      var d := Appending(c, s.id, s.isFinal, s.close, s.wg);
      ThrewIsLogged(c, d);
      if c.output.group.None? { InitWriteOutcome(d, Told(flags, c, s)); }
    } else {
      ThrewIsLogged(c, Refused(c, s.wg));
    }
  }

  lemma {:induction false} StepOutcome(c: Conn, flags: seq<Flag>, s: Step)
    requires Inv(c) && Flagged(c, flags) && Enabled(c, s) && c.isOpen && !Threw(c)
    ensures if Disturbs(c, s) then !Do(c, s).isOpen else Outcome(Do(c, s), Told(flags, c, s))
  {
    hide DoWriteDone, DoAnswer, Threw, Ended, Flagged, Accepted, Inv, Told;
    if Disturbs(c, s) {
      DisturbingCloses(c, s);
    } else {
      match s
      case Arrive => ThrewIsLogged(c, DoArrive(c));
      case Answer(_, _, _, _) => AnswerOutcome(c, flags, s);
      case WriteDone =>
        WriteDoneOutcome(c, flags);
        NothingTold(flags, c, s);
      case _ =>
    }
  }

  lemma {:induction false} NothingTold(flags: seq<Flag>, c: Conn, s: Step)
    requires !s.Arrive? && !s.Answer?
    ensures Told(flags, c, s) == flags
  {
  }

  lemma {:induction false} ContinueClosed(c: Conn)
    requires !c.isOpen && c.coordinator.queue == [] && c.output.group.Some?
    ensures !Continue(c).isOpen
  {
    hide AllCallbacks, BatchLength, NotifyTokens;
    assert Pop(c.coordinator).group.None?;
    var d := Finished(c);
    assert InitWrite(d) == d;
  }

  /** A connection is not opened again; once drained it stays what it is. */
  lemma {:induction false} ClosedStaysClosed(c: Conn, flags: seq<Flag>, s: Step)
    requires Inv(c) && Enabled(c, s) && !c.isOpen
    ensures !Do(c, s).isOpen && !Disturbs(c, s)
    ensures c.output.group.None? ==>
              && Do(c, s).output == c.output && Do(c, s).log == c.log && Do(c, s).answers == c.answers
              && Do(c, s).faulty == c.faulty && Told(flags, c, s) == flags
  {
    hide Continue, AllCallbacks, ItemTokens, Append, Base, Conserved;
    if s.WriteDone? {
      var items := c.output.group.value.items;
      var written := ItemTokens(items[c.output.next - c.output.busy..c.output.next]);
      ContinueClosed(c.(log := c.log + written, output := c.output.(busy := 0)));
    }
  }

  lemma {:induction false} SameOutcome(c: Conn, d: Conn, flags: seq<Flag>)
    requires c.log == d.log && c.answers == d.answers && c.faulty == d.faulty
    requires c.isOpen == d.isOpen && c.output == d.output && Outcome(c, flags)
    ensures Outcome(d, flags)
  {
    hide Concat;
    if Ended(c, flags) {
      var k: nat :| EndedBy(c, flags, k);
      assert EndedBy(d, flags, k);
    }
  }

  lemma {:induction false} RunOutcome(capacity: nat, faulty: set<Callback>, steps: seq<Step>)
    ensures var c := Run(capacity, faulty, steps);
            if Disturbed(capacity, faulty, steps) then !c.isOpen else Outcome(c, Flags(capacity, faulty, steps))
    decreases |steps|
  {
    hide Inv, Flagged, Do, Outcome, Disturbs, Told;
    if steps == [] {
      FreshOutcome(capacity, faulty);
    } else {
      var before, last := steps[..|steps| - 1], steps[|steps| - 1];
      var c, flags := Run(capacity, faulty, before), Flags(capacity, faulty, before);
      RunOutcome(capacity, faulty, before);
      RunFlagged(capacity, faulty, before);
      if !Enabled(c, last) {
        DisabledTellsNothing(flags, c, last);
      } else if c.isOpen {
        OpenOutcome(c, flags);
        StepOutcome(c, flags, last);
      } else {
        ClosedStaysClosed(c, flags, last);
        if Outcome(c, flags) {
          ClosedOutcome(c, flags);
          SameOutcome(c, Do(c, last), flags);
        }
      }
    }
  }

  lemma {:induction false} FreshOutcome(capacity: nat, faulty: set<Callback>)
    ensures Outcome(Fresh(capacity, faulty), [])
  {
  }

  lemma {:induction false} DisabledTellsNothing(flags: seq<Flag>, c: Conn, s: Step)
    requires !Enabled(c, s)
    ensures Told(flags, c, s) == flags
  {
  }

  lemma {:induction false} OpenOutcome(c: Conn, flags: seq<Flag>)
    ensures c.isOpen && Outcome(c, flags) ==> !Threw(c)
  {
  }

  lemma {:induction false} ClosedOutcome(c: Conn, flags: seq<Flag>)
    ensures !c.isOpen && Outcome(c, flags) ==> c.output.group.None? && (Threw(c) || Ended(c, flags))
  {
  }

  /**
   A connection is closed if and only if a shutdown, a failed write or a refused answer met it open,
   or a callback that throws was told, or everything up to a closing answer is complete and written.
   */
  lemma {:induction false} ClosesIff(capacity: nat, faulty: set<Callback>, steps: seq<Step>)
    ensures var c, flags := Run(capacity, faulty, steps), Flags(capacity, faulty, steps);
            !c.isOpen <==> Disturbed(capacity, faulty, steps) || Threw(c) || exists k: nat :: EndedBy(c, flags, k)
  {
    hide Run, Flags, Inv, Flagged, Threw, EndedBy, Disturbed;
    var c, flags := Run(capacity, faulty, steps), Flags(capacity, faulty, steps);
    RunOutcome(capacity, faulty, steps);
    RunFlagged(capacity, faulty, steps);
    if k: nat :| EndedBy(c, flags, k) { EndedIsClosed(c, flags, k); }
  }

  /** Two requests less than 2^32 apart have different ids. */
  lemma {:induction false} NearIdsDiffer(k: nat, j: nat)
    requires k < j < k + REQUEST_IDS
    ensures IdOf(k) != IdOf(j)
  {
    IdOfShift(k, j - k);
    IdOfSum(IdOf(k), j - k);
  }

  lemma {:induction false} InFlightIsFound(queue: seq<Context>, issued: nat, k: nat)
    requires QueueOk(queue, issued) && Numbered(queue) && !Wrapped(queue) && k < issued < k + REQUEST_IDS
    ensures Lookup(queue, IdOf(k)) == if k < issued - |queue| then None else Some(k - (issued - |queue|))
  {
    hide IdOf, Lookup, Numbered, Wrapped;
    var f := issued - |queue|;
    UnwrappedAreFound(queue, IdOf(k));
    if k < f {
      assert var r := Lookup(queue, IdOf(k)); r.Some? ==> r == Some(r.value);
      forall i: nat | i < |queue| ensures queue[i].id != IdOf(k) { NearIdsDiffer(k, f + i); }
    } else {
      assert queue[k - f].id == IdOf(k);
    }
  }

  /**
   While the ids in flight have not wrapped, an open connection accepts an answer to one of the last
   2^32 - 1 requests if and only if that request was not answered in full before, and none that has
   left the table was to close the connection.
   */
  lemma {:induction false} AcceptedIff(capacity: nat, faulty: set<Callback>, steps: seq<Step>,
      k: nat, isFinal: bool, close: bool, wg: WriteGroup)
    requires var c := Run(capacity, faulty, steps);
             c.isOpen && !Wrapped(c.coordinator.queue) && k < |c.answers| < k + REQUEST_IDS
    ensures var c, flags := Run(capacity, faulty, steps), Flags(capacity, faulty, steps);
            && |c.coordinator.queue| <= |c.answers| == |flags|
            && (Accepted(c, Answer(IdOf(k), isFinal, close, wg)) <==>
                  && !flags[k].isFinal
                  && forall j :: 0 <= j < |c.answers| - |c.coordinator.queue| ==> !Closing(flags[j]))
  {
    hide Run, Flags, Wrapped, IdOf, Lookup, Numbered, Enqueue, Concat, Base, Conserved, AlignedWith;
    var c, flags := Run(capacity, faulty, steps), Flags(capacity, faulty, steps);
    var queue := c.coordinator.queue;
    RunFlagged(capacity, faulty, steps);
    QueueIsNumbered(queue, |c.answers|);
    InFlightIsFound(queue, |c.answers|, k);
  }
}
