/**
 The whole of src/events/EventBroker.cpp as one step system: the delayed events of EventScheduling
 and the delivery of EventDelivery, which meet where the broker's thread posts an event it has
 taken off its list.
 */
module EventSystem {
  import opened Events
  import opened Wrappers
  import S = EventScheduling
  import D = EventDelivery

  datatype System<H> = System(
    scheduler: S.Scheduler,
    delivery: D.Delivery<H>,
    marks: seq<nat>            // where in the history the broker's thread has posted
  )

  datatype Step<H> =
    | Schedule(timing: S.Step)   // posting with a delay, removing, clearing, taking what is due
    | PostTaken                  // the broker's thread enters post() with the event it has taken
    | Deliver(step: D.Step<H>)   // any other thread at the broker or at a handler

  function Start<H>(): (s: System<H>) {
    System(S.Start(), D.Start(), [])
  }

  function PostOf<H>(t: S.Timer): (op: D.Op<H>) {
    D.Op.Post(t.event, t.topic)
  }

  function Next<H(==)>(s: System<H>, step: Step<H>): (s': System<H>) {
    match step
    case Schedule(step) => if step.PostTaken? then s else s.(scheduler := S.Next(s.scheduler, step))
    case PostTaken =>
      if s.scheduler.taken.None? || s.delivery.posting.Some? then s   // nothing to post, or the lock is taken
      else
        System(S.Next(s.scheduler, S.PostTaken),
               D.Next(s.delivery, D.Enter(PostOf(s.scheduler.taken.value.timer))),
               s.marks + [|s.delivery.history|])
    case Deliver(step) => s.(delivery := D.Next(s.delivery, step))
  }

  function Run<H(==)>(steps: seq<Step<H>>): (s: System<H>) {
    if steps == [] then Start() else Next(Run(steps[..|steps| - 1]), steps[|steps| - 1])
  }

  // ------------------------------------------- a run of both is a run of each

  /** The scheduler's part of a run. */
  function Scheduled<H(==)>(steps: seq<Step<H>>): (r: seq<S.Step>) {
    if steps == [] then []
    else
      var before, last := steps[..|steps| - 1], steps[|steps| - 1];
      var s := Run(before);
      Scheduled(before) +
      match last
      case Schedule(step) => if step.PostTaken? then [] else [step]
      case PostTaken => if s.scheduler.taken.None? || s.delivery.posting.Some? then [] else [S.PostTaken]
      case Deliver(_) => []
  }

  /** The delivery's part of a run. */
  function Delivered<H(==)>(steps: seq<Step<H>>): (r: seq<D.Step<H>>) {
    if steps == [] then []
    else
      var before, last := steps[..|steps| - 1], steps[|steps| - 1];
      var s := Run(before);
      Delivered(before) +
      match last
      case Schedule(_) => []
      case PostTaken =>
        if s.scheduler.taken.None? || s.delivery.posting.Some? then []
        else [D.Enter(PostOf(s.scheduler.taken.value.timer))]
      case Deliver(step) => [step]
  }

  lemma {:induction false} SchedulerSnoc(steps: seq<S.Step>, step: S.Step)
    ensures S.Run(steps + [step]) == S.Next(S.Run(steps), step)
    ensures S.Run(steps + []) == S.Run(steps)
  {
    assert (steps + [step])[..|steps|] == steps && steps + [] == steps;
  }

  lemma {:induction false} DeliverySnoc<H>(steps: seq<D.Step<H>>, step: D.Step<H>)
    ensures D.Run(steps + [step]) == D.Next(D.Run(steps), step)
    ensures D.Run(steps + []) == D.Run(steps)
  {
    assert (steps + [step])[..|steps|] == steps && steps + [] == steps;
  }

  /** So all that holds in the runs of each holds here. */
  lemma {:induction false} RunsOfEach<H>(steps: seq<Step<H>>)
    ensures Run(steps).scheduler == S.Run(Scheduled(steps)) && Run(steps).delivery == D.Run(Delivered(steps))
    decreases |steps|
  {
    hide S.Next, D.Next, S.Run, D.Run;
    if steps == [] {
      StartsOfEach<H>();
    } else {
      var before, last := steps[..|steps| - 1], steps[|steps| - 1];
      var s := Run(before);
      RunsOfEach(before);
      match last
      case Schedule(step) =>
        SchedulerSnoc(Scheduled(before), step);
        DeliverySnoc(Delivered(before), D.Finish);
      case PostTaken =>
        SchedulerSnoc(Scheduled(before), S.PostTaken);
        if s.scheduler.taken.Some? && s.delivery.posting.None? {
          DeliverySnoc(Delivered(before), D.Enter(PostOf(s.scheduler.taken.value.timer)));
        } else {
          DeliverySnoc(Delivered(before), D.Finish);
        }
      case Deliver(step) =>
        SchedulerSnoc(Scheduled(before), S.PostTaken);
        DeliverySnoc(Delivered(before), step);
    }
  }

  lemma {:induction false} StartsOfEach<H>()
    ensures S.Run([]) == S.Start() && D.Run<H>([]) == D.Start()
  {
  }

  /** Timers and delivery both go on, and neither waits for the other but at the broker's own post. */
  lemma {:induction false} BothGoOn<H>(steps: seq<Step<H>>, timing: S.Step, step: D.Step<H>)
    requires !timing.PostTaken?
    ensures Scheduled(steps + [Schedule(timing)]) == Scheduled(steps) + [timing]
    ensures Delivered(steps + [Schedule(timing)]) == Delivered(steps)
    ensures Delivered(steps + [Deliver(step)]) == Delivered(steps) + [step]
    ensures Scheduled(steps + [Deliver(step)]) == Scheduled(steps)
  {
    hide Run;
    assert (steps + [Schedule(timing)])[..|steps|] == steps && (steps + [Deliver(step)])[..|steps|] == steps;
    assert Scheduled(steps) + [] == Scheduled(steps) && Delivered(steps) + [] == Delivered(steps);
  }

  // ------------------------------------------------------------------ theorems

  /** The posts of the broker's thread within the history are the events fired, in the order of firing. */
  ghost predicate Marked<H>(s: System<H>) {
    && |s.marks| == |s.scheduler.fired|
    && (forall i, j :: 0 <= i < j < |s.marks| ==> s.marks[i] < s.marks[j])
    && (forall i :: 0 <= i < |s.marks| ==>
          s.marks[i] < |s.delivery.history| && s.delivery.history[s.marks[i]] == PostOf(s.scheduler.fired[i].timer))
  }

  lemma {:induction false} NextIsMarked<H>(s: System<H>, step: Step<H>)
    requires Marked(s)
    ensures Marked(Next(s, step))
  {
    hide D.Subscribed, S.Insert, S.Find;
    var s' := Next(s, step);
    match step
    case Schedule(_) => assert s'.scheduler.fired == s.scheduler.fired;
    case PostTaken =>
    case Deliver(step) =>
      assert s'.delivery.history == s.delivery.history || (step.Enter? && s'.delivery.history == s.delivery.history + [step.op]);
  }

  lemma {:induction false} FiringsAreMarked<H>(steps: seq<Step<H>>)
    ensures Marked(Run(steps))
    decreases |steps|
  {
    hide Next, Marked;
    if steps == [] {
      StartIsMarked<H>();
    } else {
      FiringsAreMarked(steps[..|steps| - 1]);
      NextIsMarked(Run(steps[..|steps| - 1]), steps[|steps| - 1]);
    }
  }

  lemma {:induction false} StartIsMarked<H>()
    ensures Marked<H>(Start())
  {
  }

  /** The posts with a delay in a run of the whole. */
  function DelayedPosts<H>(steps: seq<Step<H>>): (r: seq<S.Step>)
    ensures forall i :: 0 <= i < |r| ==> r[i].PostDelayed?
  {
    if steps == [] then []
    else
      var last := steps[|steps| - 1];
      DelayedPosts(steps[..|steps| - 1]) + if last.Schedule? && last.timing.PostDelayed? then [last.timing] else []
  }

  lemma {:induction false} DelayedSnoc(steps: seq<S.Step>, step: S.Step)
    ensures S.Delayed(steps + [step]) == S.Delayed(steps) + if step.PostDelayed? then [step] else []
    ensures S.Delayed(steps + []) == S.Delayed(steps) && S.Delayed(steps) + [] == S.Delayed(steps)
  {
    assert (steps + [step])[..|steps|] == steps && steps + [] == steps;
  }

  lemma {:induction false} DelayedPostsAreScheduled<H>(steps: seq<Step<H>>)
    ensures DelayedPosts(steps) == S.Delayed(Scheduled(steps))
    decreases |steps|
  {
    hide S.Delayed, Next, Run;
    if steps == [] {
      NothingDelayed();
    } else {
      var before, last := steps[..|steps| - 1], steps[|steps| - 1];
      DelayedPostsAreScheduled(before);
      DelayedSnoc(Scheduled(before), S.PostTaken);
      if last.Schedule? { DelayedSnoc(Scheduled(before), last.timing); }
    }
  }

  lemma {:induction false} NothingDelayed()
    ensures S.Delayed([]) == []
  {
  }

  /**
   The i-th event that the broker's thread posts stands in the history with the event and the topic
   that it was posted with, with a delay, as its ticket numbers those posts.
   */
  lemma {:induction false} DelayedEventsKeepTheirTopic<H>(steps: seq<Step<H>>, i: nat)
    requires i < |Run(steps).scheduler.fired|
    ensures var s := Run(steps); var ticket := s.scheduler.fired[i].timer.ticket;
            && |s.marks| == |s.scheduler.fired| && s.marks[i] < |s.delivery.history|
            && ticket < |DelayedPosts(steps)|
            && var d := DelayedPosts(steps)[ticket];
               s.delivery.history[s.marks[i]] == D.Op.Post(d.event, d.topic)
  {
    hide Run, S.Run, D.Run, S.Delayed, DelayedPosts, Scheduled;
    RunsOfEach(steps);
    FiringsAreMarked(steps);
    DelayedPostsAreScheduled(steps);
    S.FiresWhatWasPosted(Scheduled(steps), i);
  }

  /** And it does stand there, at the end, once the thread that has taken it gets the lock. */
  lemma {:induction false} TakenEntersHistory<H>(s: System<H>)
    requires s.scheduler.taken.Some? && s.delivery.posting.None?
    ensures var t := s.scheduler.taken.value.timer; var s' := Next(s, PostTaken);
            && s'.delivery.history == s.delivery.history + [D.Op.Post(t.event, t.topic)]
            && s'.scheduler.taken.None? && s'.scheduler.fired == s.scheduler.fired + [s.scheduler.taken.value]
  {
  }

  /** Where in what a handler is owed the post at `k` of the history begins, and how often it is there. */
  function Offset<H(==)>(history: seq<D.Op<H>>, h: H, k: nat): (n: nat)
    requires k <= |history|
  {
    |D.Owed(history[..k], h)|
  }

  lemma {:induction false} OwedGrows<H>(history: seq<D.Op<H>>, h: H, k: nat)
    requires k <= |history|
    ensures D.Owed(history[..k], h) <= D.Owed(history, h)
    decreases |history|
  {
    if k == |history| {
      assert history[..k] == history;
    } else {
      var before := history[..|history| - 1];
      OwedGrows(before, h, k);
      assert before[..k] == history[..k];
      D.HistorySnoc(before, history[|history| - 1], h, 0);
      assert before + [history[|history| - 1]] == history;
    }
  }

  lemma {:induction false} PostIsOwedAt<H>(history: seq<D.Op<H>>, h: H, k: nat, event: Event, topic: Topic)
    requires k < |history| && history[k] == D.Op.Post(event, topic)
    ensures var copies := D.Copies(event, D.Multiplicity(history[..k], h, topic));
            Offset(history, h, k + 1) == Offset(history, h, k) + |copies| <= |D.Owed(history, h)|
            && D.Owed(history, h)[Offset(history, h, k)..Offset(history, h, k + 1)] == copies
  {
    hide D.Owed, D.Multiplicity, D.Copies;
    assert history[..k + 1] == history[..k] + [history[k]];
    D.HistorySnoc(history[..k], history[k], h, topic);
    OwedGrows(history, h, k + 1);
  }

  lemma {:induction false} OffsetsGrow<H>(history: seq<D.Op<H>>, h: H, j: nat, k: nat)
    requires j <= k <= |history|
    ensures Offset(history, h, j) <= Offset(history, h, k)
  {
    OwedGrows(history[..k], h, j);
    assert history[..k][..j] == history[..j];
  }

  /**
   In every run, of two events that the broker's thread posted, the one with the nearer deadline (or
   posted first, or before the other was posted at all) is owed to each handler first: its copies, as
   many as the handler was subscribed when it was posted, end before the other's begin; and the
   handler handles what it is owed in that order. Whatever is posted, subscribed and removed in
   between makes no difference.
   */
  lemma {:induction false} DelayedEventsAreHandledInDeadlineOrder<H>(steps: seq<Step<H>>, h: H, i: nat, j: nat)
    requires i < j < |Run(steps).scheduler.fired|
    ensures Marked(Run(steps))
    ensures var s := Run(steps); var a, b := s.scheduler.fired[i], s.scheduler.fired[j];
            S.Before(a.timer, b.timer) || b.timer.ticket >= a.issued
    ensures var s := Run(steps); var history, a, b := s.delivery.history, s.marks[i], s.marks[j];
            && OwedThere(history, h, a, s.scheduler.fired[i].timer) && OwedThere(history, h, b, s.scheduler.fired[j].timer)
            && Offset(history, h, a + 1) <= Offset(history, h, b)
    ensures var s := Run(steps); D.FromBroker(D.At(s.delivery.handled, h)) <= D.Owed(s.delivery.history, h)
  {
    hide Run, S.Run, D.Run, D.Owed, D.FromBroker, S.Before, Offset;
    var s := Run(steps);
    RunsOfEach(steps);
    FiringsAreMarked(steps);
    S.FiredInDeadlineOrder(Scheduled(steps), i, j);
    D.HandlesWhatItIsOwed(Delivered(steps), h);
    var history := s.delivery.history;
    PostIsOwedAt(history, h, s.marks[i], s.scheduler.fired[i].timer.event, s.scheduler.fired[i].timer.topic);
    PostIsOwedAt(history, h, s.marks[j], s.scheduler.fired[j].timer.event, s.scheduler.fired[j].timer.topic);
    OffsetsGrow(history, h, s.marks[i] + 1, s.marks[j]);
  }

  /** The copies of the event that was posted at `k` stand where they should in what `h` is owed. */
  ghost predicate OwedThere<H>(history: seq<D.Op<H>>, h: H, k: nat, t: S.Timer) {
    && k < |history| && Offset(history, h, k) <= Offset(history, h, k + 1) <= |D.Owed(history, h)|
    && D.Owed(history, h)[Offset(history, h, k)..Offset(history, h, k + 1)]
       == D.Copies(t.event, D.Multiplicity(history[..k], h, t.topic))
  }
}
