/**
 The delayed events of src/events/EventBroker.cpp as a step system. Every critical section
 of the broker is one step; a step may come from any thread and the steps interleave freely.
 */
module EventScheduling {
  import opened Events
  import opened Wrappers

  /** A delayed event with the number of the post that created it; its id is that number to 16 bits. */
  datatype Timer = Timer(ticket: nat, event: Event, topic: Topic, deadline: int)

  function IdOf(ticket: nat): (id: SchedId) {
    ticket % 0x1_0000
  }

  /** Nearest deadline first, equal deadlines in the order of their posts. */
  predicate Before(a: Timer, b: Timer) {
    a.deadline < b.deadline || (a.deadline == b.deadline && a.ticket < b.ticket)
  }

  predicate Ordered(pending: seq<Timer>) {
    forall i, j :: 0 <= i < j < |pending| ==> Before(pending[i], pending[j])
  }

  /** Where postDelayed puts an event: before the first one with a strictly later deadline. */
  function Slot(pending: seq<Timer>, deadline: int): (k: nat)
    ensures k <= |pending|
    ensures forall j :: 0 <= j < k ==> pending[j].deadline <= deadline
    ensures k < |pending| ==> deadline < pending[k].deadline
  {
    if pending == [] || deadline < pending[0].deadline then 0 else 1 + Slot(pending[1..], deadline)
  }

  function Insert(pending: seq<Timer>, t: Timer): (r: seq<Timer>) {
    var k := Slot(pending, t.deadline);
    pending[..k] + [t] + pending[k..]
  }

  /** What removeDelayed erases: the first event of the list with that id, if there is one. */
  function Find(pending: seq<Timer>, id: SchedId): (k: nat)
    ensures k <= |pending|
    ensures forall j :: 0 <= j < k ==> IdOf(pending[j].ticket) != id
    ensures k < |pending| ==> IdOf(pending[k].ticket) == id
  {
    if pending == [] || IdOf(pending[0].ticket) == id then 0 else 1 + Find(pending[1..], id)
  }

  // --------------------------------------------------------------- step system

  /** An event taken off the list by `run`: when, and how many posts there had been. */
  datatype Firing = Firing(timer: Timer, now: int, issued: nat)

  datatype Scheduler = Scheduler(
    log: seq<Timer>,            // every event ever posted with a delay, by ticket
    pending: seq<Timer>,
    taken: Option<Firing>,      // off the list, not yet handed to `post`
    fired: seq<Firing>,         // handed to `post`, in this order
    removed: seq<Timer>,
    cleared: seq<Timer>
  )

  datatype Step =
    | PostDelayed(event: Event, topic: Topic, deadline: int)
    | RemoveDelayed(id: SchedId)
    | TakeDue(now: int)          // one turn of run(): the list is looked at under the lock
    | PostTaken                  // ... and the event is posted with the lock released
    | Clear

  function Start(): (s: Scheduler) {
    Scheduler([], [], None, [], [], [])
  }

  function Next(s: Scheduler, step: Step): (s': Scheduler) {
    match step
    case PostDelayed(event, topic, deadline) =>
      var t := Timer(|s.log|, event, topic, deadline);
      s.(log := s.log + [t], pending := Insert(s.pending, t))
    case RemoveDelayed(id) =>
      var k := Find(s.pending, id);
      if k == |s.pending| then s
      else s.(pending := s.pending[..k] + s.pending[k + 1..], removed := s.removed + [s.pending[k]])
    case TakeDue(now) =>
      if s.taken.None? && s.pending != [] && s.pending[0].deadline <= now
      then s.(pending := s.pending[1..], taken := Some(Firing(s.pending[0], now, |s.log|)))
      else s
    case PostTaken =>
      if s.taken.Some? then s.(taken := None, fired := s.fired + [s.taken.value]) else s
    case Clear =>
      s.(pending := [], cleared := s.cleared + s.pending)
  }

  function Run(steps: seq<Step>): (s: Scheduler) {
    if steps == [] then Start() else Next(Run(steps[..|steps| - 1]), steps[|steps| - 1])
  }

  function Timers(fired: seq<Firing>): (r: seq<Timer>)
    ensures |r| == |fired| && forall i :: 0 <= i < |r| ==> r[i] == fired[i].timer
  {
    if fired == [] then [] else Timers(fired[..|fired| - 1]) + [fired[|fired| - 1].timer]
  }

  /** Every firing in order: posted ones, then the one on its way. */
  function Firings(s: Scheduler): (r: seq<Firing>) {
    s.fired + (if s.taken.Some? then [s.taken.value] else [])
  }

  // ---------------------------------------------------------------- invariants

  /** Each posted event is in exactly one place, with the contents it was posted with. */
  ghost predicate Conserved(s: Scheduler) {
    && (forall i :: 0 <= i < |s.log| ==> s.log[i].ticket == i)
    && multiset(s.pending) + multiset(Timers(Firings(s))) + multiset(s.removed) + multiset(s.cleared) == multiset(s.log)
  }

  /** A firing was due, and whatever was posted by then and did not go first had no claim to. */
  ghost predicate FairlyFired(f: Firing, later: Timer) {
    Before(f.timer, later) || later.ticket >= f.issued
  }

  ghost predicate Fair(s: Scheduler) {
    && (forall i :: 0 <= i < |Firings(s)| ==> Firings(s)[i].timer.deadline <= Firings(s)[i].now)
    && (forall i :: 0 <= i < |Firings(s)| ==> Firings(s)[i].issued <= |s.log|)
    && (forall i, j :: 0 <= i < j < |Firings(s)| ==> FairlyFired(Firings(s)[i], Firings(s)[j].timer))
    && (forall i, j :: 0 <= i < |Firings(s)| && 0 <= j < |s.pending| ==> FairlyFired(Firings(s)[i], s.pending[j]))
  }

  ghost predicate Fresh(s: Scheduler) {
    forall j :: 0 <= j < |s.pending| ==> s.pending[j].ticket < |s.log|
  }

  lemma {:induction false} InsertKeepsOrder(pending: seq<Timer>, t: Timer)
    requires Ordered(pending) && forall j :: 0 <= j < |pending| ==> pending[j].ticket < t.ticket
    ensures Ordered(Insert(pending, t))
  {
    var k, r := Slot(pending, t.deadline), Insert(pending, t);
    forall i, j | 0 <= i < j < |r| ensures Before(r[i], r[j]) {
      assert i < k ==> r[i] == pending[i];
      assert i > k ==> r[i] == pending[i - 1];
      assert j < k ==> r[j] == pending[j];
      assert j > k ==> r[j] == pending[j - 1];
      assert k < |pending| && j > k ==> k == j - 1 || Before(pending[k], pending[j - 1]);
    }
  }

  lemma {:induction false} CutIsMultiset(s: seq<Timer>, k: nat)
    requires k < |s|
    ensures multiset(s) == multiset(s[..k] + s[k + 1..]) + multiset{s[k]}
  {
    assert s == s[..k] + [s[k]] + s[k + 1..];
  }

  lemma {:induction false} InsertIsMultiset(s: seq<Timer>, t: Timer)
    ensures multiset(Insert(s, t)) == multiset(s) + multiset{t}
  {
    var k := Slot(s, t.deadline);
    assert s == s[..k] + s[k..];
  }

  lemma {:induction false} TimersSnoc(fired: seq<Firing>, f: Firing)
    ensures Timers(fired + [f]) == Timers(fired) + [f.timer]
  {
    assert (fired + [f])[..|fired|] == fired;
  }

  lemma {:induction false} RemoveConserves(s: Scheduler, id: SchedId)
    requires Conserved(s)
    ensures Conserved(Next(s, RemoveDelayed(id)))
  {
    hide Timers, Insert;
    var s', k := Next(s, RemoveDelayed(id)), Find(s.pending, id);
    if k < |s.pending| {
      var t := s.pending[k];
      CutIsMultiset(s.pending, k);
      SameFirings(s, s');
      hide Firings;
      Moves(multiset(s'.pending), multiset(Timers(Firings(s))), multiset(s.removed), multiset(s.cleared), t);
      assert multiset(s'.removed) == multiset(s.removed) + multiset{t};
    }
  }

  lemma {:induction false} Moves(p: multiset<Timer>, f: multiset<Timer>, r: multiset<Timer>, c: multiset<Timer>, t: Timer)
    ensures p + multiset{t} + f + r + c == p + f + (r + multiset{t}) + c
  {
  }

  /** `s'` is `s` after `f` has been taken off its list. */
  ghost predicate Takes(s: Scheduler, s': Scheduler, f: Firing) {
    && s.pending == [f.timer] + s'.pending
    && Firings(s') == Firings(s) + [f]
    && s'.log == s.log && s'.removed == s.removed && s'.cleared == s.cleared
    && f.issued == |s.log| && f.timer.deadline <= f.now
  }

  lemma {:induction false} TakeTakes(s: Scheduler, now: int)
    ensures var s' := Next(s, TakeDue(now));
            s' == s || (s'.taken.Some? && Takes(s, s', s'.taken.value))
  {
  }

  lemma {:induction false} TakeConserves(s: Scheduler, s': Scheduler, f: Firing)
    requires Conserved(s) && Takes(s, s', f)
    ensures Conserved(s')
  {
    hide Timers, Firings;
    TimersSnoc(Firings(s), f);
    assert multiset(s.pending) == multiset(s'.pending) + multiset{f.timer};
    assert multiset(Timers(Firings(s'))) == multiset(Timers(Firings(s))) + multiset{f.timer};
    Taken(multiset(s'.pending), multiset(Timers(Firings(s))), multiset(s.removed), multiset(s.cleared), f.timer);
  }

  lemma {:induction false} Taken(p: multiset<Timer>, f: multiset<Timer>, r: multiset<Timer>, c: multiset<Timer>, t: Timer)
    ensures p + multiset{t} + f + r + c == p + (f + multiset{t}) + r + c
  {
  }

  lemma {:induction false} SameFirings(s: Scheduler, s': Scheduler)
    requires s.fired == s'.fired && s.taken == s'.taken
    ensures Firings(s) == Firings(s')
  {
  }

  lemma {:induction false} NextConserves(s: Scheduler, step: Step)
    requires Conserved(s)
    ensures Conserved(Next(s, step))
  {
    hide Insert, Timers;
    match step
    case PostDelayed(event, topic, deadline) =>
      InsertIsMultiset(s.pending, Timer(|s.log|, event, topic, deadline));
    case RemoveDelayed(id) => RemoveConserves(s, id);
    case TakeDue(now) =>
      TakeTakes(s, now);
      if Next(s, step) != s { TakeConserves(s, Next(s, step), Next(s, step).taken.value); }
    case PostTaken => assert Firings(Next(s, step)) == Firings(s);
    case Clear =>
  }

  lemma {:induction false} NextKeepsOrder(s: Scheduler, step: Step)
    requires Ordered(s.pending) && Fresh(s)
    ensures Ordered(Next(s, step).pending) && Fresh(Next(s, step))
  {
    hide Insert;
    match step
    case PostDelayed(event, topic, deadline) =>
      var t := Timer(|s.log|, event, topic, deadline);
      InsertKeepsOrder(s.pending, t);
      InsertElements(s.pending, t);
    case _ =>
  }

  lemma {:induction false} InsertElements(pending: seq<Timer>, t: Timer)
    ensures forall j :: 0 <= j < |Insert(pending, t)| ==> Insert(pending, t)[j] == t || Insert(pending, t)[j] in pending
  {
  }

  lemma {:induction false} TakeIsFair(s: Scheduler, s': Scheduler, f: Firing)
    requires Fair(s) && Ordered(s.pending) && Takes(s, s', f)
    ensures Fair(s')
  {
    hide FairlyFired, Before, Firings, Ordered;
    assert forall j :: 0 <= j < |s'.pending| ==> s'.pending[j] == s.pending[j + 1];
    assert s.pending[0] == f.timer;
    forall j | 0 <= j < |s'.pending| ensures FairlyFired(f, s'.pending[j]) {
      OrderedFiringIsFair(s.pending, j + 1, f);
    }
  }

  lemma {:induction false} NextIsFair(s: Scheduler, step: Step)
    requires Fair(s) && Ordered(s.pending) && Fresh(s)
    ensures Fair(Next(s, step))
  {
    hide Insert, FairlyFired, Before;
    var s' := Next(s, step);
    match step
    case PostDelayed(event, topic, deadline) =>
      var t := Timer(|s.log|, event, topic, deadline);
      InsertElements(s.pending, t);
      assert Firings(s') == Firings(s);
      forall i | 0 <= i < |Firings(s)| ensures FairlyFired(Firings(s)[i], t) { LaterPostsAreFair(Firings(s)[i], t); }
    case RemoveDelayed(id) =>
      var k := Find(s.pending, id);
      assert Firings(s') == Firings(s);
      assert forall j :: 0 <= j < |s'.pending| ==> s'.pending[j] == s.pending[if j < k then j else j + 1];
    case TakeDue(now) =>
      TakeTakes(s, now);
      if s' != s { TakeIsFair(s, s', s'.taken.value); }
    case _ =>
      assert Firings(s') == Firings(s);
  }

  lemma {:induction false} LaterPostsAreFair(f: Firing, t: Timer)
    requires t.ticket >= f.issued
    ensures FairlyFired(f, t)
  {
  }

  lemma {:induction false} OrderedFiringIsFair(pending: seq<Timer>, j: nat, f: Firing)
    requires Ordered(pending) && 0 < j < |pending| && f.timer == pending[0]
    ensures FairlyFired(f, pending[j])
  {
  }

  // ------------------------------------------------------------------ theorems

  lemma {:induction false} RunInv(steps: seq<Step>)
    ensures Conserved(Run(steps)) && Ordered(Run(steps).pending) && Fresh(Run(steps)) && Fair(Run(steps))
  {
    hide Conserved, Ordered, Fresh, Fair, Next;
    if steps == [] {
      StartInv();
    } else {
      var s := Run(steps[..|steps| - 1]);
      var step := steps[|steps| - 1];
      RunInv(steps[..|steps| - 1]);
      NextConserves(s, step);
      NextKeepsOrder(s, step);
      NextIsFair(s, step);
    }
  }

  lemma {:induction false} StartInv()
    ensures Conserved(Start()) && Ordered(Start().pending) && Fresh(Start()) && Fair(Start())
  {
  }

  /**
   Of two firings, the first either had the nearer deadline (or the same one and was posted
   first), or the second had not been posted yet when the first was taken.
   */
  lemma {:induction false} FiredInDeadlineOrder(steps: seq<Step>, i: nat, j: nat)
    requires i < j < |Run(steps).fired|
    ensures var a, b := Run(steps).fired[i], Run(steps).fired[j];
            Before(a.timer, b.timer) || b.timer.ticket >= a.issued
    ensures Run(steps).fired[i].timer.deadline <= Run(steps).fired[i].now
  {
    hide Run, Before;
    RunInv(steps);
    var s := Run(steps);
    assert Firings(s)[i] == s.fired[i] && Firings(s)[j] == s.fired[j];
    assert FairlyFired(Firings(s)[i], Firings(s)[j].timer);
  }

  /** The event that leaves the list is due and goes before every other one in it. */
  lemma {:induction false} TakesTheEarliest(steps: seq<Step>, now: int)
    ensures var s, s' := Run(steps), Next(Run(steps), TakeDue(now));
            if s'.pending == s.pending then
              s' == s && (s.taken.Some? || forall t :: t in s.pending ==> t.deadline > now)
            else
              && s'.taken.Some? && s'.taken.value.timer in s.pending && s'.taken.value.timer.deadline <= now
              && s'.taken.value.now == now && s'.taken.value.issued == |s.log|
              && forall t :: t in s.pending && t != s'.taken.value.timer ==> Before(s'.taken.value.timer, t)
  {
    hide Run;
    RunInv(steps);
    var s := Run(steps);
    if s.pending != [] {
      forall t | t in s.pending && t != s.pending[0] ensures Before(s.pending[0], t) {
        var j :| 0 <= j < |s.pending| && s.pending[j] == t;
      }
    }
  }

  /** The events posted with a delay, in order. */
  function Delayed(steps: seq<Step>): (r: seq<Step>)
    ensures forall i :: 0 <= i < |r| ==> r[i].PostDelayed?
  {
    if steps == [] then []
    else Delayed(steps[..|steps| - 1]) + if steps[|steps| - 1].PostDelayed? then [steps[|steps| - 1]] else []
  }

  /** The log has one entry for each of them, with its event, topic and deadline, numbered in order. */
  lemma {:induction false} LogIsWhatWasPosted(steps: seq<Step>)
    ensures |Run(steps).log| == |Delayed(steps)|
    ensures forall k :: 0 <= k < |Delayed(steps)| ==>
              var d := Delayed(steps)[k]; Run(steps).log[k] == Timer(k, d.event, d.topic, d.deadline)
    decreases |steps|
  {
    hide Insert, Find;
    if steps != [] { LogIsWhatWasPosted(steps[..|steps| - 1]); }
  }

  lemma {:induction false} FiredIsLogged(s: Scheduler, i: nat)
    requires Conserved(s) && i < |s.fired|
    ensures s.fired[i].timer.ticket < |s.log| && s.log[s.fired[i].timer.ticket] == s.fired[i].timer
  {
    var t := s.fired[i].timer;
    assert Timers(Firings(s))[i] == t;
    assert t in multiset(Timers(Firings(s)));
    assert t in multiset(s.log);
    var k :| 0 <= k < |s.log| && s.log[k] == t;
  }

  /** Whatever is posted later was posted with a delay before, with the same event and topic, and was due. */
  lemma {:induction false} FiresWhatWasPosted(steps: seq<Step>, i: nat)
    requires i < |Run(steps).fired|
    ensures var f := Run(steps).fired[i];
            && f.timer.ticket < |Delayed(steps)|
            && var d := Delayed(steps)[f.timer.ticket];
               f.timer.event == d.event && f.timer.topic == d.topic && f.timer.deadline == d.deadline <= f.now
  {
    hide Run, Delayed;
    RunInv(steps);
    LogIsWhatWasPosted(steps);
    FiredIsLogged(Run(steps), i);
    FiredWhenDue(Run(steps), i);
  }

  lemma {:induction false} FiredWhenDue(s: Scheduler, i: nat)
    requires Fair(s) && i < |s.fired|
    ensures s.fired[i].timer.deadline <= s.fired[i].now
  {
    assert Firings(s)[i] == s.fired[i];
  }

  /** What was taken is posted next; clearing leaves nothing pending. */
  lemma {:induction false} TakenIsPosted(s: Scheduler)
    ensures s.taken.Some? ==> Next(s, PostTaken).fired == s.fired + [s.taken.value] && Next(s, PostTaken).taken.None?
    ensures Next(s, Clear).pending == [] && Next(s, Clear).cleared == s.cleared + s.pending
  {
  }

  /** Each posted event is pending, on its way, posted, removed or cleared: one of these, once, unaltered. */
  lemma {:induction false} EveryEventIsInOnePlace(steps: seq<Step>, k: nat)
    requires k < |Run(steps).log|
    ensures var s := Run(steps); var t := s.log[k];
            && t.ticket == k
            && multiset(s.pending)[t] + multiset(Timers(Firings(s)))[t] + multiset(s.removed)[t] + multiset(s.cleared)[t] == 1
  {
    hide Run, Timers, Firings;
    RunInv(steps);
    var s := Run(steps);
    assert (multiset(s.pending) + multiset(Timers(Firings(s))) + multiset(s.removed) + multiset(s.cleared))[s.log[k]] == multiset(s.log)[s.log[k]];
    CountOnce(s.log, k);
  }

  lemma {:induction false} CountOnce(log: seq<Timer>, k: nat)
    requires k < |log| && forall i :: 0 <= i < |log| ==> log[i].ticket == i
    ensures multiset(log)[log[k]] == 1
  {
    assert log == log[..k] + [log[k]] + log[k + 1..];
    assert log[k] !in log[..k] && log[k] !in log[k + 1..];
  }

  /**
   removeDelayed with the id of a pending event removes that event and no other, if and
   only if no event ahead of it in the list has the same id.
   */
  lemma {:induction false} RemoveHitsIffIdIsUnshared(steps: seq<Step>, k: nat)
    requires k < |Run(steps).pending|
    ensures var s := Run(steps); var s' := Next(s, RemoveDelayed(IdOf(s.pending[k].ticket)));
            s'.removed == s.removed + [s.pending[k]] && s'.pending == s.pending[..k] + s.pending[k + 1..]
            <==> forall j :: 0 <= j < k ==> IdOf(s.pending[j].ticket) != IdOf(s.pending[k].ticket)
  {
    hide Run, IdOf;
    RunInv(steps);
    var s := Run(steps);
    var f := Find(s.pending, IdOf(s.pending[k].ticket));
    assert f <= k;
    if f < k {
      assert Before(s.pending[f], s.pending[k]);
      assert (s.removed + [s.pending[f]])[|s.removed|] != (s.removed + [s.pending[k]])[|s.removed|];
    }
  }

  /**
   The id of an event that was posted, removed or cleared before removes nothing if and only
   if no pending event shares it; none does while all of them stem from the last 2^16 posts.
   */
  lemma {:induction false} StaleIdIsHarmlessIffUnshared(steps: seq<Step>, ticket: nat)
    requires ticket < |Run(steps).log|
    requires forall t :: t in Run(steps).pending ==> t.ticket != ticket
    ensures var s := Run(steps);
            Next(s, RemoveDelayed(IdOf(ticket))) == s <==> forall t :: t in s.pending ==> IdOf(t.ticket) != IdOf(ticket)
    ensures var s := Run(steps);
            |s.log| - ticket < 0x1_0000 && (forall t :: t in s.pending ==> |s.log| - t.ticket < 0x1_0000) ==>
              Next(s, RemoveDelayed(IdOf(ticket))) == s
  {
    hide Run, IdOf;
    RunInv(steps);
    var s := Run(steps);
    var k := Find(s.pending, IdOf(ticket));
    if k < |s.pending| {
      assert s.pending[k] in s.pending;
      assert |Next(s, RemoveDelayed(IdOf(ticket))).pending| < |s.pending|;
      PendingIsLogged(s, k);
      if |s.log| - ticket < 0x1_0000 && |s.log| - s.pending[k].ticket < 0x1_0000 { NoWrap(ticket, s.pending[k].ticket); }
    }
  }

  lemma {:induction false} PendingIsLogged(s: Scheduler, j: nat)
    requires Conserved(s) && j < |s.pending|
    ensures s.pending[j].ticket < |s.log| && s.log[s.pending[j].ticket] == s.pending[j]
  {
    hide Timers, Firings;
    var t := s.pending[j];
    assert t in multiset(s.pending);
    assert t in multiset(s.log);
    var i :| 0 <= i < |s.log| && s.log[i] == t;
  }

  lemma {:induction false} TicketsAreDistinct(s: Scheduler, j: nat, k: nat)
    requires Conserved(s) && Ordered(s.pending) && j < k < |s.pending|
    ensures s.pending[j].ticket != s.pending[k].ticket
  {
    hide Conserved;
    PendingIsLogged(s, j);
    PendingIsLogged(s, k);
    assert Before(s.pending[j], s.pending[k]);
  }

  /** While the pending events stem from fewer than 2^16 successive posts, no two share an id. */
  lemma {:induction false} RecentIdsAreDistinct(steps: seq<Step>, j: nat, k: nat)
    requires j < k < |Run(steps).pending|
    requires forall t :: t in Run(steps).pending ==> |Run(steps).log| - t.ticket < 0x1_0000
    ensures IdOf(Run(steps).pending[j].ticket) != IdOf(Run(steps).pending[k].ticket)
  {
    hide Run, IdOf;
    RunInv(steps);
    var a, b := Run(steps).pending[j], Run(steps).pending[k];
    TicketsAreDistinct(Run(steps), j, k);
    assert a in Run(steps).pending && b in Run(steps).pending;
    NoWrap(a.ticket, b.ticket);
  }

  lemma {:induction false} NoWrap(a: nat, b: nat)
    requires a != b && a - b < 0x1_0000 && b - a < 0x1_0000
    ensures IdOf(a) != IdOf(b)
  {
  }

  /** An event posted and left pending, then `n` others posted and removed again. */
  function Churn(n: nat): (steps: seq<Step>) {
    if n == 0 then [PostDelayed(0, 0, 10)] else Churn(n - 1) + [PostDelayed(0, 0, 20), RemoveDelayed(IdOf(n))]
  }

  lemma {:induction false} RunSnoc(steps: seq<Step>, step: Step)
    ensures Run(steps + [step]) == Next(Run(steps), step)
  {
    assert (steps + [step])[..|steps|] == steps;
  }

  lemma {:induction false} PostAndRemove(s: Scheduler, n: nat)
    requires s.pending == [Timer(0, 0, 0, 10)] && |s.log| == n && 0 < n < 0x1_0000
    ensures var s' := Next(Next(s, PostDelayed(0, 0, 20)), RemoveDelayed(IdOf(n)));
            s'.pending == s.pending && |s'.log| == n + 1
  {
    var p := Next(s, PostDelayed(0, 0, 20)).pending;
    assert Slot(s.pending[1..], 20) == 0 && Slot(s.pending, 20) == 1;
    assert p == [Timer(0, 0, 0, 10), Timer(n, 0, 0, 20)];
    assert IdOf(0) == 0 && IdOf(n) == n;
    hide Slot, IdOf;
    assert Find(p, n) == 1;
  }

  lemma {:induction false} Churned(n: nat)
    requires n < 0x1_0000
    ensures Run(Churn(n)).pending == [Timer(0, 0, 0, 10)] && |Run(Churn(n)).log| == n + 1
    decreases n
  {
    hide Run, Next, IdOf, Find, Slot;
    if n == 0 {
      RunSnoc([], PostDelayed(0, 0, 10));
      assert [] + [PostDelayed(0, 0, 10)] == Churn(0);
      FirstPost();
    } else {
      Churned(n - 1);
      var before := Churn(n - 1);
      RunSnoc(before, PostDelayed(0, 0, 20));
      RunSnoc(before + [PostDelayed(0, 0, 20)], RemoveDelayed(IdOf(n)));
      assert before + [PostDelayed(0, 0, 20)] + [RemoveDelayed(IdOf(n))] == Churn(n);
      PostAndRemove(Run(before), n);
    }
  }

  lemma {:induction false} FirstPost()
    ensures Next(Run([]), PostDelayed(0, 0, 10)).pending == [Timer(0, 0, 0, 10)]
    ensures |Next(Run([]), PostDelayed(0, 0, 10)).log| == 1
  {
  }

  /** So once the counter has wrapped, the id of a pending event may remove a younger one instead. */
  lemma {:induction false} WrappedIdRemovesAnother()
    ensures var s := Run(Churn(0xFFFF) + [PostDelayed(7, 0, 5)]);
            var elder, young := Timer(0, 0, 0, 10), Timer(0x1_0000, 7, 0, 5);
            s.pending == [young, elder] && Next(s, RemoveDelayed(IdOf(elder.ticket))).pending == [elder]
  {
    Churned(0xFFFF);
    RunSnoc(Churn(0xFFFF), PostDelayed(7, 0, 5));
    hide Run, Churn;
    YoungerGoesFirst(Run(Churn(0xFFFF)));
  }

  lemma {:induction false} YoungerGoesFirst(s: Scheduler)
    requires s.pending == [Timer(0, 0, 0, 10)] && |s.log| == 0x1_0000
    ensures var s' := Next(s, PostDelayed(7, 0, 5));
            s'.pending == [Timer(0x1_0000, 7, 0, 5), Timer(0, 0, 0, 10)] &&
            Next(s', RemoveDelayed(IdOf(0))).pending == [Timer(0, 0, 0, 10)]
  {
    var p := Next(s, PostDelayed(7, 0, 5)).pending;
    assert Slot(s.pending, 5) == 0;
    assert p == [Timer(0x1_0000, 7, 0, 5), Timer(0, 0, 0, 10)];
    assert IdOf(0) == 0 && IdOf(0x1_0000) == 0;
    hide Slot, IdOf;
    assert Find(p, 0) == 0;
    assert p[..0] + p[1..] == [Timer(0, 0, 0, 10)];
  }
}
