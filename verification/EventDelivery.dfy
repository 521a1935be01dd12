/**
 Topic fan-out of src/events/EventBroker.cpp into the queues of src/events/EventHandler.h,
 as a step system. The broker's subscriber lock is held for a whole `post`; the puts into the
 handlers' queues that make it up are steps of their own, between which handlers take, are
 stopped, and are sent events past the broker. H is the type of the handlers.
 */
module EventDelivery {
  import opened Events
  import opened Wrappers

  /** What can lie in a handler's queue: an event from the broker, one sent past it, the EV_EMPTY of `stop`. */
  datatype Entry = Posted(event: Event) | Direct(event: Event) | StopMark

  /** A critical section of the broker. */
  datatype Op<H> =
    | Subscribe(h: H, topic: Topic)
    | Unsubscribe(h: H, topic: Topic)
    | UnsubscribeAll(h: H)
    | Post(event: Event, topic: Topic)

  datatype Step<H> =
    | Enter(op: Op<H>)                 // takes the lock; a post then delivers, everything else is over at once
    | PutNext                          // postEvent on the next subscriber of the post in progress
    | Finish                           // the post has no subscriber left and gives the lock back
    | PostDirect(h: H, event: Event)   // postEvent called on the handler itself, by anyone, the handler included
    | Take(h: H)                       // one turn of the handler's run(): get() and handleEvent
    | Stop(h: H)                       // stop() puts its mark

  datatype Posting<H> = Posting(event: Event, rest: seq<H>)

  type Subscribers<H> = map<Topic, seq<H>>

  datatype Delivery<H> = Delivery(
    history: seq<Op<H>>,                 // the critical sections so far, in their order
    subscribers: Subscribers<H>,
    posting: Option<Posting<H>>,
    queues: map<H, seq<Entry>>,
    handled: map<H, seq<Entry>>
  )

  function At<K, V>(m: map<K, seq<V>>, k: K): (v: seq<V>) {
    if k in m then m[k] else []
  }

  function Without<T(==)>(s: seq<T>, x: T): (r: seq<T>) {
    if s == [] then []
    else if s[0] == x then Without(s[1..], x)
    else [s[0]] + Without(s[1..], x)
  }

  function WithoutAnywhere<T(==)>(subs: map<Topic, seq<T>>, x: T): (r: map<Topic, seq<T>>) {
    map t | t in subs :: Without(subs[t], x)
  }

  // --------------------------------------------------------------- step system

  function Start<H>(): (s: Delivery<H>) {
    Delivery([], map[], None, map[], map[])
  }

  function Subscribed<H(==)>(subs: Subscribers<H>, op: Op<H>): (r: Subscribers<H>) {
    match op
    case Subscribe(h, t) => subs[t := At(subs, t) + [h]]
    case Unsubscribe(h, t) => if t in subs then subs[t := Without(subs[t], h)] else subs
    case UnsubscribeAll(h) => WithoutAnywhere(subs, h)
    case Post(_, _) => subs
  }

  function Put<H(==)>(s: Delivery<H>, h: H, e: Entry): (s': Delivery<H>) {
    s.(queues := s.queues[h := At(s.queues, h) + [e]])
  }

  function Next<H(==)>(s: Delivery<H>, step: Step<H>): (s': Delivery<H>) {
    match step
    case Enter(op) =>
      if s.posting.Some? then s   // the lock is taken: the caller waits
      else
        s.(history := s.history + [op], subscribers := Subscribed(s.subscribers, op),
           posting := if op.Post? then Some(Posting(op.event, At(s.subscribers, op.topic))) else None)
    case PutNext =>
      if s.posting.None? || s.posting.value.rest == [] then s
      else
        var p := s.posting.value;
        Put(s, p.rest[0], Posted(p.event)).(posting := Some(Posting(p.event, p.rest[1..])))
    case Finish =>
      if s.posting.Some? && s.posting.value.rest == [] then s.(posting := None) else s
    case PostDirect(h, event) => Put(s, h, Direct(event))
    case Take(h) =>
      var q := At(s.queues, h);
      if q == [] then s
      else s.(queues := s.queues[h := q[1..]], handled := s.handled[h := At(s.handled, h) + [q[0]]])
    case Stop(h) => Put(s, h, StopMark)
  }

  function Run<H(==)>(steps: seq<Step<H>>): (s: Delivery<H>) {
    if steps == [] then Start() else Next(Run(steps[..|steps| - 1]), steps[|steps| - 1])
  }

  // ---------------------------------------------------- what a handler is owed

  /** How often `h` is subscribed to `topic` after these critical sections. */
  function Multiplicity<H(==)>(history: seq<Op<H>>, h: H, topic: Topic): (n: nat) {
    if history == [] then 0
    else
      var before := Multiplicity(history[..|history| - 1], h, topic);
      match history[|history| - 1]
      case Subscribe(h', t) => if h' == h && t == topic then before + 1 else before
      case Unsubscribe(h', t) => if h' == h && t == topic then 0 else before
      case UnsubscribeAll(h') => if h' == h then 0 else before
      case Post(_, _) => before
  }

  function Copies(event: Event, n: nat): (r: seq<Event>)
    ensures |r| == n
  {
    if n == 0 then [] else [event] + Copies(event, n - 1)
  }

  /** The posts in their global order, each as often as `h` was subscribed to its topic at that time. */
  function Owed<H(==)>(history: seq<Op<H>>, h: H): (r: seq<Event>) {
    if history == [] then []
    else
      var before := history[..|history| - 1];
      match history[|history| - 1]
      case Post(event, topic) => Owed(before, h) + Copies(event, Multiplicity(before, h, topic))
      case _ => Owed(before, h)
  }

  function Count<T(==)>(s: seq<T>, x: T): (n: nat) {
    if s == [] then 0 else (if s[0] == x then 1 else 0) + Count(s[1..], x)
  }

  /** The events among the entries that came from the broker, in order. */
  function FromBroker(q: seq<Entry>): (r: seq<Event>) {
    if q == [] then []
    else FromBroker(q[..|q| - 1]) + if q[|q| - 1].Posted? then [q[|q| - 1].event] else []
  }

  /** Those sent past it. */
  function PastBroker(q: seq<Entry>): (r: seq<Event>) {
    if q == [] then []
    else PastBroker(q[..|q| - 1]) + if q[|q| - 1].Direct? then [q[|q| - 1].event] else []
  }

  function Received<H(==)>(s: Delivery<H>, h: H): (r: seq<Entry>) {
    At(s.handled, h) + At(s.queues, h)
  }

  /** What the post in progress still has to put into the queue of `h`. */
  function Coming<H(==)>(s: Delivery<H>, h: H): (r: seq<Event>) {
    if s.posting.None? then [] else Copies(s.posting.value.event, Count(s.posting.value.rest, h))
  }

  ghost predicate Inv<H>(s: Delivery<H>, h: H) {
    && (forall t: Topic :: Count(At(s.subscribers, t), h) == Multiplicity(s.history, h, t))
    && FromBroker(Received(s, h)) + Coming(s, h) == Owed(s.history, h)
  }

  // -------------------------------------------------------------------- lemmas

  lemma {:induction false} CountAppend<T>(a: seq<T>, b: seq<T>, x: T)
    ensures Count(a + b, x) == Count(a, x) + Count(b, x)
    decreases |a|
  {
    if a == [] {
      assert a + b == b;
    } else {
      assert (a + b)[1..] == a[1..] + b;
      CountAppend(a[1..], b, x);
    }
  }

  lemma {:induction false} OneMore<T>(s: seq<T>, e: T, x: T)
    ensures Count(s + [e], x) == Count(s, x) + if e == x then 1 else 0
  {
    CountAppend(s, [e], x);
  }

  /** Removing a subscriber removes all its subscriptions and nobody else's. */
  lemma {:induction false} CountWithout<T>(s: seq<T>, x: T, y: T)
    ensures Count(Without(s, x), y) == if x == y then 0 else Count(s, y)
  {
    if s != [] {
      CountWithout(s[1..], x, y);
      if s[0] != x { assert ([s[0]] + Without(s[1..], x))[1..] == Without(s[1..], x); }
    }
  }

  lemma {:induction false} EntriesSnoc(q: seq<Entry>, e: Entry)
    ensures FromBroker(q + [e]) == FromBroker(q) + (if e.Posted? then [e.event] else [])
    ensures PastBroker(q + [e]) == PastBroker(q) + (if e.Direct? then [e.event] else [])
  {
    assert (q + [e])[..|q|] == q;
  }

  lemma {:induction false} EntriesPrefix(a: seq<Entry>, b: seq<Entry>)
    ensures FromBroker(a) <= FromBroker(a + b) && PastBroker(a) <= PastBroker(a + b)
    decreases |b|
  {
    if b == [] {
      assert a + b == a;
    } else {
      var init := b[..|b| - 1];
      assert a + b == (a + init) + [b[|b| - 1]];
      EntriesPrefix(a, init);
      EntriesSnoc(a + init, b[|b| - 1]);
    }
  }

  lemma {:induction false} HistorySnoc<H>(history: seq<Op<H>>, op: Op<H>, h: H, t: Topic)
    ensures Owed(history + [op], h) ==
            Owed(history, h) + (if op.Post? then Copies(op.event, Multiplicity(history, h, op.topic)) else [])
    ensures var before := Multiplicity(history, h, t);
            Multiplicity(history + [op], h, t) ==
            match op
            case Subscribe(h', t') => if h' == h && t' == t then before + 1 else before
            case Unsubscribe(h', t') => if h' == h && t' == t then 0 else before
            case UnsubscribeAll(h') => if h' == h then 0 else before
            case Post(_, _) => before
  {
    assert (history + [op])[..|history|] == history;
  }

  lemma {:induction false} SubscribedCounts<H>(subs: Subscribers<H>, history: seq<Op<H>>, op: Op<H>, h: H, t: Topic)
    requires Count(At(subs, t), h) == Multiplicity(history, h, t)
    ensures Count(At(Subscribed(subs, op), t), h) == Multiplicity(history + [op], h, t)
  {
    hide Multiplicity, Owed, Without;
    HistorySnoc(history, op, h, t);
    match op
    case Subscribe(h', t') =>
      CountAppend(At(subs, t'), [h'], h);
      assert Count([h'], h) == if h' == h then 1 else 0;
    case Unsubscribe(h', t') =>
      CountWithout(At(subs, t), h', h);
    case UnsubscribeAll(h') =>
      CountWithout(At(subs, t), h', h);
    case Post(_, _) =>
  }

  /** The subscriber lists that these critical sections leave behind. */
  function ListsAfter<H(==)>(history: seq<Op<H>>): (subs: Subscribers<H>) {
    if history == [] then map[] else Subscribed(ListsAfter(history[..|history| - 1]), history[|history| - 1])
  }

  /** They hold each handler as often as it is subscribed. */
  lemma {:induction false} ListsCount<H>(history: seq<Op<H>>, h: H, t: Topic)
    ensures Count(At(ListsAfter(history), t), h) == Multiplicity(history, h, t)
    decreases |history|
  {
    if history != [] {
      var before, op := history[..|history| - 1], history[|history| - 1];
      ListsCount(before, h, t);
      SubscribedCounts(ListsAfter(before), before, op, h, t);
      assert before + [op] == history;
    }
  }

  /** What a step puts into the queue of `h`. */
  function PutInto<H(==)>(s: Delivery<H>, step: Step<H>, h: H): (r: seq<Entry>)
    ensures |r| <= 1
  {
    match step
    case PutNext =>
      if s.posting.Some? && s.posting.value.rest != [] && s.posting.value.rest[0] == h
      then [Posted(s.posting.value.event)] else []
    case PostDirect(g, event) => if g == h then [Direct(event)] else []
    case Stop(g) => if g == h then [StopMark] else []
    case _ => []
  }

  lemma {:induction false} PutReceives<H>(s: Delivery<H>, g: H, e: Entry, h: H)
    ensures Received(Put(s, g, e), h) == if g == h then Received(s, h) + [e] else Received(s, h)
  {
  }

  lemma {:induction false} TakeReceives<H>(s: Delivery<H>, g: H, h: H)
    ensures Received(Next(s, Take(g)), h) == Received(s, h)
  {
  }

  lemma {:induction false} SameReceived<H>(s: Delivery<H>, s': Delivery<H>, h: H)
    requires s.queues == s'.queues && s.handled == s'.handled
    ensures Received(s, h) == Received(s', h)
  {
  }

  lemma {:induction false} StepReceives<H>(s: Delivery<H>, step: Step<H>, h: H)
    ensures Received(Next(s, step), h) == Received(s, h) + PutInto(s, step, h)
  {
    hide Subscribed, Received, At, Put;
    var s' := Next(s, step);
    assert Received(s, h) + [] == Received(s, h);
    match step
    case PutNext =>
      if s.posting.Some? && s.posting.value.rest != [] {
        var p := s.posting.value;
        PutReceives(s, p.rest[0], Posted(p.event), h);
        SameReceived(s', Put(s, p.rest[0], Posted(p.event)), h);
      }
    case PostDirect(g, event) => PutReceives(s, g, Direct(event), h);
    case Stop(g) => PutReceives(s, g, StopMark, h);
    case Take(g) => TakeReceives(s, g, h);
    case _ => SameReceived(s, s', h);
  }

  lemma {:induction false} EnterKeeps<H>(s: Delivery<H>, op: Op<H>, h: H)
    requires Inv(s, h) && s.posting.None?
    ensures Inv(Next(s, Enter(op)), h)
  {
    hide Subscribed, Multiplicity, Owed, FromBroker, Count, Copies;
    var s' := Next(s, Enter(op));
    forall t: Topic ensures Count(At(s'.subscribers, t), h) == Multiplicity(s'.history, h, t) {
      SubscribedCounts(s.subscribers, s.history, op, h, t);
    }
    HistorySnoc(s.history, op, h, 0);
    assert FromBroker(Received(s, h)) + [] == FromBroker(Received(s, h));
  }

  lemma {:induction false} PutKeeps<H>(s: Delivery<H>, h: H)
    requires Inv(s, h) && s.posting.Some? && s.posting.value.rest != []
    ensures Inv(Next(s, PutNext), h)
  {
    hide Multiplicity, Owed, FromBroker, Received;
    var p, s' := s.posting.value, Next(s, PutNext);
    StepReceives(s, PutNext, h);
    if p.rest[0] == h {
      EntriesSnoc(Received(s, h), Posted(p.event));
      assert Coming(s, h) == [p.event] + Coming(s', h);
    } else {
      assert Received(s, h) + [] == Received(s, h);
    }
  }

  /** Sending past the broker, taking and stopping leave alone what comes from the broker. */
  lemma {:induction false} OthersKeep<H>(s: Delivery<H>, step: Step<H>, h: H)
    requires Inv(s, h) && !step.Enter? && !step.PutNext?
    ensures Inv(Next(s, step), h)
  {
    hide Multiplicity, Owed, FromBroker, Received, Count, Copies;
    StepReceives(s, step, h);
    var put := PutInto(s, step, h);
    if put == [] {
      assert Received(s, h) + [] == Received(s, h);
    } else {
      EntriesSnoc(Received(s, h), put[0]);
      assert FromBroker(Received(s, h)) + [] == FromBroker(Received(s, h));
    }
    NothingToCopy(s, h);
  }

  lemma {:induction false} NothingToCopy<H>(s: Delivery<H>, h: H)
    ensures s.posting.Some? && s.posting.value.rest == [] ==> Coming(s, h) == []
  {
  }

  lemma {:induction false} RunInv<H>(steps: seq<Step<H>>, h: H)
    ensures Inv(Run(steps), h)
    decreases |steps|
  {
    hide Inv;
    if steps == [] {
      StartInv(h);
    } else {
      var s, step := Run(steps[..|steps| - 1]), steps[|steps| - 1];
      RunInv(steps[..|steps| - 1], h);
      match step
      case Enter(op) => if s.posting.None? { EnterKeeps(s, op, h); }
      case PutNext => if s.posting.Some? && s.posting.value.rest != [] { PutKeeps(s, h); }
      case _ => OthersKeep(s, step, h);
    }
  }

  lemma {:induction false} StartInv<H>(h: H)
    ensures Inv(Start(), h)
  {
  }

  // ------------------------------------------------------------------ theorems

  /**
   Whatever else is put into its queue meanwhile, a handler handles the broker's posts that it
   is subscribed to in their global order, each as often as it is subscribed.
   */
  lemma {:induction false} HandlesWhatItIsOwed<H>(steps: seq<Step<H>>, h: H)
    ensures var s := Run(steps); FromBroker(At(s.handled, h)) <= Owed(s.history, h)
  {
    hide Run, Owed, FromBroker;
    RunInv(steps, h);
    var s := Run(steps);
    EntriesPrefix(At(s.handled, h), At(s.queues, h));
  }

  /** Nothing is lost or added: with no post in progress, handled and queued are all it is owed. */
  lemma {:induction false} NothingIsLost<H>(steps: seq<Step<H>>, h: H)
    requires Run(steps).posting.None?
    ensures var s := Run(steps); FromBroker(At(s.handled, h) + At(s.queues, h)) == Owed(s.history, h)
  {
    hide Run, Owed, FromBroker;
    RunInv(steps, h);
  }

  /** Everything put into the queue of `h`, by whom ever, in order. */
  function Arrivals<H(==)>(steps: seq<Step<H>>, h: H): (r: seq<Entry>) {
    if steps == [] then []
    else
      var before := steps[..|steps| - 1];
      Arrivals(before, h) + PutInto(Run(before), steps[|steps| - 1], h)
  }

  /** First in, first out: handled and then queued is everything that arrived, in the order of arrival. */
  lemma {:induction false} HandledInArrivalOrder<H>(steps: seq<Step<H>>, h: H)
    ensures At(Run(steps).handled, h) + At(Run(steps).queues, h) == Arrivals(steps, h)
    decreases |steps|
  {
    hide Next, PutInto;
    if steps != [] {
      var before := steps[..|steps| - 1];
      HandledInArrivalOrder(before, h);
      StepReceives(Run(before), steps[|steps| - 1], h);
    }
  }

  /** The events sent to `h` past the broker, in order. */
  function SentDirectly<H(==)>(steps: seq<Step<H>>, h: H): (r: seq<Event>) {
    if steps == [] then []
    else
      var last := steps[|steps| - 1];
      SentDirectly(steps[..|steps| - 1], h) + if last.PostDirect? && last.h == h then [last.event] else []
  }

  /** They are handled in their own order, and none is lost. */
  lemma {:induction false} DirectPostsAreHandledInOrder<H>(steps: seq<Step<H>>, h: H)
    ensures var s := Run(steps);
            && PastBroker(At(s.handled, h) + At(s.queues, h)) == SentDirectly(steps, h)
            && PastBroker(At(s.handled, h)) <= SentDirectly(steps, h)
    decreases |steps|
  {
    var s := Run(steps);
    EntriesPrefix(At(s.handled, h), At(s.queues, h));
    DirectPostsArrive(steps, h);
  }

  lemma {:induction false} DirectPostsArrive<H>(steps: seq<Step<H>>, h: H)
    ensures PastBroker(Received(Run(steps), h)) == SentDirectly(steps, h)
    decreases |steps|
  {
    hide PastBroker, Received, Next;
    if steps == [] {
      NothingReceived(h);
    } else {
      var before := steps[..|steps| - 1];
      var s, step := Run(before), steps[|steps| - 1];
      DirectPostsArrive(before, h);
      StepReceives(s, step, h);
      var put := PutInto(s, step, h);
      if put == [] {
        assert Received(s, h) + [] == Received(s, h);
        assert SentDirectly(before, h) + [] == SentDirectly(before, h);
      } else {
        EntriesSnoc(Received(s, h), put[0]);
      }
    }
  }

  lemma {:induction false} NothingReceived<H>(h: H)
    ensures Received(Start(), h) == [] && PastBroker([]) == [] && Count<Entry>([], StopMark) == 0
  {
  }

  function Stops<H(==)>(steps: seq<Step<H>>, h: H): (n: nat) {
    if steps == [] then 0
    else Stops(steps[..|steps| - 1], h) + if steps[|steps| - 1] == Stop(h) then 1 else 0
  }

  /** Every stop() leaves one mark of its own behind; an EV_EMPTY that somebody posts is an event like any other. */
  lemma {:induction false} OneMarkPerStop<H>(steps: seq<Step<H>>, h: H)
    ensures Count(Received(Run(steps), h), StopMark) == Stops(steps, h)
    decreases |steps|
  {
    hide Count, Received, Next;
    if steps == [] {
      NothingReceived(h);
    } else {
      var before := steps[..|steps| - 1];
      var s, step := Run(before), steps[|steps| - 1];
      OneMarkPerStop(before, h);
      StepReceives(s, step, h);
      var put := PutInto(s, step, h);
      if put == [] {
        assert Received(s, h) + [] == Received(s, h);
      } else {
        OneMore(Received(s, h), put[0], StopMark);
      }
    }
  }

  /** A post in progress run to its end with no other step in between. */
  function Delivered<H(==)>(s: Delivery<H>): (s': Delivery<H>)
    requires s.posting.Some?
    ensures s'.posting.None?
    decreases |s.posting.value.rest|
  {
    if s.posting.value.rest == [] then Next(s, Finish) else Delivered(Next(s, PutNext))
  }

  function Entries(event: Event, n: nat): (r: seq<Entry>) {
    if n == 0 then [] else [Posted(event)] + Entries(event, n - 1)
  }

  lemma {:induction false} OnePut<H>(s: Delivery<H>, h: H)
    requires s.posting.Some? && s.posting.value.rest != []
    ensures var p, n := s.posting.value, Next(s, PutNext);
            && At(n.queues, h) == At(s.queues, h) + (if p.rest[0] == h then [Posted(p.event)] else [])
            && n.posting == Some(Posting(p.event, p.rest[1..]))
            && n.handled == s.handled && n.subscribers == s.subscribers && n.history == s.history
  {
    assert At(s.queues, h) + [] == At(s.queues, h);
  }

  /** It adds the event to every queue as often as the handler is in the list, and changes nothing else. */
  lemma {:induction false} UndisturbedPost<H>(s: Delivery<H>, h: H)
    requires s.posting.Some?
    ensures var p, s' := s.posting.value, Delivered(s);
            && At(s'.queues, h) == At(s.queues, h) + Entries(p.event, Count(p.rest, h))
            && s'.handled == s.handled && s'.subscribers == s.subscribers && s'.history == s.history
    decreases |s.posting.value.rest|
  {
    hide At;
    var p := s.posting.value;
    var q := At(s.queues, h);
    if p.rest == [] {
      assert q + [] == q;
    } else {
      OnePut(s, h);
      UndisturbedPost(Next(s, PutNext), h);
      var more := Entries(p.event, Count(p.rest[1..], h));
      hide Next;
      assert q + [] == q && (q + [Posted(p.event)]) + more == q + ([Posted(p.event)] + more);
    }
  }

  // ----------------------------------------------------- a handler posting to itself

  /**
   A handler subscribed to topic 0 gets `deferred` and `success` from the broker; handling the
   latter it sends itself the former again, as the camera controller does with deferred events.
   */
  function DeferAndRepost(deferred: Event, success: Event): (steps: seq<Step<nat>>) {
    [Enter(Subscribe(1, 0)), Enter(Post(deferred, 0)), PutNext, Finish, Take(1),
     Enter(Post(success, 0)), PutNext, Finish, Take(1), PostDirect(1, deferred), Take(1)]
  }

  lemma {:induction false} RunStep<H>(steps: seq<Step<H>>, k: nat)
    requires k < |steps|
    ensures Run(steps[..k + 1]) == Next(Run(steps[..k]), steps[k])
    ensures k + 1 == |steps| ==> steps[..k + 1] == steps
  {
    assert steps[..k + 1][..k] == steps[..k];
  }

  lemma {:induction false} RunFour<H>(steps: seq<Step<H>>, k: nat)
    requires k + 4 <= |steps|
    ensures Run(steps[..k + 4]) == Next(Next(Next(Next(Run(steps[..k]), steps[k]), steps[k + 1]), steps[k + 2]), steps[k + 3])
  {
    hide Run, Next;
    RunStep(steps, k);
    RunStep(steps, k + 1);
    RunStep(steps, k + 2);
    RunStep(steps, k + 3);
  }

  /** A post to a topic that only handler 1 is subscribed to, once: put, finished and taken. */
  lemma {:induction false} PostAndTake(s: Delivery<nat>, event: Event)
    requires s.posting.None? && At(s.subscribers, 0) == [1] && At(s.queues, 1) == []
    ensures var e := Next(Next(Next(Next(s, Enter(Post(event, 0))), PutNext), Finish), Take(1));
            && e.history == s.history + [Post(event, 0)] && e.subscribers == s.subscribers && e.posting.None?
            && At(e.queues, 1) == [] && At(e.handled, 1) == At(s.handled, 1) + [Posted(event)]
  {
    var a := Next(s, Enter(Post(event, 0)));
    assert a.posting == Some(Posting(event, [1]));
    var b := Next(a, PutNext);
    assert [1][1..] == [] && [] + [Posted(event)] == [Posted(event)];
    assert b.posting == Some(Posting(event, [])) && At(b.queues, 1) == [Posted(event)];
  }

  lemma {:induction false} FirstSubscribes(steps: seq<Step<nat>>)
    requires |steps| > 0 && steps[0] == Enter(Subscribe(1, 0))
    ensures var s := Run(steps[..1]);
            && s.history == [Subscribe(1, 0)] && s.posting.None? && At(s.subscribers, 0) == [1]
            && At(s.queues, 1) == [] && At(s.handled, 1) == []
  {
    RunStep(steps, 0);
    assert steps[..0] == [] && Run(steps[..0]) == Start();
    hide Run;
    Subscribes();
  }

  lemma {:induction false} PostIsTaken(steps: seq<Step<nat>>, k: nat, event: Event)
    requires k + 4 <= |steps|
    requires steps[k] == Enter(Post(event, 0)) && steps[k + 1] == PutNext && steps[k + 2] == Finish && steps[k + 3] == Take(1)
    requires var s := Run(steps[..k]); s.posting.None? && At(s.subscribers, 0) == [1] && At(s.queues, 1) == []
    ensures var s, e := Run(steps[..k]), Run(steps[..k + 4]);
            && e.history == s.history + [Post(event, 0)] && e.subscribers == s.subscribers && e.posting.None?
            && At(e.queues, 1) == [] && At(e.handled, 1) == At(s.handled, 1) + [Posted(event)]
  {
    hide Run, Next, At;
    RunFour(steps, k);
    PostAndTake(Run(steps[..k]), event);
  }

  lemma {:induction false} DirectIsTaken(steps: seq<Step<nat>>, k: nat, event: Event)
    requires k + 2 == |steps| && steps[k] == PostDirect(1, event) && steps[k + 1] == Take(1)
    requires At(Run(steps[..k]).queues, 1) == []
    ensures var s, e := Run(steps[..k]), Run(steps);
            e.history == s.history && At(e.handled, 1) == At(s.handled, 1) + [Direct(event)]
  {
    hide Run, Next, At;
    RunStep(steps, k);
    RunStep(steps, k + 1);
    DirectAndTake(Run(steps[..k]), event);
  }

  /** Then it handles three events while it is owed two: what it handled altogether is no prefix of that. */
  lemma {:induction false} SelfPostIsHandledBesides(deferred: Event, success: Event)
    ensures var s := Run(DeferAndRepost(deferred, success));
            && At(s.handled, 1) == [Posted(deferred), Posted(success), Direct(deferred)]
            && Owed(s.history, 1) == [deferred, success]
  {
    hide Run, At, Owed;
    var steps := DeferAndRepost(deferred, success);
    FirstSubscribes(steps);
    PostIsTaken(steps, 1, deferred);
    PostIsTaken(steps, 5, success);
    DirectIsTaken(steps, 9, deferred);
    OwedInOrder(deferred, success);
    assert Run(steps).history == [Subscribe(1, 0), Post(deferred, 0), Post(success, 0)];
  }

  lemma {:induction false} Subscribes()
    ensures var s := Next<nat>(Start(), Enter(Subscribe(1, 0)));
            && s.history == [Subscribe(1, 0)] && s.posting.None? && At(s.subscribers, 0) == [1]
            && At(s.queues, 1) == [] && At(s.handled, 1) == []
  {
    assert [] + [1] == [1];
  }

  lemma {:induction false} DirectAndTake(s: Delivery<nat>, event: Event)
    requires At(s.queues, 1) == []
    ensures var e := Next(Next(s, PostDirect(1, event)), Take(1));
            e.history == s.history && At(e.handled, 1) == At(s.handled, 1) + [Direct(event)]
  {
    assert At(Next(s, PostDirect(1, event)).queues, 1) == [Direct(event)];
  }

  lemma {:induction false} OwedInOrder(first: Event, second: Event)
    ensures Owed<nat>([Subscribe(1, 0), Post(first, 0), Post(second, 0)], 1) == [first, second]
  {
    var none: seq<Op<nat>> := [];
    HistorySnoc(none, Subscribe(1, 0), 1, 0);
    HistorySnoc([Subscribe(1, 0)], Post(first, 0), 1, 0);
    HistorySnoc([Subscribe(1, 0), Post(first, 0)], Post(second, 0), 1, 0);
    assert none + [Subscribe(1, 0)] == [Subscribe(1, 0)];
    assert [Subscribe(1, 0)] + [Post(first, 0)] == [Subscribe(1, 0), Post(first, 0)];
    assert [Subscribe(1, 0), Post(first, 0)] + [Post(second, 0)] == [Subscribe(1, 0), Post(first, 0), Post(second, 0)];
    assert Copies(first, 1) == [first] && Copies(second, 1) == [second];
  }
}
